/** The sleeping locks over wait queues. */
module Locks {
  import opened Wrappers
  import opened WaitQueues

  class BusyLock {
    const tasks: Sleepers
    const queue: Queue
    var locked: bool

    /** Nobody waits in the slot of an unlocked lock. */
    ghost predicate Valid()
      reads this, tasks
    {
      tasks.Valid() && (!locked ==> queue !in tasks.slots)
    }

    constructor (tasks: Sleepers, queue: Queue)
      requires tasks.Valid() && queue !in tasks.slots
      ensures Valid() && !locked && this.tasks == tasks && this.queue == queue
    {
      this.tasks, this.queue, locked := tasks, queue, false;
    }

    /** What a running task does from the test of the flag to its next sleep or its
        return; interrupts are off. */
    method TryAcquire(t: Task) returns (acquired: bool)
      requires Valid() && t in tasks.phases && tasks.phases[t].Awake?
      modifies this, tasks
      ensures Valid() && locked && acquired == !old(locked)
      ensures tasks.Now() == Tried(old(tasks.Now()), old(locked), t, queue)
      ensures if old(locked) then IsAsleep(tasks.phases, t) && queue in tasks.slots && tasks.slots[queue] == t
              else tasks.Now() == old(tasks.Now())
    {
      if locked {
        tasks.FallAsleep(t, queue);
        return false;
      }
      locked := true;
      return true;
    }

    /** A woken waiter wakes the one behind it and tests again. */
    method RetryAcquire(t: Task) returns (acquired: bool)
      requires Valid() && IsWoken(tasks.phases, t)
      modifies this, tasks
      ensures Valid() && locked && acquired == !old(locked)
      ensures tasks.Now() == Tried(WentOn(old(tasks.Now()), t), old(locked), t, queue)
    {
      tasks.Resume(t);
      acquired := TryAcquire(t);
    }

    /** As `acquire`, without taking the lock in the end. */
    method TryWait(t: Task) returns (free: bool)
      requires Valid() && t in tasks.phases && tasks.phases[t].Awake?
      modifies tasks
      ensures Valid() && free == !locked
      ensures tasks.Now() == Tried(old(tasks.Now()), locked, t, queue)
      ensures if locked then IsAsleep(tasks.phases, t) && queue in tasks.slots && tasks.slots[queue] == t
              else tasks.Now() == old(tasks.Now())
    {
      if locked {
        tasks.FallAsleep(t, queue);
        return false;
      }
      return true;
    }

    method RetryWait(t: Task) returns (free: bool)
      requires Valid() && IsWoken(tasks.phases, t)
      modifies tasks
      ensures Valid() && free == !locked
      ensures tasks.Now() == Tried(WentOn(old(tasks.Now()), t), locked, t, queue)
    {
      tasks.Resume(t);
      free := TryWait(t);
    }

    /** Frees the lock and wakes one waiter. */
    method Release()
      requires Valid() && locked
      modifies this, tasks
      ensures Valid() && !locked && tasks.Now() == WokenUp(old(tasks.Now()), queue)
    {
      locked := false;
      tasks.Wake(queue);
    }

    /** While the lock is free, every waiter hangs off a waiter that is runnable. */
    lemma WaiterOnItsWay(t: Task) returns (w: Task)
      requires Valid() && !locked && IsAsleep(tasks.phases, t) && tasks.phases[t].queue == queue
      ensures IsWoken(tasks.phases, w) && tasks.phases[w].queue == queue
      ensures t in Chain(tasks.slots, tasks.phases, Resumer(w))
    {
      var r := OnSomeChain(tasks.slots, tasks.phases, tasks.clock, t);
      HeadSleeps(tasks.slots, tasks.phases, r);
      ChainSleeps(tasks.slots, tasks.phases, Head(tasks.slots, tasks.phases, r), t);
      RootQueue(tasks.slots, tasks.phases, r);
      w := r.task;
    }
  }

  /** A chain sleeps in the queue of its root. */
  lemma RootQueue(slots: Slots, ps: Phases, r: Root)
    requires PointsAtSleepers(slots, ps) && IsRoot(slots, ps, r) && Head(slots, ps, r).Some?
    ensures IsAsleep(ps, Head(slots, ps, r).value)
    ensures ps[Head(slots, ps, r).value].queue == if r.Slot? then r.queue else ps[r.task].queue
  {
    match r {
      case Slot(q) => assert InSlot(slots, q, slots[q]);
      case Resumer(w) => assert Hands(ps, w, ps[w].next.value);
    }
  }

  /** A test of the flag: a locked one sends the task to sleep. */
  function Tried(s: State, locked: bool, t: Task, q: Queue): State { if locked then Slept(s, t, q) else s }

  // ----- the mutex -----

  datatype Stage = Idle | Waiting | Acquired | Holding | Releasing
  {
    predicate Inside() { Acquired? || Holding? || Releasing? }
  }

  /** A step in the mutex by one task, or an action on any other wait queue, which the
      holder and bystanders may sleep on and be woken from meanwhile. */
  datatype Step = Lock(t: Task) | Continue(t: Task) | Own(t: Task) | Disown(t: Task) | Release(t: Task)
    | Elsewhere(action: Action)

  datatype World = World(tasks: State, locked: bool, owner: Option<Task>, stage: map<Task, Stage>)
  {
    predicate At(t: Task, s: Stage) { t in stage && stage[t] == s }

    predicate Runs(t: Task) { t in tasks.phases && tasks.phases[t].Awake? }
  }

  /** A task that is not in the mutex and is running calls `lock`; or one that waited was
      woken; and so on through `unlock`. */
  predicate Ready(w: World, queue: Queue, s: Step)
  {
    match s
    case Lock(t) => w.At(t, Idle) && w.Runs(t)
    case Continue(t) => w.At(t, Waiting) && IsWoken(w.tasks.phases, t)
    case Own(t) => w.At(t, Acquired) && w.Runs(t)
    case Disown(t) => w.At(t, Holding) && w.Runs(t)
    case Release(t) => w.At(t, Releasing) && w.Runs(t)
    case Elsewhere(Sleep(t, q)) => q != queue && w.Runs(t)
    case Elsewhere(WakeUp(q)) => q != queue
    case Elsewhere(GoOn(t)) => IsWoken(w.tasks.phases, t) && w.tasks.phases[t].queue != queue
  }

  /** One attempt at the lock by task t, from the given state of the tasks. */
  function Attempted(w: World, tasks: State, queue: Queue, t: Task): World
  {
    World(Tried(tasks, w.locked, t, queue), true, w.owner, w.stage[t := if w.locked then Waiting else Acquired])
  }

  /** What a step does. */
  function Stepped(w: World, queue: Queue, s: Step): World
    requires Ready(w, queue, s)
  {
    match s
    case Lock(t) => Attempted(w, w.tasks, queue, t)
    case Continue(t) => Attempted(w, WentOn(w.tasks, t), queue, t)
    case Own(t) => w.(owner := Some(t), stage := w.stage[t := Holding])
    case Disown(t) => w.(owner := None, stage := w.stage[t := Releasing])
    case Release(t) => w.(tasks := WokenUp(w.tasks, queue), locked := false, stage := w.stage[t := Idle])
    case Elsewhere(a) => w.(tasks := Acted(w.tasks, a))
  }

  /** A task that finds the lock free has it, and one that finds it taken sleeps in its queue;
      releasing frees it and wakes who is in the slot. */
  lemma SteppedDoes(w: World, queue: Queue, s: Step)
    requires Ready(w, queue, s)
    ensures var w' := Stepped(w, queue, s);
      match s
      case Lock(t) =>
        w'.locked && if w.locked then w'.At(t, Waiting) && IsAsleep(w'.tasks.phases, t) && queue in w'.tasks.slots && w'.tasks.slots[queue] == t
                     else w'.At(t, Acquired) && w'.tasks == w.tasks
      case Continue(t) =>
        w'.locked && if w.locked then w'.At(t, Waiting) && IsAsleep(w'.tasks.phases, t) && queue in w'.tasks.slots && w'.tasks.slots[queue] == t
                     else w'.At(t, Acquired) && w'.Runs(t)
      case Own(t) => w'.owner == Some(t) && w'.At(t, Holding) && w'.locked == w.locked && w'.tasks == w.tasks
      case Disown(t) => w'.owner == None && w'.At(t, Releasing) && w'.locked == w.locked && w'.tasks == w.tasks
      case Release(t) =>
        && !w'.locked && w'.At(t, Idle) && queue !in w'.tasks.slots
        && (queue in w.tasks.slots && IsAsleep(w.tasks.phases, w.tasks.slots[queue]) ==>
              WokenFrom(w.tasks.phases, w'.tasks.phases, w.tasks.slots[queue]))
      case Elsewhere(a) => w'.tasks == Acted(w.tasks, a) && w'.stage == w.stage && w'.locked == w.locked && w'.owner == w.owner
    ensures forall u: Task | u in w.stage && !(s.Elsewhere? || u == s.t) :: u in Stepped(w, queue, s).stage && Stepped(w, queue, s).stage[u] == w.stage[u]
  {
  }

  /** A step that no task is ready for is not taken. */
  function SteppedAll(w: World, queue: Queue, steps: seq<Step>): World
  {
    if steps == [] then w
    else
      var v := SteppedAll(w, queue, steps[..|steps| - 1]);
      if Ready(v, queue, steps[|steps| - 1]) then Stepped(v, queue, steps[|steps| - 1]) else v
  }

  /** At most one task is past `acquire`, and then the lock is taken; the owner is recorded
      exactly while a task holds. */
  ghost predicate Exclusive(locked: bool, owner: Option<Task>, stage: map<Task, Stage>)
  {
    && (forall t: Task | t in stage && stage[t].Inside() :: locked)
    && (locked ==> Busy(stage))
    && (forall t: Task, u: Task | t in stage && u in stage && stage[t].Inside() && stage[u].Inside() :: t == u)
    && (forall t: Task | t in stage :: owner == Some(t) <==> stage[t].Holding?)
    && (owner.Some? ==> owner.value in stage)
  }

  /** Those that wait are those that sleep on the queue or were woken from it. */
  ghost predicate Waiters(ps: Phases, stage: map<Task, Stage>, queue: Queue)
  {
    stage.Keys == ps.Keys && forall t: Task | t in stage :: stage[t].Waiting? <==> PendingOn(ps, t, queue)
  }

  ghost predicate Consistent(w: World, queue: Queue)
  {
    Exclusive(w.locked, w.owner, w.stage) && Waiters(w.tasks.phases, w.stage, queue)
  }

  /** What the owner assertions of the code look at. */
  lemma OwnerFits(w: World, queue: Queue, t: Task)
    requires Consistent(w, queue)
    ensures w.At(t, Idle) ==> w.owner != Some(t)
    ensures w.At(t, Acquired) ==> w.owner == None
    ensures w.At(t, Holding) ==> w.owner == Some(t)
    ensures w.At(t, Releasing) ==> w.locked
  {
  }

  lemma AttemptKeeps(w: World, tasks: State, queue: Queue, t: Task)
    requires Consistent(w, queue) && t in w.stage && !w.stage[t].Inside()
    requires tasks.phases.Keys == w.tasks.phases.Keys && t in tasks.phases && tasks.phases[t].Awake?
    requires forall u: Task :: PendingOn(tasks.phases, u, queue) <==> PendingOn(w.tasks.phases, u, queue) && u != t
    ensures Consistent(Attempted(w, tasks, queue, t), queue)
  {
    var v := Attempted(w, tasks, queue, t);
    SleptPending(tasks.phases, v.tasks.phases, t, queue, w.locked);
    hide Exclusive, PendingOn;
    AttemptExclusive(w.locked, w.owner, w.stage, t);
  }

  lemma AttemptExclusive(locked: bool, owner: Option<Task>, stage: map<Task, Stage>, t: Task)
    requires Exclusive(locked, owner, stage) && t in stage && !stage[t].Inside()
    ensures Exclusive(true, owner, stage[t := if locked then Waiting else Acquired])
  {
    SomeoneInside(stage, stage[t := if locked then Waiting else Acquired], t, !locked);
    hide Busy;
  }

  lemma OwnershipKeeps(w: World, queue: Queue, t: Task)
    requires Consistent(w, queue)
    ensures Ready(w, queue, Own(t)) ==> Consistent(Stepped(w, queue, Own(t)), queue)
    ensures Ready(w, queue, Disown(t)) ==> Consistent(Stepped(w, queue, Disown(t)), queue)
  {
    if Ready(w, queue, Own(t)) { StageMoves(w.locked, w.owner, w.stage, t); }
    if Ready(w, queue, Disown(t)) { StageMoves(w.locked, w.owner, w.stage, t); }
    hide Exclusive;
  }

  lemma StageMoves(locked: bool, owner: Option<Task>, stage: map<Task, Stage>, t: Task)
    requires Exclusive(locked, owner, stage) && t in stage && stage[t].Inside()
    ensures stage[t].Acquired? ==> Exclusive(locked, Some(t), stage[t := Holding])
    ensures stage[t].Holding? ==> Exclusive(locked, None, stage[t := Releasing])
    ensures stage[t].Releasing? ==> Exclusive(false, owner, stage[t := Idle])
  {
    assert stage[t := Holding][t].Inside() && stage[t := Releasing][t].Inside();
  }

  lemma ReleaseKeeps(w: World, queue: Queue, t: Task)
    requires Consistent(w, queue) && Ready(w, queue, Step.Release(t))
    requires Inv(w.tasks.slots, w.tasks.phases, w.tasks.clock)
    ensures Consistent(Stepped(w, queue, Step.Release(t)), queue)
  {
    hide Inv;
    QueueOfSlot(w.tasks, queue);
    StageMoves(w.locked, w.owner, w.stage, t);
    hide Exclusive;
  }

  lemma ElsewhereKeeps(w: World, queue: Queue, a: Action)
    requires Consistent(w, queue) && Ready(w, queue, Elsewhere(a))
    requires Inv(w.tasks.slots, w.tasks.phases, w.tasks.clock)
    ensures Consistent(Stepped(w, queue, Elsewhere(a)), queue)
  {
    hide Inv, Exclusive;
    match a {
      case Sleep(t, q) =>
      case WakeUp(q) => QueueOfSlot(w.tasks, q);
      case GoOn(t) => HandsWithin(w.tasks, t);
    }
  }

  lemma SteppedSnoc(w: World, queue: Queue, steps: seq<Step>, n: nat)
    requires n < |steps|
    ensures var v := SteppedAll(w, queue, steps[..n]);
      SteppedAll(w, queue, steps[..n + 1]) == if Ready(v, queue, steps[n]) then Stepped(v, queue, steps[n]) else v
  {
    assert steps[..n + 1][..n] == steps[..n];
  }

  class Mutex {
    const lock: BusyLock
    var owner: Option<Task>
    /** Where each task is in `lock` and `unlock`. */
    var stage: map<Task, Stage>

    ghost predicate Valid()
      reads this, lock, lock.tasks
    {
      lock.Valid() && Consistent(Now(), lock.queue)
    }

    constructor (lock: BusyLock)
      requires lock.Valid() && !lock.locked && forall t | t in lock.tasks.phases :: lock.tasks.phases[t].Awake?
      ensures Valid() && this.lock == lock && owner == None
    {
      this.lock, owner := lock, None;
      stage := map t | t in lock.tasks.phases :: Idle;
    }

    ghost function Now(): World
      reads this, lock, lock.tasks
    {
      World(lock.tasks.Now(), lock.locked, owner, stage)
    }

    /** The call of `lock` up to the first sleep or the return of `acquire`. */
    method Begin(t: Task)
      requires Valid() && Ready(Now(), lock.queue, Lock(t))
      modifies this, lock, lock.tasks
      ensures Valid() && Now() == Stepped(old(Now()), lock.queue, Lock(t))
    {
      hide Inv, Consistent;
      OwnerFits(Now(), lock.queue, t);
      assert owner != Some(t);
      AttemptKeeps(Now(), lock.tasks.Now(), lock.queue, t);
      var acquired := lock.TryAcquire(t);
      stage := stage[t := if acquired then Acquired else Waiting];
    }

    /** A woken waiter's next attempt. */
    method Continued(t: Task)
      requires Valid() && Ready(Now(), lock.queue, Continue(t))
      modifies this, lock, lock.tasks
      ensures Valid() && Now() == Stepped(old(Now()), lock.queue, Continue(t))
    {
      hide Inv, Consistent, Resumed;
      ResumedPending(lock.tasks.phases, t, lock.queue);
      AttemptKeeps(Now(), WentOn(lock.tasks.Now(), t), lock.queue, t);
      var acquired := lock.RetryAcquire(t);
      stage := stage[t := if acquired then Acquired else Waiting];
    }

    method TakeOwnership(t: Task)
      requires Valid() && Ready(Now(), lock.queue, Own(t))
      modifies this
      ensures Valid() && Now() == Stepped(old(Now()), lock.queue, Own(t))
    {
      hide Inv, Consistent;
      OwnershipKeeps(Now(), lock.queue, t);
      OwnerFits(Now(), lock.queue, t);
      assert owner == None;
      owner := Some(t);
      stage := stage[t := Holding];
    }

    method GiveUpOwnership(t: Task)
      requires Valid() && Ready(Now(), lock.queue, Disown(t))
      modifies this
      ensures Valid() && Now() == Stepped(old(Now()), lock.queue, Disown(t))
    {
      hide Inv, Consistent;
      OwnershipKeeps(Now(), lock.queue, t);
      OwnerFits(Now(), lock.queue, t);
      assert owner == Some(t);
      owner := None;
      stage := stage[t := Releasing];
    }

    method Unlock(t: Task)
      requires Valid() && Ready(Now(), lock.queue, Step.Release(t))
      modifies this, lock, lock.tasks
      ensures Valid() && Now() == Stepped(old(Now()), lock.queue, Step.Release(t))
    {
      hide Inv, Consistent;
      ReleaseKeeps(Now(), lock.queue, t);
      OwnerFits(Now(), lock.queue, t);
      lock.Release();
      stage := stage[t := Idle];
    }

    /** Something happens on another wait queue. */
    method ActElsewhere(a: Action)
      requires Valid() && Ready(Now(), lock.queue, Elsewhere(a))
      modifies lock.tasks
      ensures Valid() && Now() == Stepped(old(Now()), lock.queue, Elsewhere(a))
    {
      hide Inv, Consistent, Resumed;
      ElsewhereKeeps(Now(), lock.queue, a);
      match a {
        case Sleep(t, q) => lock.tasks.FallAsleep(t, q);
        case WakeUp(q) => lock.tasks.Wake(q);
        case GoOn(t) => lock.tasks.Resume(t);
      }
    }

    /** One step. The assertions above are those of the code; none can fail. */
    method Perform(s: Step)
      requires Valid() && Ready(Now(), lock.queue, s)
      modifies this, lock, lock.tasks
      ensures Valid() && Now() == Stepped(old(Now()), lock.queue, s)
    {
      match s {
        case Lock(t) => Begin(t);
        case Continue(t) => Continued(t);
        case Own(t) => TakeOwnership(t);
        case Disown(t) => GiveUpOwnership(t);
        case Release(t) => Unlock(t);
        case Elsewhere(a) => ActElsewhere(a);
      }
    }

    /** Whatever order the tasks step in, here and on other queues, the invariant holds, no
        assertion fails, and the state is that of the steps one after another. */
    method Run(steps: seq<Step>)
      requires Valid()
      modifies this, lock, lock.tasks
      ensures Valid() && Now() == SteppedAll(old(Now()), lock.queue, steps)
    {
      hide Inv, Stepped;
      for i := 0 to |steps|
        invariant Valid() && Now() == SteppedAll(old(Now()), lock.queue, steps[..i])
      {
        SteppedSnoc(old(Now()), lock.queue, steps, i);
        if Ready(World(State(lock.tasks.slots, lock.tasks.phases, lock.tasks.clock), lock.locked, owner, stage), lock.queue, steps[i]) {
          Perform(steps[i]);
        }
      }
      assert steps[..|steps|] == steps;
    }

    /** At most one task holds the mutex. */
    lemma OneHolder(t: Task, u: Task)
      requires Valid() && t in stage && u in stage && stage[t].Holding? && stage[u].Holding?
      ensures t == u && owner == Some(t)
    {
    }
  }

  ghost predicate Busy(stage: map<Task, Stage>) { exists t: Task :: t in stage && stage[t].Inside() }

  lemma SomeoneInside(before: map<Task, Stage>, after: map<Task, Stage>, t: Task, acquired: bool)
    requires t in before && !before[t].Inside() && after == before[t := if acquired then Acquired else Waiting]
    requires acquired || Busy(before)
    ensures Busy(after)
  {
    if acquired {
      assert after[t].Inside();
    } else {
      var u: Task :| u in before && before[u].Inside();
      assert u in after && after[u].Inside();
    }
  }

  /** Resuming takes the task, and only it, from those that wait. */
  lemma ResumedPending(ps: Phases, t: Task, q: Queue)
    requires IsWoken(ps, t)
    ensures forall u: Task :: PendingOn(Resumed(ps, t), u, q) <==> PendingOn(ps, u, q) && u != t
    ensures Resumed(ps, t).Keys == ps.Keys && Resumed(ps, t)[t].Awake?
  {
  }

  /** Falling asleep adds the task, and only it. */
  lemma SleptPending(ps: Phases, ps': Phases, t: Task, q: Queue, slept: bool)
    requires t in ps && t in ps' && ps' == (if slept then ps[t := ps'[t]] else ps)
    requires slept ==> ps'[t].Asleep? && ps'[t].queue == q
    ensures forall u: Task :: PendingOn(ps', u, q) <==> PendingOn(ps, u, q) || (slept && u == t)
    ensures ps'.Keys == ps.Keys
  {
  }

  /** The task in the slot of q sleeps in q. */
  lemma QueueOfSlot(s: State, q: Queue)
    requires Inv(s.slots, s.phases, s.clock)
    ensures q in s.slots ==> IsAsleep(s.phases, s.slots[q]) && s.phases[s.slots[q]].queue == q
  {
    assert q in s.slots ==> InSlot(s.slots, q, s.slots[q]);
  }

  /** A task hands on within its queue. */
  lemma HandsWithin(s: State, t: Task)
    requires Inv(s.slots, s.phases, s.clock) && IsWoken(s.phases, t)
    ensures s.phases[t].next.Some? ==>
      IsAsleep(s.phases, s.phases[t].next.value) && s.phases[s.phases[t].next.value].queue == s.phases[t].queue
  {
    assert s.phases[t].next.Some? ==> Hands(s.phases, t, s.phases[t].next.value);
  }

  predicate PendingOn(ps: Phases, t: Task, q: Queue) { Pending(ps, t) && ps[t].queue == q }
}

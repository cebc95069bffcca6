/** Single-slot wait queues whose waiting list lives in the sleepers' stack frames, and
    the locks built on them, as atomic steps of interleaved tasks. */
module WaitQueues {
  import opened Wrappers

  type Task = nat
  type Queue = nat

  /** Where a task stands with respect to `sleep`: `next` is the waiter it took over from
      the slot and wakes when it resumes. */
  datatype Phase =
    | Awake
    | Asleep(queue: Queue, next: Option<Task>, ticket: nat)
    | Woken(queue: Queue, next: Option<Task>, ticket: nat)

  type Phases = map<Task, Phase>
  type Slots = map<Queue, Task>

  predicate IsAsleep(ps: Phases, t: Task) { t in ps && ps[t].Asleep? }

  predicate IsWoken(ps: Phases, t: Task) { t in ps && ps[t].Woken? }

  predicate Pending(ps: Phases, t: Task) { t in ps && !ps[t].Awake? }

  /** Task u will wake task t when it resumes. */
  predicate Hands(ps: Phases, u: Task, t: Task) { Pending(ps, u) && ps[u].next == Some(t) }

  predicate InSlot(slots: Slots, q: Queue, t: Task) { q in slots && slots[q] == t }

  // ----- the invariant -----

  /** What the slots and the sleepers' frames point at is asleep in the same queue, and
      entered it earlier. */
  ghost predicate PointsAtSleepers(slots: Slots, ps: Phases)
  {
    && (forall q: Queue, t: Task | InSlot(slots, q, t) :: IsAsleep(ps, t) && ps[t].queue == q)
    && (forall u: Task, t: Task | Hands(ps, u, t) ::
          IsAsleep(ps, t) && ps[t].queue == ps[u].queue && ps[t].ticket < ps[u].ticket)
  }

  ghost predicate Referenced(slots: Slots, ps: Phases, t: Task)
  {
    (exists q: Queue :: InSlot(slots, q, t)) || exists u: Task :: Hands(ps, u, t)
  }

  ghost predicate AllReferenced(slots: Slots, ps: Phases)
  {
    forall t: Task | IsAsleep(ps, t) :: Referenced(slots, ps, t)
  }

  /** Nothing is pointed at twice. */
  ghost predicate OneReference(slots: Slots, ps: Phases)
  {
    && (forall u: Task, v: Task, t: Task | Hands(ps, u, t) && Hands(ps, v, t) :: u == v)
    && (forall q: Queue, u: Task, t: Task | InSlot(slots, q, t) :: !Hands(ps, u, t))
  }

  ghost predicate Inv(slots: Slots, ps: Phases, clock: nat)
  {
    && PointsAtSleepers(slots, ps) && AllReferenced(slots, ps) && OneReference(slots, ps)
    && forall t: Task | Pending(ps, t) :: ps[t].ticket < clock
  }

  // ----- chains -----

  /** A chain hangs off a queue's slot or off a woken task that has not resumed yet. */
  datatype Root = Slot(queue: Queue) | Resumer(task: Task)

  ghost predicate IsRoot(slots: Slots, ps: Phases, r: Root)
  {
    match r case Slot(q) => q in slots case Resumer(w) => IsWoken(ps, w)
  }

  ghost function Head(slots: Slots, ps: Phases, r: Root): Option<Task>
    requires IsRoot(slots, ps, r)
  {
    match r case Slot(q) => Some(slots[q]) case Resumer(w) => ps[w].next
  }

  /** The sleepers from task h on, each waking the next. */
  ghost function ChainFrom(slots: Slots, ps: Phases, h: Option<Task>): seq<Task>
    requires PointsAtSleepers(slots, ps) && (h.Some? ==> IsAsleep(ps, h.value))
    decreases if h.Some? then ps[h.value].ticket + 1 else 0
  {
    if h.None? then [] else
      assert ps[h.value].next.Some? ==> Hands(ps, h.value, ps[h.value].next.value);
      [h.value] + ChainFrom(slots, ps, ps[h.value].next)
  }

  ghost function Chain(slots: Slots, ps: Phases, r: Root): seq<Task>
    requires PointsAtSleepers(slots, ps) && IsRoot(slots, ps, r)
  {
    var h := Head(slots, ps, r);
    assert r.Slot? ==> InSlot(slots, r.queue, slots[r.queue]);
    assert r.Resumer? && h.Some? ==> Hands(ps, r.task, h.value);
    ChainFrom(slots, ps, h)
  }

  /** All of a chain sleeps in one queue, newest first. */
  lemma {:induction false} ChainSleeps(slots: Slots, ps: Phases, h: Option<Task>, t: Task)
    requires PointsAtSleepers(slots, ps) && h.Some? && IsAsleep(ps, h.value)
    requires t in ChainFrom(slots, ps, h)
    ensures IsAsleep(ps, t) && ps[t].queue == ps[h.value].queue && ps[t].ticket <= ps[h.value].ticket
    decreases ps[h.value].ticket
  {
    var n := ps[h.value].next;
    if n.Some? {
      assert Hands(ps, h.value, n.value);
      if t != h.value { ChainSleeps(slots, ps, n, t); }
    }
  }

  /** The task that a member of a chain hands to is the next member. */
  lemma {:induction false} ChainGoesOn(slots: Slots, ps: Phases, h: Option<Task>, u: Task, t: Task)
    requires PointsAtSleepers(slots, ps) && h.Some? && IsAsleep(ps, h.value)
    requires u in ChainFrom(slots, ps, h) && Hands(ps, u, t)
    ensures t in ChainFrom(slots, ps, h)
    decreases ps[h.value].ticket
  {
    var n := ps[h.value].next;
    if n.Some? { assert Hands(ps, h.value, n.value); }
    if u == h.value {
      assert t in ChainFrom(slots, ps, n);
    } else {
      ChainGoesOn(slots, ps, n, u, t);
    }
  }

  /** A member that is not the first was handed on by another member. */
  lemma {:induction false} ChainCameFrom(slots: Slots, ps: Phases, h: Option<Task>, t: Task) returns (u: Task)
    requires PointsAtSleepers(slots, ps) && h.Some? && IsAsleep(ps, h.value)
    requires t in ChainFrom(slots, ps, h) && t != h.value
    ensures u in ChainFrom(slots, ps, h) && Hands(ps, u, t) && IsAsleep(ps, u)
    decreases ps[h.value].ticket
  {
    var n := ps[h.value].next;
    if n.Some? { assert Hands(ps, h.value, n.value); }
    if n == Some(t) {
      u := h.value;
    } else {
      u := ChainCameFrom(slots, ps, n, t);
    }
  }

  /** No sleeper is lost: every sleeper lies on a chain ... */
  lemma {:induction false} OnSomeChain(slots: Slots, ps: Phases, clock: nat, t: Task) returns (r: Root)
    requires Inv(slots, ps, clock) && IsAsleep(ps, t)
    ensures IsRoot(slots, ps, r) && t in Chain(slots, ps, r)
    decreases clock - ps[t].ticket
  {
    if q: Queue :| InSlot(slots, q, t) {
      r := Slot(q);
    } else {
      var u: Task :| Hands(ps, u, t);
      if IsWoken(ps, u) {
        r := Resumer(u);
      } else {
        r := OnSomeChain(slots, ps, clock, u);
        HeadSleeps(slots, ps, r);
        ChainGoesOn(slots, ps, Head(slots, ps, r), u, t);
      }
    }
  }

  /** ... and on one only. */
  lemma {:induction false} OnOneChain(slots: Slots, ps: Phases, clock: nat, t: Task, r: Root, r': Root)
    requires Inv(slots, ps, clock) && IsAsleep(ps, t) && IsRoot(slots, ps, r) && IsRoot(slots, ps, r')
    requires t in Chain(slots, ps, r) && t in Chain(slots, ps, r')
    ensures r == r'
    decreases clock - ps[t].ticket
  {
    var h, h' := Head(slots, ps, r), Head(slots, ps, r');
    HeadSleeps(slots, ps, r);
    HeadSleeps(slots, ps, r');
    if h == Some(t) && h' == Some(t) {
      SameHead(slots, ps, t, r, r');
    } else if h == Some(t) {
      var u := ChainCameFrom(slots, ps, h', t);
      HeadNotHanded(slots, ps, t, r, u);
    } else if h' == Some(t) {
      var u := ChainCameFrom(slots, ps, h, t);
      HeadNotHanded(slots, ps, t, r', u);
    } else {
      var u := ChainCameFrom(slots, ps, h, t);
      var u' := ChainCameFrom(slots, ps, h', t);
      OnOneChain(slots, ps, clock, u, r, r');
    }
  }

  lemma HeadSleeps(slots: Slots, ps: Phases, r: Root)
    requires PointsAtSleepers(slots, ps) && IsRoot(slots, ps, r)
    ensures Head(slots, ps, r).Some? ==> IsAsleep(ps, Head(slots, ps, r).value)
  {
    match r {
      case Slot(q) => assert InSlot(slots, q, slots[q]);
      case Resumer(w) => assert ps[w].next.Some? ==> Hands(ps, w, ps[w].next.value);
    }
  }

  /** A task is in one slot or handed on by one task, not both. */
  lemma RefersOnce(slots: Slots, ps: Phases, q: Queue, u: Task, v: Task, t: Task)
    requires OneReference(slots, ps)
    ensures InSlot(slots, q, t) ==> !Hands(ps, u, t)
    ensures Hands(ps, u, t) && Hands(ps, v, t) ==> u == v
  {
  }

  lemma SameHead(slots: Slots, ps: Phases, t: Task, r: Root, r': Root)
    requires PointsAtSleepers(slots, ps) && OneReference(slots, ps)
    requires IsRoot(slots, ps, r) && IsRoot(slots, ps, r') && Head(slots, ps, r) == Some(t) == Head(slots, ps, r')
    ensures r == r'
  {
    match (r, r') {
      case (Slot(q), Slot(q')) => assert InSlot(slots, q, t) && InSlot(slots, q', t);
      case (Slot(q), Resumer(w)) => RefersOnce(slots, ps, q, w, w, t);
      case (Resumer(w), Slot(q)) => RefersOnce(slots, ps, q, w, w, t);
      case (Resumer(w), Resumer(w')) => RefersOnce(slots, ps, 0, w, w', t);
    }
  }

  /** No sleeper hands on the head of a chain. */
  lemma HeadNotHanded(slots: Slots, ps: Phases, t: Task, r: Root, u: Task)
    requires PointsAtSleepers(slots, ps) && OneReference(slots, ps) && IsRoot(slots, ps, r)
    requires Head(slots, ps, r) == Some(t) && IsAsleep(ps, u)
    ensures !Hands(ps, u, t)
  {
    match r {
      case Slot(q) => RefersOnce(slots, ps, q, u, u, t);
      case Resumer(w) => RefersOnce(slots, ps, 0, u, w, t);
    }
  }

  ghost predicate OnChain(slots: Slots, ps: Phases, r: Root, t: Task)
    requires PointsAtSleepers(slots, ps)
  {
    IsRoot(slots, ps, r) && t in Chain(slots, ps, r)
  }

  // ----- the steps -----

  datatype Action = Sleep(t: Task, q: Queue) | WakeUp(q: Queue) | GoOn(t: Task)

  /** Everything the steps change. */
  datatype State = State(slots: Slots, phases: Phases, clock: nat)

  /** Task t puts itself in the slot of q, keeps who was there, and sleeps. */
  function Slept(s: State, t: Task, q: Queue): State
  {
    State(s.slots[q := t], s.phases[t := Asleep(q, if q in s.slots then Some(s.slots[q]) else None, s.clock)], s.clock + 1)
  }

  /** The slot of q is emptied and its task roused. */
  function WokenUp(s: State, q: Queue): State
  {
    State(s.slots - {q}, if q in s.slots then Roused(s.phases, s.slots[q]) else s.phases, s.clock)
  }

  /** A woken task goes on and rouses whom it took over. */
  function WentOn(s: State, t: Task): State
    requires IsWoken(s.phases, t)
  {
    State(s.slots, Resumed(s.phases, t), s.clock)
  }

  /** One action; a task that is not ready for its own does nothing. */
  function Acted(s: State, a: Action): State
  {
    match a
    case Sleep(t, q) => if t in s.phases && s.phases[t].Awake? then Slept(s, t, q) else s
    case WakeUp(q) => WokenUp(s, q)
    case GoOn(t) => if IsWoken(s.phases, t) then WentOn(s, t) else s
  }

  /** Who goes to sleep is in the slot and keeps who was there; a wake-up empties the slot and
      wakes its sleeper; a woken task is awake again and has woken whom it took over. */
  lemma ActedDoes(s: State, a: Action)
    ensures var s' := Acted(s, a);
      match a
      case Sleep(t, q) =>
        if t in s.phases && s.phases[t].Awake?
        then q in s'.slots && s'.slots[q] == t && s'.phases[t] == Asleep(q, if q in s.slots then Some(s.slots[q]) else None, s.clock)
        else s' == s
      case WakeUp(q) =>
        q !in s'.slots && (q in s.slots && IsAsleep(s.phases, s.slots[q]) ==> WokenFrom(s.phases, s'.phases, s.slots[q]))
      case GoOn(t) =>
        IsWoken(s.phases, t) ==>
          && s'.phases[t].Awake?
          && (s.phases[t].next.Some? && IsAsleep(s.phases, s.phases[t].next.value) ==>
                WokenFrom(s.phases, s'.phases, s.phases[t].next.value))
  {
  }

  function ActedAll(s: State, steps: seq<Action>): State
  {
    if steps == [] then s else Acted(ActedAll(s, steps[..|steps| - 1]), steps[|steps| - 1])
  }

  lemma ActedSnoc(s: State, steps: seq<Action>, n: nat)
    requires n < |steps|
    ensures ActedAll(s, steps[..n + 1]) == Acted(ActedAll(s, steps[..n]), steps[n])
  {
    assert steps[..n + 1][..n] == steps[..n];
  }

  /** All tasks and wait queues of the kernel. */
  class Sleepers {
    var slots: Slots
    var phases: Phases
    /** How often tasks have gone to sleep; it only orders them. */
    var clock: nat

    ghost predicate Valid()
      reads this
    {
      Inv(slots, phases, clock)
    }

    ghost function Now(): State
      reads this
    {
      State(slots, phases, clock)
    }

    /** Tasks that are awake, and empty queues. */
    constructor (tasks: set<Task>)
      ensures Valid() && slots == map[] && phases.Keys == tasks && forall t: Task | t in tasks :: phases[t] == Awake
    {
      slots, clock := map[], 0;
      phases := map t | t in tasks :: Awake;
    }

    /** The first half of `sleep`: puts the task in the slot, keeps who was there, marks
        the task and gives up the processor. Interrupts that could wake this queue are
        off meanwhile. */
    method FallAsleep(t: Task, q: Queue)
      requires Valid() && t in phases && phases[t].Awake?
      modifies this
      ensures Valid() && Now() == Slept(old(Now()), t, q)
      ensures slots == old(slots)[q := t] && clock == old(clock) + 1
      ensures phases == old(phases)[t := Asleep(q, if q in old(slots) then Some(old(slots)[q]) else None, old(clock))]
    {
      var handoff := if q in slots then Some(slots[q]) else None;
      FallsAsleep(slots, phases, clock, t, q);
      slots := slots[q := t];
      phases := phases[t := Asleep(q, handoff, clock)];
      clock := clock + 1;
    }

    /** `wake`: takes the task from the slot and makes it runnable. */
    method Wake(q: Queue)
      requires Valid()
      modifies this
      ensures Valid() && Now() == WokenUp(old(Now()), q)
      ensures slots == old(slots) - {q} && phases.Keys == old(phases).Keys && clock == old(clock)
      ensures q in old(slots) && IsAsleep(old(phases), old(slots)[q]) ==> WokenFrom(old(phases), phases, old(slots)[q])
      ensures forall u: Task | u in phases && !(q in old(slots) && u == old(slots)[q]) :: phases[u] == old(phases)[u]
    {
      if q in slots {
        WakesUp(slots, phases, clock, q);
        phases := Roused(phases, slots[q]);
      }
      slots := slots - {q};
      assert q !in old(slots) ==> slots == old(slots);
    }

    /** The second half of `sleep`: a woken task runs again and wakes the waiter it had
        taken over. */
    method Resume(t: Task)
      requires Valid() && IsWoken(phases, t)
      modifies this
      ensures Valid() && Now() == WentOn(old(Now()), t)
      ensures slots == old(slots) && phases.Keys == old(phases).Keys && phases[t].Awake? && clock == old(clock)
      ensures old(phases)[t].next.Some? && IsAsleep(old(phases), old(phases)[t].next.value) ==>
                WokenFrom(old(phases), phases, old(phases)[t].next.value)
      ensures forall u: Task | u in phases && u != t && old(phases)[t].next != Some(u) :: phases[u] == old(phases)[u]
    {
      Resumes(slots, phases, clock, t);
      var handoff := phases[t].next;
      phases := phases[t := Awake];
      if handoff.Some? {
        phases := Roused(phases, handoff.value);
      }
    }

    /** Whatever order tasks sleep, resume and are woken in, the invariant holds, and the
        state is that of the actions one after another. */
    method Run(steps: seq<Action>)
      requires Valid()
      modifies this
      ensures Valid() && Now() == ActedAll(old(Now()), steps) && phases.Keys == old(phases).Keys
    {
      for i := 0 to |steps|
        invariant Valid() && Now() == ActedAll(old(Now()), steps[..i]) && phases.Keys == old(phases).Keys
      {
        ActedSnoc(old(Now()), steps, i);
        match steps[i] {
          case Sleep(t, q) => if t in phases && phases[t].Awake? { FallAsleep(t, q); }
          case WakeUp(q) => Wake(q);
          case GoOn(t) => if IsWoken(phases, t) { Resume(t); }
        }
      }
      assert steps[..|steps|] == steps;
    }

    /** No sleeper is lost: each lies on exactly one chain, which hangs off a slot or off a
        woken task. */
    lemma NobodyLost(t: Task)
      requires Valid() && IsAsleep(phases, t)
      ensures exists r :: OnChain(slots, phases, r, t) && forall r' | OnChain(slots, phases, r', t) :: r' == r
    {
      var r := OnSomeChain(slots, phases, clock, t);
      assert OnChain(slots, phases, r, t);
      forall r' | OnChain(slots, phases, r', t) ensures r' == r {
        OnOneChain(slots, phases, clock, t, r, r');
      }
    }

    /** One after another the whole chain behind a woken task wakes up. */
    method Drain(w: Task) returns (ghost chain: seq<Task>)
      requires Valid() && IsWoken(phases, w)
      modifies this
      ensures Valid() && slots == old(slots)
      ensures chain == Chain(old(slots), old(phases), Resumer(w))
      ensures phases.Keys == old(phases).Keys
      ensures forall t: Task | t in phases :: phases[t] == if t == w || t in chain then Awake else old(phases)[t]
    {
      hide AllReferenced, OneReference;
      chain := Chain(slots, phases, Resumer(w));
      ghost var rest := chain;
      var current := Some(w);
      while current.Some?
        invariant Valid() && slots == old(slots) && phases.Keys == old(phases).Keys
        invariant current.Some? ==> IsWoken(phases, current.value) && rest == Chain(slots, phases, Resumer(current.value))
        invariant current.None? ==> rest == []
        invariant forall t: Task | t in phases ::
          if current == Some(t) then t == w || t in chain
          else if t in rest then t in chain && phases[t] == old(phases)[t]
          else phases[t] == if t == w || t in chain then Awake else old(phases)[t]
        decreases if current.None? then 0 else 1 + |rest|
      {
        var t := current.value;
        var next := phases[t].next;
        ghost var before := phases;
        DrainStep(slots, phases, clock, t);
        Resume(t);
        rest := if rest == [] then [] else rest[1..];
        current := next;
      }
    }
  }

  /** A sleeper was woken and keeps its queue and the waiter it took over. */
  predicate WokenFrom(ps: Phases, ps': Phases, t: Task)
  {
    && t in ps && ps[t].Asleep? && t in ps' && ps'[t].Woken? && ps'[t].queue == ps[t].queue && ps'[t].next == ps[t].next
  }

  /** `wake_task`: a sleeper becomes runnable; a task that runs keeps running. */
  function Roused(ps: Phases, t: Task): Phases
  {
    if IsAsleep(ps, t) then ps[t := Woken(ps[t].queue, ps[t].next, ps[t].ticket)] else ps
  }

  function Resumed(ps: Phases, t: Task): Phases
    requires IsWoken(ps, t)
  {
    var awake := ps[t := Awake];
    if ps[t].next.Some? then Roused(awake, ps[t].next.value) else awake
  }

  lemma FallsAsleep(slots: Slots, ps: Phases, clock: nat, t: Task, q: Queue)
    requires Inv(slots, ps, clock) && t in ps && ps[t].Awake?
    ensures Inv(slots[q := t], ps[t := Asleep(q, if q in slots then Some(slots[q]) else None, clock)], clock + 1)
  {
    var slots' := slots[q := t];
    var h := if q in slots then Some(slots[q]) else None;
    var ps' := ps[t := Asleep(q, h, clock)];
    if q in slots { assert InSlot(slots, q, slots[q]) && Pending(ps, slots[q]); }
    forall p: Queue, x: Task ensures InSlot(slots', p, x) <==> if p == q then x == t else InSlot(slots, p, x) {
    }
    forall x: Task ensures IsAsleep(ps', x) <==> IsAsleep(ps, x) || x == t {
    }
    forall u: Task, x: Task ensures Hands(ps', u, x) <==> if u == t then h == Some(x) else Hands(ps, u, x) {
    }
    forall x: Task | IsAsleep(ps', x) ensures Referenced(slots', ps', x) {
      assert x != t ==> Referenced(slots, ps, x);
      if x == t {
        assert InSlot(slots', q, t);
      } else if p: Queue :| InSlot(slots, p, x) {
        if p == q { assert Hands(ps', t, x); } else { assert InSlot(slots', p, x); }
      } else {
        var u: Task :| Hands(ps, u, x);
        assert Hands(ps', u, x);
      }
    }
  }

  lemma WakesUp(slots: Slots, ps: Phases, clock: nat, q: Queue)
    requires Inv(slots, ps, clock) && q in slots
    ensures IsAsleep(ps, slots[q]) && Inv(slots - {q}, Roused(ps, slots[q]), clock)
  {
    var t := slots[q];
    assert InSlot(slots, q, t);
    RouseKeeps(slots, slots - {q}, ps, t);
    forall p: Queue, x: Task ensures InSlot(slots - {q}, p, x) <==> InSlot(slots, p, x) && p != q {
    }
  }

  /** Rousing a task changes no hand-over. */
  lemma RouseKeeps(slots: Slots, slots': Slots, ps: Phases, t: Task)
    requires IsAsleep(ps, t)
    ensures forall u: Task, x: Task :: Hands(Roused(ps, t), u, x) <==> Hands(ps, u, x)
    ensures forall x: Task :: IsAsleep(Roused(ps, t), x) <==> IsAsleep(ps, x) && x != t
  {
  }

  lemma Resumes(slots: Slots, ps: Phases, clock: nat, t: Task)
    requires Inv(slots, ps, clock) && IsWoken(ps, t)
    ensures Inv(slots, Resumed(ps, t), clock)
    ensures ps[t].next.Some? ==> IsAsleep(ps, ps[t].next.value) && ps[t].next != Some(t)
  {
    var n := ps[t].next;
    var ps' := Resumed(ps, t);
    if n.Some? { assert Hands(ps, t, n.value); }
    forall u: Task, x: Task ensures Hands(ps', u, x) <==> Hands(ps, u, x) && u != t {
    }
    forall x: Task ensures IsAsleep(ps', x) <==> IsAsleep(ps, x) && n != Some(x) {
    }
    forall x: Task | IsAsleep(ps', x) ensures Referenced(slots, ps', x) {
      if !exists q: Queue :: InSlot(slots, q, x) {
        var u: Task :| Hands(ps, u, x);
        assert Hands(ps', u, x);
      }
    }
  }

  /** Chains depend on their members only. */
  lemma {:induction false} ChainUnchanged(slots: Slots, slots': Slots, ps: Phases, ps': Phases, h: Option<Task>)
    requires PointsAtSleepers(slots, ps) && PointsAtSleepers(slots', ps')
    requires h.Some? ==> IsAsleep(ps, h.value)
    requires forall x: Task | x in ChainFrom(slots, ps, h) :: x in ps && x in ps' && ps'[x] == ps[x]
    ensures h.Some? ==> IsAsleep(ps', h.value)
    ensures ChainFrom(slots', ps', h) == ChainFrom(slots, ps, h)
    decreases if h.Some? then ps[h.value].ticket + 1 else 0
  {
    if h.Some? {
      var n := ps[h.value].next;
      assert h.value in ChainFrom(slots, ps, h);
      if n.Some? { assert Hands(ps, h.value, n.value); }
      assert forall x: Task | x in ChainFrom(slots, ps, n) :: x in ChainFrom(slots, ps, h);
      ChainUnchanged(slots, slots', ps, ps', n);
    }
  }

  /** A resuming task passes its chain, less the first member, on to that member. */
  lemma DrainStep(slots: Slots, ps: Phases, clock: nat, t: Task)
    requires Inv(slots, ps, clock) && IsWoken(ps, t)
    ensures PointsAtSleepers(slots, Resumed(ps, t))
    ensures var chain := Chain(slots, ps, Resumer(t)); var n := ps[t].next;
      && t !in chain
      && (n.None? ==> chain == [] && Resumed(ps, t) == ps[t := Awake])
      && (n.Some? ==> IsAsleep(ps, n.value) && IsWoken(Resumed(ps, t), n.value)
                      && chain == [n.value] + Chain(slots, Resumed(ps, t), Resumer(n.value))
                      && n.value !in Chain(slots, Resumed(ps, t), Resumer(n.value)))
  {
    Resumes(slots, ps, clock, t);
    var n := ps[t].next;
    if n.Some? {
      assert Hands(ps, t, n.value);
      var m := ps[n.value].next;
      if m.Some? { assert Hands(ps, n.value, m.value); }
      forall x: Task | x in ChainFrom(slots, ps, m) ensures x in ps && ps[x].Asleep? && x != n.value && x != t {
        ChainSleeps(slots, ps, m, x);
      }
      ChainUnchanged(slots, slots, ps, Resumed(ps, t), m);
    }
  }

  /** Were the queue woken between the two actions of falling asleep, the wake-up would
      find the task still running and take it from the slot for nothing. Keeping such
      wake-ups out is exactly what keeps sleepers referenced. */
  lemma WakeInBetween(slots: Slots, ps: Phases, clock: nat, t: Task, q: Queue, woken: bool)
    requires Inv(slots, ps, clock) && t in ps && ps[t].Awake?
    ensures var put := slots[q := t];
      var slots' := if woken then put - {q} else put;
      var ps' := (if woken then Roused(ps, t) else ps)[t := Asleep(q, if q in slots then Some(slots[q]) else None, clock)];
      Inv(slots', ps', clock + 1) <==> !woken
  {
    FallsAsleep(slots, ps, clock, t, q);
    var h := if q in slots then Some(slots[q]) else None;
    var slots' := slots[q := t] - {q};
    var ps' := ps[t := Asleep(q, h, clock)];
    assert IsAsleep(ps', t);
    if q in slots { assert InSlot(slots, q, slots[q]); }
    forall p: Queue ensures !InSlot(slots', p, t) {
      assert InSlot(slots, p, t) ==> IsAsleep(ps, t);
    }
    forall u: Task ensures !Hands(ps', u, t) {
      assert Hands(ps, u, t) ==> IsAsleep(ps, t);
    }
    assert !Referenced(slots', ps', t);
  }
}

/** Task selection by decaying counters, the timer tick, and the search for a process id. */
module Scheduler {
  import opened Wrappers

  const TASK_NUM := 64

  type U32 = x: int | 0 <= x < 0x1_0000_0000

  datatype TaskInfo = TaskInfo(pid: U32, running: bool, counter: nat, priority: nat)

  type TaskTable = ts: seq<Option<TaskInfo>> | |ts| == TASK_NUM witness seq(TASK_NUM, _ => None)

  type Slot = k: nat | k < TASK_NUM

  /** A task other than the idle one that could run. */
  predicate Runnable(ts: TaskTable, k: nat) { 1 <= k < TASK_NUM && ts[k].Some? && ts[k].value.running }

  function Counter(ts: TaskTable, k: nat): nat
  {
    if k < TASK_NUM && ts[k].Some? then ts[k].value.counter else 0
  }

  // ----- selection -----

  /** Task k comes before task j: a larger counter, or the same and a higher slot. */
  predicate Beats(ts: TaskTable, k: nat, j: nat)
  {
    Counter(ts, k) > Counter(ts, j) || (Counter(ts, k) == Counter(ts, j) && k >= j)
  }

  ghost predicate Best(ts: TaskTable, k: nat)
  {
    Runnable(ts, k) && forall j: nat | Runnable(ts, j) :: Beats(ts, k, j)
  }

  ghost predicate NoneRunnable(ts: TaskTable) { forall k: nat :: !Runnable(ts, k) }

  function RefilledTask(t: Option<TaskInfo>): Option<TaskInfo>
  {
    match t case None => None case Some(i) => Some(i.(counter := i.counter / 2 + i.priority))
  }

  /** Only the counter changed: over the priority it has half of what it was, rounded down. */
  predicate RefilledBy(i: TaskInfo, j: TaskInfo)
  {
    && j.pid == i.pid && j.running == i.running && j.priority == i.priority
    && 2 * (j.counter - j.priority) <= i.counter <= 2 * (j.counter - j.priority) + 1
  }

  /** Every counter but the idle task's halved, plus the priority. */
  function Refilled(ts: TaskTable): (r: TaskTable)
    ensures r[0] == ts[0] && forall k | 1 <= k < TASK_NUM :: r[k] == RefilledTask(ts[k])
  {
    seq(TASK_NUM, k requires 0 <= k < TASK_NUM => if k == 0 then ts[0] else RefilledTask(ts[k]))
  }

  /** Who runs next, and with which counters. */
  ghost predicate Chooses(ts: TaskTable, ts': TaskTable, next: nat)
  {
    if NoneRunnable(ts) then ts' == ts && next == 0
    else if exists k: nat :: Runnable(ts, k) && Counter(ts, k) > 0 then ts' == ts && Best(ts, next)
    else ts' == Refilled(ts) && Best(ts', next)
  }

  /** The selection loop ends: no task is runnable, or one has something left or comes to
      have something by a refill. */
  ghost predicate SelectionEnds(ts: TaskTable)
  {
    NoneRunnable(ts) || exists k: nat :: Runnable(ts, k) && (Counter(ts, k) > 0 || ts[k].value.priority > 0)
  }

  /** Otherwise every refill leaves all of them at nothing: the loop goes on for ever. */
  lemma EndlessSelection(ts: TaskTable)
    requires !SelectionEnds(ts)
    ensures !SelectionEnds(Refilled(ts)) && forall k: nat | Runnable(ts, k) :: Counter(Refilled(ts), k) == 0
    ensures !NoneRunnable(ts)
  {
    forall k: nat ensures Runnable(Refilled(ts), k) <==> Runnable(ts, k) {
    }
    var k: nat :| Runnable(ts, k);
    assert Runnable(Refilled(ts), k);
  }

  ghost predicate PrioritiesPositive(ts: TaskTable)
  {
    forall k | 0 <= k < TASK_NUM && ts[k].Some? :: ts[k].value.priority >= 1
  }

  /** `nice` by an increment, which a priority must exceed. */
  function Niced(ts: TaskTable, k: Slot, increment: nat): TaskTable
  {
    if ts[k].Some? && ts[k].value.priority > increment
    then ts[k := Some(ts[k].value.(priority := ts[k].value.priority - increment))] else ts
  }

  /** Nothing that happens to a task table makes a priority zero: not `nice`, by however
      much, nor a tick, a refill, a selection, a fork, or a task that stops, goes on or ends. */
  lemma PrioritiesStay(e: Event, ts: TaskTable, c: Slot, ts': TaskTable, c': Slot)
    requires PrioritiesPositive(ts) && ts[c].Some? && Acts(e, ts, c, ts', c')
    ensures PrioritiesPositive(ts')
  {
    RefillsPositive(ts);
    RefillsPositive(Ticked(ts, c));
    hide Refilled;
  }

  lemma RefillsPositive(ts: TaskTable)
    requires PrioritiesPositive(ts)
    ensures PrioritiesPositive(Refilled(ts))
  {
    forall j | 0 <= j < TASK_NUM && Refilled(ts)[j].Some? ensures Refilled(ts)[j].value.priority >= 1 {
      assert ts[j].Some?;
    }
  }

  /** With positive priorities the selection always ends. */
  lemma PriorityEnds(ts: TaskTable)
    requires PrioritiesPositive(ts)
    ensures SelectionEnds(ts)
  {
    if !NoneRunnable(ts) {
      var k: nat :| Runnable(ts, k);
      assert ts[k].value.priority > 0;
    }
  }

  /** Counters below twice the priority. */
  ghost predicate Bounded(ts: TaskTable)
  {
    forall k | 1 <= k < TASK_NUM && ts[k].Some? :: ts[k].value.counter < 2 * ts[k].value.priority
  }

  /** Refilling keeps them there, so that 32 bits hold them. */
  lemma RefillBounded(ts: TaskTable)
    requires Bounded(ts)
    ensures Bounded(Refilled(ts))
    ensures forall k | 1 <= k < TASK_NUM && ts[k].Some? && ts[k].value.priority < 0x8000_0000 ::
              Counter(Refilled(ts), k) < 0x1_0000_0000
  {
    forall k | 1 <= k < TASK_NUM && ts[k].Some?
      ensures Refilled(ts)[k].value.counter < 2 * Refilled(ts)[k].value.priority
    {
      assert ts[k].value.counter < 2 * ts[k].value.priority;
    }
  }

  // ----- potential -----

  /** The counters of the first n slots, without task t's. */
  function CountersBelow(ts: TaskTable, t: nat, n: nat): nat
    requires n <= TASK_NUM
  {
    if n == 0 then 0 else CountersBelow(ts, t, n - 1) + if n - 1 == t then 0 else Counter(ts, n - 1)
  }

  /** How many user-mode ticks can pass before task t gets the processor: the other tasks'
      counters, and one more if the running task has none left. */
  function WaitBound(ts: TaskTable, current: nat, t: nat): nat
  {
    CountersBelow(ts, t, TASK_NUM) + if Counter(ts, current) == 0 then 1 else 0
  }

  lemma {:induction false} CountersUpdate(ts: TaskTable, t: nat, k: Slot, i: Option<TaskInfo>, n: nat)
    requires n <= TASK_NUM
    ensures CountersBelow(ts[k := i], t, n)
         == CountersBelow(ts, t, n) + if k < n && k != t then Counter(ts[k := i], k) - Counter(ts, k) else 0
  {
    if n > 0 { CountersUpdate(ts, t, k, i, n - 1); }
  }

  lemma {:induction false} CountersInclude(ts: TaskTable, t: nat, k: nat, n: nat)
    requires n <= TASK_NUM && k < n && k != t
    ensures CountersBelow(ts, t, n) >= Counter(ts, k)
  {
    if k < n - 1 { CountersInclude(ts, t, k, n - 1); }
  }

  /** Task t waits: it is runnable with something left, and another task runs. */
  predicate Waits(ts: TaskTable, current: nat, t: nat)
  {
    Runnable(ts, t) && Counter(ts, t) > 0 && current != t
  }

  class TaskManager {
    var tasks: TaskTable
    var current: Slot
    var lastPid: U32
    var jiffies: U32

    predicate Valid()
      reads this
    {
      tasks[0].Some? && tasks[current].Some?
    }

    constructor (idle: TaskInfo)
      ensures Valid() && current == 0 && lastPid == 0 && tasks[0] == Some(idle)
      ensures forall k | 1 <= k < TASK_NUM :: tasks[k] == None
    {
      tasks := seq(TASK_NUM, k => if k == 0 then Some(idle) else None);
      current, lastPid, jiffies := 0, 0, 0;
    }

    /** The runnable task with the largest counter, the higher slot first among equals. */
    method Candidate() returns (r: Option<Slot>)
      ensures match r case None => NoneRunnable(tasks) case Some(k) => Best(tasks, k)
      ensures r.Some? ==> forall j: nat | Runnable(tasks, j) ::
                TASK_NUM * Counter(tasks, j) + j <= TASK_NUM * Counter(tasks, r.value) + r.value
    {
      r := None;
      for k := 1 to TASK_NUM
        invariant match r
          case None => forall j: nat | j < k :: !Runnable(tasks, j)
          case Some(b) => b < k && Runnable(tasks, b) && forall j: nat | j < k && Runnable(tasks, j) :: Beats(tasks, b, j)
      {
        if tasks[k].Some? && tasks[k].value.running && (r.None? || Counter(tasks, k) >= Counter(tasks, r.value)) {
          r := Some(k);
        }
      }
    }

    method Refill()
      modifies this`tasks
      ensures tasks == Refilled(old(tasks))
      ensures tasks[0] == old(tasks)[0] && forall k | 1 <= k < TASK_NUM && old(tasks)[k].Some? ::
                tasks[k].Some? && RefilledBy(old(tasks)[k].value, tasks[k].value)
    {
      for k := 1 to TASK_NUM
        invariant forall j | 0 <= j < TASK_NUM :: tasks[j] == if 1 <= j < k then RefilledTask(old(tasks)[j]) else old(tasks)[j]
      {
        if tasks[k].Some? {
          tasks := tasks[k := RefilledTask(tasks[k])];
        }
      }
    }

    /** Selects the next task; None means that the current one goes on. With something
        left or to come it takes at most two passes. */
    method SelectNextTask() returns (r: Option<Slot>, ghost passes: nat)
      requires Valid() && SelectionEnds(tasks)
      modifies this`tasks
      ensures Valid() && passes <= 2
      ensures r != Some(current) && Chooses(old(tasks), tasks, if r.None? then current else r.value)
    {
      passes := 0;
      while true
        invariant passes <= 1 && tasks == (if passes == 0 then old(tasks) else Refilled(old(tasks)))
        invariant passes == 1 ==>
          !NoneRunnable(old(tasks)) && forall k: nat | Runnable(old(tasks), k) :: Counter(old(tasks), k) == 0
        decreases 2 - passes
      {
        passes := passes + 1;
        var candidate := Candidate();
        if passes == 2 { PositiveAfterRefill(old(tasks)); }
        match candidate {
          case Some(next) =>
            if Counter(tasks, next) > 0 {
              return if current != next then Some(next) else None, passes;
            }
          case None =>
            return if current != 0 then Some(0) else None, passes;
        }
        Refill();
      }
    }

    /** Selects and switches. */
    method Schedule()
      requires Valid() && SelectionEnds(tasks)
      modifies this`tasks, this`current
      ensures Valid() && Chooses(old(tasks), tasks, current)
    {
      var next, _ := SelectNextTask();
      if next.Some? {
        ChosenExists(old(tasks), tasks, next.value);
        current := next.value;
      }
    }

    /** One timer tick: takes one from the running task's counter, and reschedules when a
        user-mode task has none left. */
    method Tick(user: bool)
      requires Valid() && SelectionEnds(Ticked(tasks, current))
      modifies this`tasks, this`current, this`jiffies
      ensures Valid() && jiffies == (old(jiffies) + 1) % 0x1_0000_0000
      ensures var ticked := Ticked(old(tasks), old(current));
        if user && Counter(ticked, old(current)) == 0 then Chooses(ticked, tasks, current)
        else tasks == ticked && current == old(current)
      ensures var info := old(tasks)[old(current)].value;
        Ticked(old(tasks), old(current)) == old(tasks)[old(current) := Some(info.(counter := if info.counter == 0 then 0 else info.counter - 1))]
    {
      jiffies := (jiffies + 1) % 0x1_0000_0000;
      var info := tasks[current].value;
      if info.counter > 0 {
        tasks := tasks[current := Some(info.(counter := info.counter - 1))];
      }
      if user && tasks[current].value.counter == 0 {
        Schedule();
      }
    }

    /** A task's state changes: it blocks, ends, or becomes runnable. */
    method SetRunning(k: Slot, running: bool)
      requires Valid()
      modifies this`tasks
      ensures Valid() && tasks == Marked(old(tasks), k, running)
      ensures tasks[k].Some? <==> old(tasks)[k].Some?
      ensures old(tasks)[k].Some? ==> tasks == old(tasks)[k := Some(old(tasks)[k].value.(running := running))]
    {
      if tasks[k].Some? {
        tasks := tasks[k := Some(tasks[k].value.(running := running))];
      }
    }

    /** The end of a system call: a task that cannot go on, or has nothing left, gives up
        the processor. */
    method EndSyscall()
      requires Valid() && SelectionEnds(tasks)
      modifies this`tasks, this`current
      ensures Valid()
      ensures if Spent(old(tasks), old(current)) then Chooses(old(tasks), tasks, current)
              else tasks == old(tasks) && current == old(current)
    {
      if !tasks[current].value.running || tasks[current].value.counter == 0 {
        Schedule();
      }
    }

    /** The slot of a task that ended becomes empty. */
    method Reap(k: Slot)
      requires Valid()
      modifies this`tasks
      ensures Valid() && tasks == Reaped(old(tasks), current, k)
      ensures k != 0 && k != current && old(tasks)[k].Some? && !old(tasks)[k].value.running ==> tasks == old(tasks)[k := None]
      ensures k == current || (old(tasks)[k].Some? && old(tasks)[k].value.running) ==> tasks == old(tasks)
    {
      if k != 0 && k != current && tasks[k].Some? && !tasks[k].value.running {
        tasks := tasks[k := None];
      }
    }

    method PidInUse(pid: U32) returns (r: bool)
      ensures r <==> pid in Pids(tasks)
    {
      for k := 0 to TASK_NUM
        invariant forall j | 0 <= j < k :: tasks[j].Some? ==> tasks[j].value.pid != pid
      {
        if tasks[k].Some? && tasks[k].value.pid == pid {
          return true;
        }
      }
      return false;
    }

    /** `nice`: takes the increment from the current task's priority, when that is larger. */
    method Nice(increment: U32)
      requires Valid()
      modifies this`tasks
      ensures Valid() && tasks == Niced(old(tasks), current, increment)
      ensures var info := old(tasks)[current].value;
        tasks == old(tasks)[current := Some(info.(priority := if increment < info.priority then info.priority - increment else info.priority))]
      ensures PrioritiesPositive(old(tasks)) ==> PrioritiesPositive(tasks)
    {
      var info := tasks[current].value;
      if info.priority > increment {
        tasks := tasks[current := Some(info.(priority := info.priority - increment))];
      }
    }

    /** A forked child enters an empty slot, with its parent's priority. */
    method EnterChild(slot: Slot, pid: U32)
      requires Valid() && tasks[slot].None?
      modifies this`tasks
      ensures Valid()
      ensures var p := old(tasks)[current].value.priority;
        tasks == old(tasks)[slot := Some(TaskInfo(pid, true, p, p))]
      ensures PrioritiesPositive(old(tasks)) ==> PrioritiesPositive(tasks)
    {
      var priority := tasks[current].value.priority;
      tasks := tasks[slot := Some(TaskInfo(pid, true, priority, priority))];
    }

    /** The first unused process id, counting on from the last one given out. The search
        ends: 64 tasks cannot use up all numbers. */
    method NextUnusedPid()
      modifies this`lastPid
      ensures exists n: nat :: FirstUnused(old(lastPid), n, lastPid, Pids(tasks))
      ensures lastPid != 0 && forall q: U32 | Passed(old(lastPid), q, lastPid) :: q in Pids(tasks)
    {
      hide Pids, NthPid, NextPid;
      ghost var n: nat := 0;
      ghost var start := lastPid;
      PidsBounded(tasks);
      while true
        invariant n <= TASK_NUM
        invariant n > 0 ==> lastPid == NthPid(start, n)
        invariant n == 0 ==> lastPid == start
        invariant forall k: nat | 1 <= k <= n :: NthPid(start, k) in Pids(tasks)
        invariant tasks == old(tasks)
        decreases TASK_NUM - n
      {
        NextIsNth(start, n);
        lastPid := NextPid(lastPid);
        var used := PidInUse(lastPid);
        n := n + 1;
        if !used {
          assert FirstUnused(start, n, lastPid, Pids(tasks));
          AllPassed(start, n, lastPid, Pids(tasks));
          NthPositive(start, n);
          break;
        }
        TooManyPids(start, n, Pids(tasks));
      }
    }

    /** Finds an unused process id and an empty slot. */
    method AllocProcess() returns (r: Option<(Slot, U32)>)
      modifies this`lastPid
      ensures lastPid != 0 && lastPid !in Pids(tasks) && forall q: U32 | Passed(old(lastPid), q, lastPid) :: q in Pids(tasks)
      ensures exists n: nat :: FirstUnused(old(lastPid), n, lastPid, Pids(tasks))
      ensures match r
        case None => forall k | 1 <= k < TASK_NUM :: tasks[k].Some?
        case Some((slot, pid)) => pid == lastPid && slot >= 1 && tasks[slot].None? && forall k | 1 <= k < slot :: tasks[k].Some?
    {
      hide Pids, NthPid, NextPid;
      NextUnusedPid();
      ghost var n: nat :| FirstUnused(old(lastPid), n, lastPid, Pids(tasks));
      NthPositive(old(lastPid), n);
      for k := 1 to TASK_NUM
        invariant forall j | 1 <= j < k :: tasks[j].Some?
      {
        if tasks[k].None? {
          return Some((k, lastPid));
        }
      }
      return None;
    }

    /** One event, by the method it stands for. */
    method Perform(e: Event)
      requires Valid()
      requires SelectionEnds(tasks) && SelectionEnds(Ticked(tasks, current))
      modifies this`tasks, this`current, this`jiffies
      ensures Valid() && Acts(e, old(tasks), old(current), tasks, current)
      ensures e.Reschedule? ==> if NoneRunnable(tasks) then current == 0 else Runnable(tasks, current) && Counter(tasks, current) > 0
      ensures e.Mark? && old(tasks)[e.k].Some? ==> tasks[e.k].Some? && tasks[e.k].value.running == e.running
      ensures e.Fork? && old(tasks)[e.k].None? ==> tasks[e.k].Some? && tasks[e.k].value.running && tasks[e.k].value.pid == e.pid
    {
      if e.Reschedule? { TakenCanGo(tasks); }
      match e
      case UserTick => Tick(true);
      case KernelTick => Tick(false);
      case Mark(k, running) => SetRunning(k, running);
      case Reschedule => Schedule();
      case SyscallEnd => EndSyscall();
      case Niceness(increment) => Nice(increment);
      case Fork(k, pid) => if tasks[k].None? { EnterChild(k, pid); }
      case Wait(k) => Reap(k);
    }

    /** Until the waiting task gets the processor, each user-mode tick uses up at least one
        of the bound, and nothing adds to it but a fork, which adds the child's counter:
        n ticks without the processor leave at least 1 of a bound that was more than n. */
    method Progress(t: Slot, events: seq<Event>, ghost most: nat) returns (ran: bool, ticks: nat)
      requires Valid() && Waits(tasks, current, t) && PrioritiesUpTo(tasks, most)
      requires forall i | 0 <= i < |events| && events[i].Mark? :: events[i].k != t
      modifies this`tasks, this`current, this`jiffies
      ensures Valid()
      ensures ran ==> current == t
      ensures !ran ==> ticks == UserTicks(events) < WaitBound(old(tasks), old(current), t) + most * Forks(events)
    {
      hide WaitBound, Waits, PrioritiesUpTo, Acts, Refilled;
      ticks := 0;
      ran := false;
      NotIts(tasks, current, t);
      for i := 0 to |events|
        invariant Valid() && !ran && Waits(tasks, current, t) && ticks == UserTicks(events[..i])
        invariant current != t && PrioritiesUpTo(tasks, most)
        invariant ticks + WaitBound(tasks, current, t) <= WaitBound(old(tasks), old(current), t) + most * Forks(events[..i])
      {
        assert events[..i + 1] == events[..i] + [events[i]];
        Times(most, Forks(events[..i]));
        ghost var ts, c := tasks, current;
        WaitingEnds(ts, c, t);
        Perform(events[i]);
        StepWaits(events[i], ts, c, tasks, current, t, most);
        if events[i].UserTick? {
          ticks := ticks + 1;
        }
        if current == t {
          return true, ticks;
        }
        StillWaits(tasks, current, t);
      }
      assert events[..|events|] == events;
      BoundPositive(tasks, current, t);
    }
  }

  // ----- process ids -----

  /** One more, wrapping round to 1. */
  function NextPid(last: U32): U32 { Max((last + 1) % 0x1_0000_0000, 1) }

  const PID_CYCLE := 0xFFFF_FFFF

  /** The k-th id after `last`. */
  function NthPid(last: U32, k: nat): U32
    requires k > 0
  {
    (last - 1 + k) % PID_CYCLE + 1
  }

  lemma NthPositive(last: U32, k: nat)
    requires k > 0
    ensures NthPid(last, k) > 0
  {
  }

  /** The n-th id after `last` is the first that is not in use. */
  ghost predicate FirstUnused(last: U32, n: nat, pid: U32, used: set<U32>)
  {
    n > 0 && pid == NthPid(last, n) && pid !in used && forall k: nat | 1 <= k < n :: NthPid(last, k) in used
  }

  /** Counting up from `last`, and from 1 after the largest id, q comes before pid. */
  predicate Passed(last: U32, q: U32, pid: U32)
  {
    q != 0 && if last < pid then last < q < pid else last < q || q < pid
  }

  /** Whatever is passed on the way to the first unused id is in use. */
  lemma AllPassed(last: U32, n: nat, pid: U32, used: set<U32>)
    requires FirstUnused(last, n, pid, used)
    ensures forall q: U32 | Passed(last, q, pid) :: q in used
  {
    forall q: U32 | Passed(last, q, pid) ensures q in used {
      var k := if last < q then q - last else q - last + PID_CYCLE;
      NthIs(last, k, q);
      PassedBefore(last, n, pid, q, k);
    }
  }

  lemma NthIs(last: U32, k: nat, q: U32)
    requires 0 < k <= PID_CYCLE && q != 0 && (k == q - last || k == q - last + PID_CYCLE)
    ensures NthPid(last, k) == q
  {
  }

  lemma PassedBefore(last: U32, n: nat, pid: U32, q: U32, k: nat)
    requires n > 0 && pid == NthPid(last, n) && Passed(last, q, pid)
    requires k == if last < q then q - last else q - last + PID_CYCLE
    ensures 1 <= k < n
  {
  }

  lemma NextIsNth(last: U32, n: nat)
    ensures n == 0 ==> NextPid(last) == NthPid(last, 1)
    ensures n > 0 ==> NextPid(NthPid(last, n)) == NthPid(last, n + 1)
  {
    var x := last - 1 + n;
    assert (x + 1) % PID_CYCLE == if x % PID_CYCLE == PID_CYCLE - 1 then 0 else x % PID_CYCLE + 1;
  }

  function PidsBelow(ts: TaskTable, n: nat): (s: set<U32>)
    requires n <= TASK_NUM
    ensures forall p: U32 :: p in s <==> exists k :: 0 <= k < n && ts[k].Some? && ts[k].value.pid == p
    ensures |s| <= n
  {
    if n == 0 then {} else if ts[n - 1].None? then PidsBelow(ts, n - 1) else PidsBelow(ts, n - 1) + {ts[n - 1].value.pid}
  }

  /** The ids of all tasks. */
  function Pids(ts: TaskTable): set<U32> { PidsBelow(ts, TASK_NUM) }

  lemma PidsBounded(ts: TaskTable)
    ensures |Pids(ts)| <= TASK_NUM
  {
  }

  function FirstPids(last: U32, n: nat): (s: set<U32>)
    ensures forall p: U32 :: p in s <==> exists k: nat :: 1 <= k <= n && NthPid(last, k) == p
  {
    if n == 0 then {} else FirstPids(last, n - 1) + {NthPid(last, n)}
  }

  lemma {:induction false} FirstPidsDistinct(last: U32, n: nat)
    requires n < PID_CYCLE
    ensures |FirstPids(last, n)| == n
  {
    hide NthPid, FirstPids;
    if n == 0 {
      NoFirstPids(last);
    } else {
      FirstPidsDistinct(last, n - 1);
      NextPidNew(last, n);
      OneMoreFirst(last, n);
    }
  }

  lemma OneMoreFirst(last: U32, n: nat)
    requires n > 0 && NthPid(last, n) !in FirstPids(last, n - 1)
    ensures |FirstPids(last, n)| == |FirstPids(last, n - 1)| + 1
  {
    hide NthPid;
  }

  lemma NoFirstPids(last: U32)
    ensures FirstPids(last, 0) == {}
  {
  }

  lemma NextPidNew(last: U32, n: nat)
    requires 0 < n < PID_CYCLE
    ensures NthPid(last, n) !in FirstPids(last, n - 1)
  {
    hide NthPid;
    forall k: nat | 1 <= k < n ensures NthPid(last, k) != NthPid(last, n) {
      PidsDiffer(last, k, n);
    }
  }

  lemma PidsDiffer(last: U32, k: nat, n: nat)
    requires 0 < k < n < PID_CYCLE
    ensures NthPid(last, k) != NthPid(last, n)
  {
    Apart(last - 1 + k, n - k);
  }

  lemma Apart(x: int, d: nat)
    requires 0 < d < PID_CYCLE
    ensures x % PID_CYCLE != (x + d) % PID_CYCLE
  {
    var q, q' := x / PID_CYCLE, (x + d) / PID_CYCLE;
    assert d == (q' - q) * PID_CYCLE + ((x + d) % PID_CYCLE - x % PID_CYCLE);
  }

  /** The ids tried are distinct, so no more of them can be in use than there are tasks. */
  lemma TooManyPids(last: U32, n: nat, used: set<U32>)
    requires n < PID_CYCLE && forall k: nat | 1 <= k <= n :: NthPid(last, k) in used
    ensures n <= |used|
  {
    FirstPidsDistinct(last, n);
    assert FirstPids(last, n) <= used;
    assert used == FirstPids(last, n) + (used - FirstPids(last, n));
  }

  /** What happens: ticks, changes of a task's state, calls of the scheduler, the end of a
      system call, `nice`, a fork into a slot, and a wait that empties one. */
  datatype Event =
    | UserTick | KernelTick | Mark(k: Slot, running: bool) | Reschedule | SyscallEnd
    | Niceness(increment: U32) | Fork(k: Slot, pid: U32) | Wait(k: Slot)

  function UserTicks(events: seq<Event>): nat
  {
    if events == [] then 0 else UserTicks(events[..|events| - 1]) + if events[|events| - 1].UserTick? then 1 else 0
  }

  function Forks(events: seq<Event>): nat
  {
    if events == [] then 0 else Forks(events[..|events| - 1]) + if events[|events| - 1].Fork? then 1 else 0
  }

  function Marked(ts: TaskTable, k: Slot, running: bool): TaskTable
  {
    if ts[k].Some? then ts[k := Some(ts[k].value.(running := running))] else ts
  }

  /** The child of the current task in an empty slot. */
  function Forked(ts: TaskTable, current: Slot, k: Slot, pid: U32): TaskTable
    requires ts[current].Some?
  {
    var p := ts[current].value.priority;
    if ts[k].None? then ts[k := Some(TaskInfo(pid, true, p, p))] else ts
  }

  function Reaped(ts: TaskTable, current: Slot, k: Slot): TaskTable
  {
    if k != 0 && k != current && ts[k].Some? && !ts[k].value.running then ts[k := None] else ts
  }

  /** The task cannot go on, or has nothing left. */
  predicate Spent(ts: TaskTable, current: Slot)
  {
    ts[current].Some? && (!ts[current].value.running || Counter(ts, current) == 0)
  }

  /** What an event does to the table and to the current task. */
  ghost predicate Acts(e: Event, ts: TaskTable, c: Slot, ts': TaskTable, c': Slot)
    requires ts[c].Some?
  {
    match e
    case UserTick =>
      if Counter(Ticked(ts, c), c) == 0 then Chooses(Ticked(ts, c), ts', c') else ts' == Ticked(ts, c) && c' == c
    case KernelTick => ts' == Ticked(ts, c) && c' == c
    case Mark(k, running) => ts' == Marked(ts, k, running) && c' == c
    case Reschedule => Chooses(ts, ts', c')
    case SyscallEnd => if Spent(ts, c) then Chooses(ts, ts', c') else ts' == ts && c' == c
    case Niceness(increment) => ts' == Niced(ts, c, increment) && c' == c
    case Fork(k, pid) => ts' == Forked(ts, c, k, pid) && c' == c
    case Wait(k) => ts' == Reaped(ts, c, k) && c' == c
  }

  ghost predicate PrioritiesUpTo(ts: TaskTable, most: nat)
  {
    forall k | 0 <= k < TASK_NUM && ts[k].Some? :: ts[k].value.priority <= most
  }

  lemma Times(a: nat, b: nat)
    ensures a * (b + 1) == a * b + a
  {
  }

  /** The running task's counter goes down by one, if it can. */
  function Ticked(ts: TaskTable, current: Slot): TaskTable
    requires ts[current].Some?
  {
    var info := ts[current].value;
    if info.counter > 0 then ts[current := Some(info.(counter := info.counter - 1))] else ts
  }

  lemma PositiveAfterRefill(ts: TaskTable)
    requires SelectionEnds(ts) && !NoneRunnable(ts) && forall k: nat | Runnable(ts, k) :: Counter(ts, k) == 0
    ensures exists k: nat :: Runnable(Refilled(ts), k) && Counter(Refilled(ts), k) > 0
  {
    var k: nat :| Runnable(ts, k) && (Counter(ts, k) > 0 || ts[k].value.priority > 0);
    assert Runnable(Refilled(ts), k) && Counter(Refilled(ts), k) > 0;
  }

  /** Whoever is selected has something left, if anyone can run. */
  lemma TakenCanGo(ts: TaskTable)
    requires SelectionEnds(ts)
    ensures forall ts': TaskTable, next: nat | Chooses(ts, ts', next) ::
              if NoneRunnable(ts') then next == 0 else Runnable(ts', next) && Counter(ts', next) > 0
  {
    forall ts': TaskTable, next: nat | Chooses(ts, ts', next)
      ensures if NoneRunnable(ts') then next == 0 else Runnable(ts', next) && Counter(ts', next) > 0
    {
      if !NoneRunnable(ts) {
        if exists k: nat :: Runnable(ts, k) && Counter(ts, k) > 0 {
          var k: nat :| Runnable(ts, k) && Counter(ts, k) > 0;
          assert Beats(ts, next, k);
        } else {
          PositiveAfterRefill(ts);
          var k: nat :| Runnable(Refilled(ts), k) && Counter(Refilled(ts), k) > 0;
          assert Beats(ts', next, k);
        }
      }
    }
  }

  lemma ChosenExists(ts: TaskTable, ts': TaskTable, next: nat)
    requires ts[0].Some? && Chooses(ts, ts', next)
    ensures next < TASK_NUM && ts'[next].Some?
  {
  }

  // ----- the bound -----

  /** As long as the waiting task is runnable with something left, the selection takes a
      task that has something left too, and no counter is refilled. */
  lemma ChoosesPositive(ts: TaskTable, ts': TaskTable, next: nat, t: nat)
    requires Runnable(ts, t) && Counter(ts, t) > 0 && Chooses(ts, ts', next)
    ensures ts' == ts && Counter(ts, next) > 0
  {
    assert Beats(ts, next, t);
  }

  lemma TickedWaits(ts: TaskTable, current: Slot, t: Slot)
    requires ts[current].Some? && Waits(ts, current, t)
    ensures var ticked := Ticked(ts, current);
      && SelectionEnds(ticked) && Runnable(ticked, t) && Counter(ticked, t) > 0 && ticked[0].Some? == ts[0].Some?
      && CountersBelow(ticked, t, TASK_NUM) == CountersBelow(ts, t, TASK_NUM) - (if Counter(ts, current) > 0 then 1 else 0)
      && WaitBound(ticked, current, t) <= WaitBound(ts, current, t)
  {
    var info := ts[current].value;
    if info.counter > 0 {
      CountersUpdate(ts, t, current, Some(info.(counter := info.counter - 1)), TASK_NUM);
    }
    assert Runnable(Ticked(ts, current), t) && Counter(Ticked(ts, current), t) > 0;
  }

  lemma AfterTick(ts: TaskTable, c: Slot, ts': TaskTable, c': Slot, t: Slot)
    requires ts[c].Some? && Waits(ts, c, t)
    requires var ticked := Ticked(ts, c);
      if Counter(ticked, c) == 0 then Chooses(ticked, ts', c') else ts' == ticked && c' == c
    ensures Runnable(ts', t) && Counter(ts', t) > 0
    ensures WaitBound(ts', c', t) + 1 <= WaitBound(ts, c, t)
  {
    TickedWaits(ts, c, t);
    var ticked := Ticked(ts, c);
    if Counter(ticked, c) == 0 { ChoosesPositive(ticked, ts', c', t); }
  }

  /** With a task that waits, the selection ends. */
  lemma WaitingEnds(ts: TaskTable, c: Slot, t: Slot)
    requires ts[c].Some? && Waits(ts, c, t)
    ensures SelectionEnds(ts) && SelectionEnds(Ticked(ts, c))
  {
    TickedWaits(ts, c, t);
  }

  lemma NotIts(ts: TaskTable, c: Slot, t: Slot)
    requires Waits(ts, c, t)
    ensures c != t
  {
  }

  lemma StillWaits(ts: TaskTable, c: Slot, t: Slot)
    requires Runnable(ts, t) && Counter(ts, t) > 0 && c != t
    ensures Waits(ts, c, t)
  {
  }

  /** No event but a tick and a fork changes the bound for the worse, and the waiting task
      goes on waiting. */
  lemma StepWaits(e: Event, ts: TaskTable, c: Slot, ts': TaskTable, c': Slot, t: Slot, most: nat)
    requires ts[c].Some? && Waits(ts, c, t) && Acts(e, ts, c, ts', c') && PrioritiesUpTo(ts, most)
    requires e.Mark? ==> e.k != t
    ensures Runnable(ts', t) && Counter(ts', t) > 0 && PrioritiesUpTo(ts', most)
    ensures WaitBound(ts', c', t) + (if e.UserTick? then 1 else 0) <= WaitBound(ts, c, t) + if e.Fork? then most else 0
  {
    hide Refilled;
    match e
    case UserTick => AfterTick(ts, c, ts', c', t); ChoosesSame(ts, c, ts', c', t);
    case KernelTick => TickedWaits(ts, c, t);
    case Reschedule => ChoosesPositive(ts, ts', c', t);
    case SyscallEnd => if Spent(ts, c) { ChoosesPositive(ts, ts', c', t); }
    case Mark(k, running) => CountersUpdate(ts, t, k, ts'[k], TASK_NUM);
    case Niceness(increment) => CountersUpdate(ts, t, c, ts'[c], TASK_NUM);
    case Fork(k, pid) => CountersUpdate(ts, t, k, ts'[k], TASK_NUM);
    case Wait(k) => CountersUpdate(ts, t, k, ts'[k], TASK_NUM);
  }

  /** A tick does not refill. */
  lemma ChoosesSame(ts: TaskTable, c: Slot, ts': TaskTable, c': Slot, t: Slot)
    requires ts[c].Some? && Waits(ts, c, t) && Acts(UserTick, ts, c, ts', c')
    ensures ts' == Ticked(ts, c)
  {
    hide Refilled;
    TickedWaits(ts, c, t);
    if Counter(Ticked(ts, c), c) == 0 { ChoosesPositive(Ticked(ts, c), ts', c', t); }
  }

  /** While another task runs, the bound is not used up. */
  lemma BoundPositive(ts: TaskTable, current: Slot, t: nat)
    requires current != t
    ensures WaitBound(ts, current, t) > 0
  {
    CountersInclude(ts, t, current, TASK_NUM);
  }
}

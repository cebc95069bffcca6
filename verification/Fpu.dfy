/** Lazy switching of the floating-point registers: one owner keeps its registers in the
    processor, everyone else faults on first use. */
module Fpu {
  import opened Wrappers

  type U32 = x: int | 0 <= x < 0x1_0000_0000

  type Task = nat

  /** The 27 words of an FNSAVE image. */
  type I387 = r: seq<U32> | |r| == 27 witness seq(27, _ => 0)

  /** What FNINIT, and FNSAVE after storing, leave in the registers. */
  function InitialRegs(): I387
  {
    [0x37F, 0, 0xFFFF] + seq(24, _ => 0)
  }

  datatype FpuContext = FpuContext(regs: I387, used: bool)

  const NEVER_USED := FpuContext(seq(27, _ => 0), false)

  /** The registers of every task that used them, as if each had its own. */
  type Registers = map<Task, I387>

  function Own(view: Registers, t: Task): I387
  {
    if t in view then view[t] else InitialRegs()
  }

  datatype Op = Switch(t: Task) | Use(write: I387) | Fork(child: Task) | Exit(next: Task)

  /** The state of a machine with registers for every task. */
  datatype Ideal = Ideal(view: Registers, tasks: set<Task>, current: Task)

  predicate Possible(s: Ideal, op: Op)
  {
    match op
    case Switch(t) => t in s.tasks
    case Use(_) => true
    case Fork(child) => child !in s.tasks
    case Exit(next) => next in s.tasks && next != s.current
  }

  function IdealStep(s: Ideal, op: Op): Ideal
  {
    match op
    case Switch(t) => s.(current := t)
    case Use(write) => s.(view := s.view[s.current := write])
    case Fork(child) =>
      Ideal(if s.current in s.view then s.view[child := s.view[s.current]] else s.view, s.tasks + {child}, s.current)
    case Exit(next) => Ideal(s.view - {s.current}, s.tasks - {s.current}, next)
  }

  /** What each use of the registers reads over a run. */
  function IdealReads(s: Ideal, ops: seq<Op>): seq<I387>
    decreases |ops|
  {
    if ops == [] then []
    else if !Possible(s, ops[0]) then IdealReads(s, ops[1..])
    else (if ops[0].Use? then [Own(s.view, s.current)] else []) + IdealReads(IdealStep(s, ops[0]), ops[1..])
  }

  function IdealRun(s: Ideal, ops: seq<Op>): Ideal
    decreases |ops|
  {
    if ops == [] then s
    else IdealRun(if Possible(s, ops[0]) then IdealStep(s, ops[0]) else s, ops[1..])
  }

  lemma {:induction false} RunSnoc(s: Ideal, ops: seq<Op>, op: Op)
    ensures var t := IdealRun(s, ops);
      && IdealRun(s, ops + [op]) == (if Possible(t, op) then IdealStep(t, op) else t)
      && IdealReads(s, ops + [op]) == IdealReads(s, ops) + if Possible(t, op) && op.Use? then [Own(t.view, t.current)] else []
    decreases |ops|
  {
    if ops == [] {
      assert (ops + [op])[1..] == [];
    } else {
      assert (ops + [op])[1..] == ops[1..] + [op];
      RunSnoc(if Possible(s, ops[0]) then IdealStep(s, ops[0]) else s, ops[1..], op);
    }
  }

  // ----- what a run remembers -----

  /** Which tasks there are after some operations, and which one runs. */
  function Place(s: Ideal, ops: seq<Op>): (set<Task>, Task)
  {
    if ops == [] then (s.tasks, s.current)
    else
      var (tasks, c) := Place(s, ops[..|ops| - 1]);
      match ops[|ops| - 1]
      case Switch(t) => if t in tasks then (tasks, t) else (tasks, c)
      case Use(_) => (tasks, c)
      case Fork(child) => (tasks + {child}, c)
      case Exit(next) => if next in tasks && next != c then (tasks - {c}, next) else (tasks, c)
  }

  /** What task t last wrote, or its parent had written when it was forked; none if neither did. */
  function LastWritten(s: Ideal, ops: seq<Op>, t: Task): Option<I387>
  {
    if ops == [] then if t in s.view then Some(s.view[t]) else None
    else
      var before, op := ops[..|ops| - 1], ops[|ops| - 1];
      var (tasks, c) := Place(s, before);
      if op.Use? && t == c then Some(op.write)
      else if op.Fork? && t == op.child && t !in tasks then LastWritten(s, before, c)
      else if op.Exit? && t == c && op.next in tasks && op.next != c then None
      else LastWritten(s, before, t)
  }

  /** What the uses of a run read: each the last written, or fresh registers. */
  function Remembered(s: Ideal, ops: seq<Op>): seq<I387>
  {
    if ops == [] then []
    else
      var before := ops[..|ops| - 1];
      Remembered(s, before)
        + if ops[|ops| - 1].Use? then [match LastWritten(s, before, Place(s, before).1) case Some(r) => r case None => InitialRegs()]
          else []
  }

  /** Throughout a run every task's registers are what it last wrote, or inherited. */
  lemma {:induction false} RunRemembers(s: Ideal, ops: seq<Op>)
    requires s.view.Keys <= s.tasks && s.current in s.tasks
    ensures IdealReads(s, ops) == Remembered(s, ops)
    ensures var r := IdealRun(s, ops); (r.tasks, r.current) == Place(s, ops) && r.view.Keys <= r.tasks && r.current in r.tasks
    ensures forall t: Task :: LastWritten(s, ops, t) == if t in IdealRun(s, ops).view then Some(IdealRun(s, ops).view[t]) else None
    decreases |ops|
  {
    if ops != [] {
      var before, op := ops[..|ops| - 1], ops[|ops| - 1];
      assert ops == before + [op];
      RunRemembers(s, before);
      RunSnoc(s, before, op);
      var tasks := Place(s, before).0;
      assert op.Fork? && op.child in tasks ==> tasks + {op.child} == tasks;
    }
  }

  /** What a new task adds to what the tasks see. */
  lemma ChildSees(cs: map<Task, FpuContext>, cs': map<Task, FpuContext>, owner: Option<Task>, hardware: I387,
      child: Task, context: FpuContext)
    requires child !in cs && cs' == cs[child := context] && owner != Some(child)
    ensures ViewOf(cs', owner, hardware)
         == if context.used then ViewOf(cs, owner, hardware)[child := context.regs] else ViewOf(cs, owner, hardware)
  {
  }

  ghost function ViewOf(cs: map<Task, FpuContext>, owner: Option<Task>, hardware: I387): Registers
  {
    map t | t in cs && cs[t].used :: if owner == Some(t) then hardware else cs[t].regs
  }

  class Machine {
    /** The task whose registers the processor holds. */
    var owner: Option<Task>
    var contexts: map<Task, FpuContext>
    var current: Task
    /** The register file, and the flag that makes its next use fault. */
    var hardware: I387
    var ts: bool

    /** What the tasks see. */
    ghost function View(): Registers
      reads this
    {
      ViewOf(contexts, owner, hardware)
    }

    ghost function Seen(): Ideal
      reads this
    {
      Ideal(View(), contexts.Keys, current)
    }

    /** While the flag is clear, the current task is the owner. */
    ghost predicate Valid()
      reads this
    {
      && current in contexts
      && (owner.Some? ==> owner.value in contexts && contexts[owner.value].used)
      && (!ts ==> owner == Some(current))
    }

    constructor Init(boot: Task)
      ensures Valid() && Seen() == Ideal(map[], {boot}, boot)
    {
      owner, contexts, current := None, map[boot := NEVER_USED], boot;
      hardware, ts := InitialRegs(), true;
    }

    /** FNSAVE: stores the registers and reinitializes them. */
    method Fnsave() returns (image: I387)
      modifies this`hardware
      ensures image == old(hardware) && hardware == InitialRegs()
    {
      image := hardware;
      hardware := InitialRegs();
    }

    /** The fault on first use: flushes the owner's registers and loads the current
        task's. */
    method SwitchIn()
      requires Valid()
      modifies this
      ensures Valid() && !ts && owner == Some(current) && current == old(current) && contexts.Keys == old(contexts).Keys
      ensures View() == old(View())[current := Own(old(View()), current)]
    {
      ts := false;
      if owner == Some(current) {
        return;
      }
      if owner.Some? {
        var image := Fnsave();
        contexts := contexts[owner.value := contexts[owner.value].(regs := image)];
      }
      owner := Some(current);
      var context := contexts[current];
      if context.used {
        hardware := context.regs;
      } else {
        hardware := InitialRegs();
        contexts := contexts[current := context.(used := true)];
      }
    }

    /** A floating-point instruction: reads the registers and writes new ones. */
    method Execute(write: I387) returns (read: I387)
      requires Valid()
      modifies this
      ensures Valid() && read == Own(old(View()), current)
      ensures Seen() == IdealStep(old(Seen()), Use(write))
      ensures View() == old(View())[current := write] && current == old(current) && contexts.Keys == old(contexts).Keys
    {
      if ts {
        SwitchIn();
      } else {
        assert current in View();
      }
      assert View()[current] == hardware;
      read := hardware;
      hardware := write;
    }

    /** Right after a switch: an owner that resumes need not fault. */
    method OnResume()
      modifies this`ts
      ensures ts == (old(ts) && owner != Some(current))
    {
      if owner == Some(current) {
        ts := false;
      }
    }

    /** A hardware task switch sets the flag. */
    method SwitchTo(t: Task)
      requires t in contexts && (owner.Some? ==> owner.value in contexts && contexts[owner.value].used)
      modifies this`current, this`ts
      ensures Valid() && Seen() == old(Seen()).(current := t)
    {
      current := t;
      ts := true;
      OnResume();
    }

    /** The current task's registers, for a child. */
    method SnapshotCurrent() returns (context: FpuContext)
      requires Valid()
      modifies this
      ensures Valid() && Seen() == old(Seen()) && contexts.Keys == old(contexts).Keys && owner == old(owner)
      ensures context.used <==> current in old(View())
      ensures context.used ==> context.regs == old(View())[current]
    {
      if owner == Some(current) {
        ts := false;
        var image := Fnsave();
        contexts := contexts[current := contexts[current].(regs := image)];
        hardware := image;
      }
      context := contexts[current];
    }

    method ForkTo(child: Task)
      requires Valid() && child !in contexts
      modifies this
      ensures Valid() && Seen() == IdealStep(old(Seen()), Fork(child))
      ensures contexts.Keys == old(contexts).Keys + {child} && current == old(current)
      ensures child in View() <==> current in old(View())
      ensures child in View() ==> View()[child] == old(View())[current]
      ensures forall t: Task | t != child ::
                (t in View() <==> t in old(View())) && (t in View() ==> View()[t] == old(View())[t])
    {
      var context := SnapshotCurrent();
      hide ViewOf;
      ghost var before := contexts;
      contexts := contexts[child := context];
      ChildSees(before, contexts, owner, hardware, child, context);
    }

    method AbandonOnExit()
      modifies this`owner
      ensures owner == if old(owner) == Some(current) then None else old(owner)
    {
      if owner == Some(current) {
        owner := None;
      }
    }

    method ExitTo(next: Task)
      requires Valid() && next in contexts && next != current
      modifies this
      ensures Valid() && Seen() == IdealStep(old(Seen()), Exit(next))
      ensures View() == old(View()) - {old(current)} && contexts.Keys == old(contexts).Keys - {old(current)} && current == next
    {
      AbandonOnExit();
      contexts := contexts - {current};
      SwitchTo(next);
    }

    /** Over every run each task reads exactly the registers it last wrote, fresh ones at
        its first use, and its parent's when it was forked from a user of them. */
    method Run(ops: seq<Op>) returns (seen: seq<I387>)
      requires Valid()
      modifies this
      ensures Valid() && seen == IdealReads(old(Seen()), ops) && Seen() == IdealRun(old(Seen()), ops)
      ensures seen == Remembered(old(Seen()), ops)
    {
      seen := [];
      for i := 0 to |ops|
        invariant Valid() && seen == IdealReads(old(Seen()), ops[..i]) && Seen() == IdealRun(old(Seen()), ops[..i])
      {
        RunSnoc(old(Seen()), ops[..i], ops[i]);
        assert ops[..i + 1] == ops[..i] + [ops[i]];
        match ops[i] {
          case Switch(t) => if t in contexts { SwitchTo(t); }
          case Use(write) =>
            var read := Execute(write);
            seen := seen + [read];
          case Fork(child) => if child !in contexts { ForkTo(child); }
          case Exit(next) => if next in contexts && next != current { ExitTo(next); }
        }
      }
      assert ops[..|ops|] == ops;
      RunRemembers(old(Seen()), ops);
    }

    /** `execve` drops the task's registers but leaves the flag alone: the invariant
        survives exactly when the flag was set. With the flag clear the next instruction
        does not fault and reads the old program's registers. */
    method ResetForExec()
      requires Valid()
      modifies this
      ensures View() == old(View()) - {current} && current == old(current) && ts == old(ts) && hardware == old(hardware)
      ensures Valid() <==> ts
    {
      if owner == Some(current) {
        owner := None;
      }
      contexts := contexts[current := contexts[current].(used := false)];
    }

    /** What the first instruction after an `execve` reads, against the fresh registers it
        should read. */
    method FirstUseAfterExec(write: I387) returns (read: I387)
      requires Valid()
      modifies this
      ensures read == if old(ts) then InitialRegs() else old(hardware)
    {
      ResetForExec();
      if ts {
        read := Execute(write);
      } else {
        read := hardware;
        hardware := write;
      }
    }
  }
}

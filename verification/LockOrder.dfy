/** Deadlock freedom: locks are taken in the order of their ranks, so waiting never forms a
    cycle and the processors can always run to completion. */
module LockOrder {
  import opened Spinlocks

  const RANKS: int := 4

  /** Page tables, then the frame allocator, then the log, then the devices. */
  function Rank(l: Lock): (r: int)
    ensures 0 <= r < RANKS
  {
    match l
    case Page(_) => 0
    case Allocator => 1
    case Log => 2
    case Serial => 3
    case Framebuffer => 3
    case IoApic(_) => 3
    case Acpi => 3
  }

  /** Code that, inside a lock of rank r, takes interrupt-stopping locks of higher rank only. */
  predicate Ordered(p: Prog, r: int) {
    match p
    case Return => true
    case Halt => true
    case Mask(next) => Ordered(next, r)
    case Do(_, next) => Ordered(next, r)
    case Enter(lock, stop, body, next) => stop && Rank(lock) > r && Ordered(body, Rank(lock)) && Ordered(next, r)
  }

  /** The rank of the innermost lock since the last interrupt or call. */
  function Top(st: Stack): int {
    if st.Held? then Rank(st.lock) else -1
  }

  predicate InOrder(control: Control, st: Stack)
    decreases st, 1
  {
    && RestInOrder(st)
    && match control
       case Idle => true
       case Halted => true
       case Run(p) => Ordered(p, Top(st))
       case Locking(_, lock, stop, _, body, next) =>
         stop && Rank(lock) > Top(st) && Ordered(body, Rank(lock)) && Ordered(next, Top(st))
       case Leave(_, _, next) => Ordered(next, Top(st))
  }

  predicate RestInOrder(st: Stack)
    decreases st, 0
  {
    match st
    case Empty => true
    case Call(_, rest) => RestInOrder(rest)
    case Held(lock, stop, _, _, next, rest) =>
      stop && Rank(lock) > Top(rest) && Ordered(next, Top(rest)) && RestInOrder(rest)
    case Interrupted(control, rest) => InOrder(control, rest)
  }

  /** Programs that may run: sound, and ordered from no lock at all. */
  predicate Fits(p: Prog) {
    Sound(p, false) && Ordered(p, -1)
  }

  predicate EventFits(e: Event) {
    match e
    case Begin(p) => Fits(p)
    case Interrupt(p) => Fits(p)
    case Tick => true
  }

  ghost predicate AllFit(actions: seq<Action>) {
    forall i | 0 <= i < |actions| :: EventFits(actions[i].event)
  }

  predicate CpuSafe(c: Cpu) {
    Flagged(c.flag, c.control, c.stack) && InOrder(c.control, c.stack)
  }

  ghost predicate Safe(s: System) {
    Exclusive(s) && forall i | 0 <= i < |s.cpus| :: CpuSafe(s.cpus[i])
  }

  lemma HeldInOrder(st: Stack)
    requires st.Held? && RestInOrder(st)
    ensures Ordered(st.next, Top(st.rest)) && RestInOrder(st.rest)
  {
  }

  lemma EventKeepsOrder(c: Cpu, locked: set<Lock>, e: Event)
    requires CpuSafe(c) && EventFits(e)
    ensures CpuSafe(Happen(c, locked, e).0)
  {
    var (d, _) := Happen(c, locked, e);
    EventKeepsFlagged(c, locked, e);
    if e.Begin? && c.control.Idle? {
      assert RestInOrder(d.stack);
    } else if e.Interrupt? && c.flag {
      assert RestInOrder(d.stack);
    } else if e.Tick? && c.control == Run(Return) && c.stack.Interrupted? {
      assert InOrder(c.stack.control, c.stack.rest);
    } else if e.Tick? && c.control == Run(Return) && c.stack.Held? {
      assert RestInOrder(c.stack);
      HeldInOrder(c.stack);
    } else if e.Tick? {
      assert RestInOrder(c.stack);
      assert c.control.Run? && (c.control.prog.Mask? || c.control.prog.Do?) ==> Ordered(c.control.prog.next, Top(c.stack));
    }
  }

  lemma ActKeepsSafe(s: System, a: Action)
    requires Safe(s) && EventFits(a.event)
    ensures Safe(Act(s, a))
  {
    ActKeepsExclusive(s, a);
    if a.cpu < |s.cpus| {
      EventKeepsOrder(s.cpus[a.cpu], s.locked, a.event);
    }
  }

  /** Every state of every run is safe. */
  lemma {:induction false} AlwaysSafe(flags: seq<bool>, actions: seq<Action>)
    requires AllFit(actions)
    ensures Safe(ActAll(Start(flags), actions))
    decreases |actions|
  {
    if actions != [] {
      var last := |actions| - 1;
      AlwaysSafe(flags, actions[..last]);
      ActKeepsSafe(ActAll(Start(flags), actions[..last]), actions[last]);
    }
  }

  // ---- Waiting -----------------------------------------------------------------------

  /** The processor spins on a lock that is taken. */
  predicate Blocked(c: Cpu, locked: set<Lock>) {
    c.control.Locking? && !c.control.phase.Ask? && c.control.lock in locked
  }

  /** Processor i spins on a lock that processor j is inside of. */
  predicate WaitsFor(s: System, i: nat, j: nat)
    requires i < |s.cpus| && j < |s.cpus|
  {
    Blocked(s.cpus[i], s.locked) && s.cpus[i].control.lock in Holding(s.cpus[j].stack)
  }

  lemma {:induction false} OpenHoldsNothing(st: Stack)
    requires Open(st) && RestInOrder(st)
    ensures Holding(st) == {}
  {
    match st {
      case Call(_, rest) => OpenHoldsNothing(rest);
      case _ =>
    }
  }

  /** Every lock a processor is inside of ranks at most as high as the innermost one. */
  lemma {:induction false} HeldBelowTop(st: Stack, l: Lock)
    requires Frames(st) && RestInOrder(st) && l in Holding(st)
    ensures Rank(l) <= Top(st)
  {
    match st {
      case Held(lock, _, _, _, _, rest) =>
        if l != lock {
          HeldBelowTop(rest, l);
        }
      case Interrupted(control, rest) =>
        FlagOnMeansOpen(control, rest);
        OpenHoldsNothing(rest);
      case _ =>
    }
  }

  /** A processor waits only for locks that rank above all it is inside of. */
  lemma WaitsAbove(c: Cpu, l: Lock)
    requires CpuSafe(c) && c.control.Locking? && l in Holding(c.stack)
    ensures Rank(l) < Rank(c.control.lock)
  {
    FlaggedFrames(c.flag, c.control, c.stack);
    HeldBelowTop(c.stack, l);
  }

  ghost predicate WaitPath(s: System, path: seq<nat>) {
    && (forall k | 0 <= k < |path| :: path[k] < |s.cpus|)
    && (forall k | 0 < k < |path| :: WaitsFor(s, path[k - 1], path[k]))
  }

  lemma PathFront(s: System, path: seq<nat>)
    requires WaitPath(s, path) && |path| > 1
    ensures WaitPath(s, path[..|path| - 1])
  {
    var front := path[..|path| - 1];
    forall k | 0 < k < |front| ensures WaitsFor(s, front[k - 1], front[k]) {
      assert WaitsFor(s, path[k - 1], path[k]);
    }
  }

  lemma {:induction false} RanksRise(s: System, path: seq<nat>)
    requires Safe(s) && WaitPath(s, path) && |path| >= 2 && Blocked(s.cpus[path[|path| - 1]], s.locked)
    ensures Blocked(s.cpus[path[0]], s.locked)
    ensures Rank(s.cpus[path[0]].control.lock) < Rank(s.cpus[path[|path| - 1]].control.lock)
    decreases |path|
  {
    var n := |path| - 1;
    assert WaitsFor(s, path[n - 1], path[n]);
    WaitsAbove(s.cpus[path[n]], s.cpus[path[n - 1]].control.lock);
    if n > 1 {
      PathFront(s, path);
      RanksRise(s, path[..n]);
    }
  }

  /** The wait-for relation has no cycle, of any length. */
  lemma NoWaitCycle(s: System, path: seq<nat>)
    requires Safe(s) && WaitPath(s, path) && |path| >= 2
    ensures path[0] != path[|path| - 1]
  {
    if path[0] == path[|path| - 1] {
      assert WaitsFor(s, path[0], path[1]);
      RanksRise(s, path);
    }
  }

  // ---- Progress ----------------------------------------------------------------------

  /** A processor with something to do that is not spinning on a taken lock. */
  predicate Moving(c: Cpu, locked: set<Lock>) {
    !c.control.Idle? && !c.control.Halted? && !Blocked(c, locked)
  }

  ghost predicate NoneHalted(s: System) {
    forall i | 0 <= i < |s.cpus| :: !s.cpus[i].control.Halted?
  }

  /** From any processor with work the chain of waiting ends at one that can move. */
  lemma {:induction false} SomeoneMoves(s: System, i: nat) returns (j: nat)
    requires Safe(s) && NoneHalted(s) && i < |s.cpus| && !s.cpus[i].control.Idle?
    ensures j < |s.cpus| && Moving(s.cpus[j], s.locked)
    decreases if s.cpus[i].control.Locking? then RANKS - Rank(s.cpus[i].control.lock) else RANKS + 1
  {
    j := i;
    if Blocked(s.cpus[i], s.locked) {
      var l := s.cpus[i].control.lock;
      assert HasOwner(s, l);
      var k: nat :| k < |s.cpus| && l in Holding(s.cpus[k].stack);
      j := k;
      if Blocked(s.cpus[k], s.locked) {
        WaitsAbove(s.cpus[k], l);
        j := SomeoneMoves(s, k);
      }
    }
  }

  /** How much a piece of code has still to do. */
  function Size(p: Prog): nat {
    match p
    case Return => 1
    case Halt => 2
    case Mask(next) => 1 + Size(next)
    case Do(_, next) => 1 + Size(next)
    case Enter(_, _, body, next) => 6 + Size(body) + Size(next)
  }

  function ControlWork(control: Control): nat {
    match control
    case Idle => 0
    case Halted => 0
    case Run(p) => Size(p)
    case Locking(phase, _, _, _, body, next) =>
      Size(body) + Size(next) + if phase.Ask? then 5 else if phase.Load? then 4 else 3
    case Leave(_, _, next) => 1 + Size(next)
  }

  function StackWork(st: Stack): nat {
    match st
    case Empty => 0
    case Call(_, rest) => StackWork(rest)
    case Held(_, _, _, _, next, rest) => 1 + Size(next) + StackWork(rest)
    case Interrupted(control, rest) => ControlWork(control) + StackWork(rest)
  }

  function Work(c: Cpu): nat {
    ControlWork(c.control) + StackWork(c.stack)
  }

  /** A step of a moving processor is never in vain. */
  lemma MovingWorks(c: Cpu, locked: set<Lock>)
    requires CpuSafe(c) && Moving(c, locked)
    ensures Work(Step(c, locked).0) < Work(c)
  {
  }

  function TotalWork(cpus: seq<Cpu>): nat {
    if cpus == [] then 0 else Work(cpus[0]) + TotalWork(cpus[1..])
  }

  lemma {:induction false} LessWork(cpus: seq<Cpu>, i: nat, c: Cpu)
    requires i < |cpus| && Work(c) < Work(cpus[i])
    ensures TotalWork(cpus[i := c]) < TotalWork(cpus)
  {
    if i == 0 {
      assert cpus[i := c][1..] == cpus[1..];
    } else {
      assert cpus[i := c][1..] == cpus[1..][i - 1 := c];
      LessWork(cpus[1..], i - 1, c);
    }
  }

  ghost predicate AllIdle(s: System) {
    forall i | 0 <= i < |s.cpus| :: s.cpus[i].control.Idle?
  }

  ghost predicate OnlyTicks(actions: seq<Action>) {
    forall i | 0 <= i < |actions| :: actions[i].event.Tick?
  }

  lemma {:induction false} ActAllConcat(s: System, first: seq<Action>, later: seq<Action>)
    ensures ActAll(s, first + later) == ActAll(ActAll(s, first), later)
    decreases |later|
  {
    if later == [] {
      assert first + later == first;
    } else {
      var last := |later| - 1;
      assert (first + later)[..|first + later| - 1] == first + later[..last];
      ActAllConcat(s, first, later[..last]);
    }
  }

  /** In a safe state with work left, some step leaves less. */
  lemma UsefulStep(s: System) returns (a: Action)
    requires Safe(s) && NoneHalted(s) && !AllIdle(s)
    ensures a.event.Tick? && Safe(Act(s, a)) && TotalWork(Act(s, a).cpus) < TotalWork(s.cpus)
  {
    var i: nat :| i < |s.cpus| && !s.cpus[i].control.Idle?;
    var j := SomeoneMoves(s, i);
    a := Action(j, Tick);
    ActKeepsSafe(s, a);
    MovingWorks(s.cpus[j], s.locked);
    LessWork(s.cpus, j, Step(s.cpus[j], s.locked).0);
  }

  lemma ActOne(s: System, a: Action)
    ensures ActAll(s, [a]) == Act(s, a)
  {
    assert [a][..0] == [];
  }

  /** From every safe state the processors can finish all they have begun, unless one of
      them panics on the way. */
  lemma {:induction false} CanFinish(s: System) returns (actions: seq<Action>)
    requires Safe(s) && NoneHalted(s)
    ensures OnlyTicks(actions)
    ensures AllIdle(ActAll(s, actions)) || !NoneHalted(ActAll(s, actions))
    decreases TotalWork(s.cpus)
  {
    actions := [];
    if !AllIdle(s) {
      var a := UsefulStep(s);
      ActOne(s, a);
      actions := [a];
      if NoneHalted(Act(s, a)) {
        var more := CanFinish(Act(s, a));
        ActAllConcat(s, [a], more);
        actions := [a] + more;
      }
    }
  }

  /** Deadlock freedom, over every run of fitting programs on any number of processors: no
      processors wait for each other in a cycle, and as long as none has panicked, one with
      work can move and a schedule completes all work begun. */
  lemma DeadlockFree(flags: seq<bool>, actions: seq<Action>)
    requires AllFit(actions)
    ensures var s := ActAll(Start(flags), actions);
            && (forall path | WaitPath(s, path) && |path| >= 2 :: path[0] != path[|path| - 1])
            && (NoneHalted(s) && !AllIdle(s) ==> exists j: nat | j < |s.cpus| :: Moving(s.cpus[j], s.locked))
            && (NoneHalted(s) ==>
                  exists more :: OnlyTicks(more) && (AllIdle(ActAll(s, more)) || !NoneHalted(ActAll(s, more))))
  {
    AlwaysSafe(flags, actions);
    var s := ActAll(Start(flags), actions);
    forall path | WaitPath(s, path) && |path| >= 2 ensures path[0] != path[|path| - 1] {
      NoWaitCycle(s, path);
    }
    if NoneHalted(s) {
      var more := CanFinish(s);
      if !AllIdle(s) {
        var i: nat :| i < |s.cpus| && !s.cpus[i].control.Idle?;
        var j := SomeoneMoves(s, i);
      }
    }
  }

  // ---- Why interrupts must stop ------------------------------------------------------

  /** One more event on the only processor. */
  lemma Extend(s: System, actions: seq<Action>, c: Cpu, locked: set<Lock>, e: Event)
    requires ActAll(s, actions) == System([c], locked)
    ensures var (d, after) := Happen(c, locked, e); ActAll(s, actions + [Action(0, e)]) == System([d], after)
  {
    assert (actions + [Action(0, e)])[..|actions|] == actions;
    assert [c][0 := Happen(c, locked, e).0] == [Happen(c, locked, e).0];
  }

  lemma AsksUnmasked(l: Lock) returns (actions: seq<Action>)
    ensures var p := Enter(l, false, Return, Return);
            && (forall i | 0 <= i < |actions| :: actions[i].event in {Begin(p), Tick})
            && ActAll(Start([true]), actions) ==
                 System([Cpu(true, Locking(Ask, l, false, true, Return, Return), Call(true, Empty))], {})
  {
    var s, p, st := Start([true]), Enter(l, false, Return, Return), Call(true, Empty);
    assert s.cpus == [Cpu(true, Idle, Empty)];
    actions := [];
    Extend(s, actions, Cpu(true, Idle, Empty), {}, Begin(p));
    actions := actions + [Action(0, Begin(p))];
    Extend(s, actions, Cpu(true, Run(p), st), {}, Tick);
    actions := actions + [Action(0, Tick)];
  }

  /** A processor takes a lock without stopping interrupts. */
  lemma TakesUnmasked(l: Lock) returns (actions: seq<Action>)
    ensures var p := Enter(l, false, Return, Return);
            && (forall i | 0 <= i < |actions| :: actions[i].event in {Begin(p), Tick})
            && ActAll(Start([true]), actions) ==
                 System([Cpu(true, Run(Return), Held(l, false, false, true, Return, Call(true, Empty)))], {l})
  {
    var s, st := Start([true]), Call(true, Empty);
    actions := AsksUnmasked(l);
    Extend(s, actions, Cpu(true, Locking(Ask, l, false, true, Return, Return), st), {}, Tick);
    actions := actions + [Action(0, Tick)];
    Extend(s, actions, Cpu(true, Locking(Load, l, false, true, Return, Return), st), {}, Tick);
    actions := actions + [Action(0, Tick)];
    Extend(s, actions, Cpu(true, Locking(Swap, l, false, true, Return, Return), st), {}, Tick);
    actions := actions + [Action(0, Tick)];
  }

  /** A run of a program that takes a lock unmasked, with a handler that takes the same lock,
      after which the only processor spins and nothing can happen any more. */
  ghost predicate Hangs(l: Lock, actions: seq<Action>) {
    var p := Enter(l, false, Return, Return);
    var h := Enter(l, true, Return, Return);
    var s := ActAll(Start([true]), actions);
    && (forall i | 0 <= i < |actions| :: actions[i].event in {Begin(p), Interrupt(h), Tick})
    && |s.cpus| == 1 && Blocked(s.cpus[0], s.locked) && Stuck(s)
  }

  /** The order alone is not enough: if a lock could be taken without stopping interrupts, a
      handler that takes the same lock would hang its processor for good. */
  lemma UnmaskedLockHangs(l: Lock)
    ensures exists actions :: Hangs(l, actions)
  {
    var actions := HangingRun(l);
  }

  lemma HangingRun(l: Lock) returns (actions: seq<Action>)
    ensures Hangs(l, actions)
  {
    var s, h := Start([true]), Enter(l, true, Return, Return);
    var hold := Held(l, false, false, true, Return, Call(true, Empty));
    var st := Interrupted(Run(Return), hold);
    actions := TakesUnmasked(l);
    Extend(s, actions, Cpu(true, Run(Return), hold), {l}, Interrupt(h));
    actions := actions + [Action(0, Interrupt(h))];
    Extend(s, actions, Cpu(false, Run(h), st), {l}, Tick);
    actions := actions + [Action(0, Tick)];
    Extend(s, actions, Cpu(false, Locking(Ask, l, true, false, Return, Return), st), {l}, Tick);
    actions := actions + [Action(0, Tick)];
    SpinsForever(System([Cpu(false, Locking(Load, l, true, false, Return, Return), st)], {l}));
  }

  lemma SpinsForever(s: System)
    requires |s.cpus| == 1 && !s.cpus[0].flag && Blocked(s.cpus[0], s.locked) && s.cpus[0].control.phase.Load?
    ensures Stuck(s)
  {
    forall a ensures Act(s, a) == s {
    }
  }

  /** No event changes anything any more. */
  ghost predicate Stuck(s: System) {
    forall a :: Act(s, a) == s
  }
}

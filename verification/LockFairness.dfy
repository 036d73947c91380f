/** Every fair schedule finishes: once no new calls and interrupts arrive, processors that are
    each given turns complete all work begun. Only a failed compare-and-swap adds work, and
    each of those is paid for by the processor that got the lock. */
module LockFairness {
  import opened Spinlocks
  import opened LockOrder

  // ---- A potential -------------------------------------------------------------------

  /** The work of some code when every acquisition of a lock is charged k. */
  function Cost(p: Prog, k: nat): (c: nat)
    ensures c > 0
  {
    match p
    case Return => 1
    case Halt => 2
    case Mask(next) => 1 + Cost(next, k)
    case Do(_, next) => 1 + Cost(next, k)
    case Enter(_, _, body, next) => 6 + k + Cost(body, k) + Cost(next, k)
  }

  /** Work left where a processor is; a swap on a lock that has been taken since the load is
      going to fail, and counts for more than the load. */
  function Here(control: Control, k: nat, locked: set<Lock>): nat {
    match control
    case Idle => 0
    case Halted => 0
    case Run(p) => Cost(p, k)
    case Locking(phase, lock, _, _, body, next) =>
      Cost(body, k) + Cost(next, k) + k
      + if phase.Ask? then 5 else if phase.Load? then 3 else if lock in locked then 4 else 2
    case Leave(_, _, next) => 1 + Cost(next, k)
  }

  /** The same for code that was interrupted; the swap is taken to fail. */
  function Saved(control: Control, k: nat): nat {
    if control.Locking? then Here(control, k, {control.lock}) else Here(control, k, {})
  }

  function Below(st: Stack, k: nat): nat {
    match st
    case Empty => 0
    case Call(_, rest) => Below(rest, k)
    case Held(_, _, _, _, next, rest) => 1 + Cost(next, k) + Below(rest, k)
    case Interrupted(control, rest) => Saved(control, k) + Below(rest, k)
  }

  function Value(c: Cpu, k: nat, locked: set<Lock>): nat {
    Here(c.control, k, locked) + Below(c.stack, k)
  }

  function Total(cpus: seq<Cpu>, k: nat, locked: set<Lock>): nat {
    if cpus == [] then 0 else Value(cpus[0], k, locked) + Total(cpus[1..], k, locked)
  }

  /** At most as many turns as this change anything. */
  function Potential(s: System): nat {
    Total(s.cpus, 2 * |s.cpus|, s.locked)
  }

  // ---- One turn ----------------------------------------------------------------------

  /** A turn of a moving processor: it takes a lock and works off more than k, or takes none
      and works off something, both counted with the locks as they are afterwards. */
  lemma StepPays(c: Cpu, k: nat, locked: set<Lock>)
    requires CpuSafe(c) && Moving(c, locked)
    ensures var (d, after) := Step(c, locked);
            || (after <= locked && Value(d, k, after) < Value(c, k, after))
            || ((exists l :: after == locked + {l}) && Value(d, k, after) + k < Value(c, k, after))
  {
    var (d, after) := Step(c, locked);
    if c.control == Run(Return) && c.stack.Interrupted? {
      SavedIsMore(c.stack.control, k, locked);
    }
    if c.control.Locking? && c.control.phase.Swap? {
      assert after == locked + {c.control.lock};
    }
  }

  lemma SavedIsMore(control: Control, k: nat, locked: set<Lock>)
    ensures Here(control, k, locked) <= Saved(control, k)
  {
  }

  /** Releasing a lock costs nobody anything; taking one costs each processor at most 2. */
  lemma {:induction false} OthersPay(cpus: seq<Cpu>, k: nat, locked: set<Lock>, after: set<Lock>)
    ensures Total(cpus, k, after) <= Total(cpus, k, locked) + 2 * |cpus|
    ensures after <= locked ==> Total(cpus, k, after) <= Total(cpus, k, locked)
  {
    if cpus != [] {
      OthersPay(cpus[1..], k, locked, after);
    }
  }

  lemma {:induction false} Replaced(cpus: seq<Cpu>, i: nat, c: Cpu, k: nat, locked: set<Lock>)
    requires i < |cpus|
    ensures Total(cpus[i := c], k, locked) == Total(cpus, k, locked) - Value(cpus[i], k, locked) + Value(c, k, locked)
    ensures Value(cpus[i], k, locked) <= Total(cpus, k, locked)
  {
    if i == 0 {
      assert cpus[i := c][1..] == cpus[1..];
    } else {
      assert cpus[i := c][1..] == cpus[1..][i - 1 := c];
      Replaced(cpus[1..], i - 1, c, k, locked);
    }
  }

  lemma MovingLowers(s: System, i: nat)
    requires Safe(s) && i < |s.cpus| && Moving(s.cpus[i], s.locked)
    ensures Potential(Act(s, Action(i, Tick))) < Potential(s)
  {
    var k := 2 * |s.cpus|;
    var (d, after) := Step(s.cpus[i], s.locked);
    StepPays(s.cpus[i], k, s.locked);
    OthersPay(s.cpus, k, s.locked, after);
    Replaced(s.cpus, i, d, k, after);
  }

  /** A processor that cannot move does nothing with its turn. */
  lemma OthersStay(c: Cpu, locked: set<Lock>)
    requires !Moving(c, locked)
    ensures Step(c, locked) == (c, locked) || (c.control.Locking? && c.control.phase.Swap? && c.control.lock in locked)
  {
  }

  /** A failed swap. */
  lemma FailedSwapLowers(s: System, i: nat)
    requires i < |s.cpus| && s.cpus[i].control.Locking? && s.cpus[i].control.phase.Swap?
    requires s.cpus[i].control.lock in s.locked
    ensures Potential(Act(s, Action(i, Tick))) < Potential(s)
  {
    Replaced(s.cpus, i, Step(s.cpus[i], s.locked).0, 2 * |s.cpus|, s.locked);
  }

  /** Every turn lowers the potential or changes nothing. */
  lemma TickLowersOrStays(s: System, a: Action)
    requires Safe(s) && a.event.Tick?
    ensures Act(s, a) == s || Potential(Act(s, a)) < Potential(s)
  {
    if a.cpu < |s.cpus| {
      var c := s.cpus[a.cpu];
      if Moving(c, s.locked) {
        MovingLowers(s, a.cpu);
      } else {
        OthersStay(c, s.locked);
        if Step(c, s.locked) == (c, s.locked) {
          assert s.cpus[a.cpu := c] == s.cpus;
        } else {
          FailedSwapLowers(s, a.cpu);
        }
      }
    }
  }

  /** So do any number of turns. */
  lemma {:induction false} TicksLowerOrStay(s: System, actions: seq<Action>)
    requires Safe(s) && OnlyTicks(actions)
    ensures Safe(ActAll(s, actions)) && |ActAll(s, actions).cpus| == |s.cpus|
    ensures ActAll(s, actions) == s || Potential(ActAll(s, actions)) < Potential(s)
    decreases |actions|
  {
    if actions != [] {
      var last := |actions| - 1;
      TicksLowerOrStay(s, actions[..last]);
      var t := ActAll(s, actions[..last]);
      ActKeepsSafe(t, actions[last]);
      TickLowersOrStays(t, actions[last]);
    }
  }

  // ---- Fair schedules ----------------------------------------------------------------

  /** Turns among which every processor has one. */
  ghost predicate Round(actions: seq<Action>, n: nat) {
    OnlyTicks(actions) && forall i: nat | i < n :: HasTurn(actions, i)
  }

  ghost predicate HasTurn(actions: seq<Action>, i: nat) {
    exists t | 0 <= t < |actions| :: actions[t].cpu == i
  }

  /** All work is done, or a processor has panicked. */
  ghost predicate Over(s: System) {
    AllIdle(s) || !NoneHalted(s)
  }

  /** A round in which something is left to do does some of it. */
  lemma RoundLowers(s: System, round: seq<Action>)
    requires Safe(s) && Round(round, |s.cpus|) && !Over(s)
    ensures Potential(ActAll(s, round)) < Potential(s)
  {
    var i: nat :| i < |s.cpus| && !s.cpus[i].control.Idle?;
    var j := SomeoneMoves(s, i);
    assert HasTurn(round, j);
    var t: nat :| t < |round| && round[t].cpu == j;
    var first, rest := round[..t], round[t + 1..];
    TicksLowerOrStay(s, first);
    var mid := ActAll(s, first);
    ActKeepsSafe(mid, round[t]);
    TickLowersOrStays(mid, round[t]);
    if mid == s {
      assert round[t] == Action(j, Tick);
      MovingLowers(s, j);
    }
    TicksLowerOrStay(Act(mid, round[t]), rest);
    InParts(s, round, t);
  }

  lemma InParts(s: System, actions: seq<Action>, t: nat)
    requires t < |actions|
    ensures ActAll(s, actions) == ActAll(Act(ActAll(s, actions[..t]), actions[t]), actions[t + 1..])
  {
    var a := actions[t];
    assert actions == actions[..t] + ([a] + actions[t + 1..]);
    ActAllConcat(s, actions[..t], [a] + actions[t + 1..]);
    ActAllConcat(ActAll(s, actions[..t]), [a], actions[t + 1..]);
    ActOne(ActAll(s, actions[..t]), a);
  }

  /** What is over stays over. */
  lemma {:induction false} OverStays(s: System, actions: seq<Action>)
    requires Over(s) && OnlyTicks(actions)
    ensures Over(ActAll(s, actions))
    decreases |actions|
  {
    if actions != [] {
      var last := |actions| - 1;
      OverStays(s, actions[..last]);
      OverStaysOnce(ActAll(s, actions[..last]), actions[last]);
    }
  }

  lemma OverStaysOnce(s: System, a: Action)
    requires Over(s) && a.event.Tick?
    ensures Over(Act(s, a))
  {
    if !NoneHalted(s) {
      var i :| 0 <= i < |s.cpus| && s.cpus[i].control.Halted?;
      assert Act(s, a).cpus[i].control.Halted?;
    }
  }

  function Flatten(rounds: seq<seq<Action>>): seq<Action> {
    if rounds == [] then [] else rounds[0] + Flatten(rounds[1..])
  }

  ghost predicate Rounds(rounds: seq<seq<Action>>, n: nat) {
    forall i | 0 <= i < |rounds| :: Round(rounds[i], n)
  }

  lemma {:induction false} FlattenTicks(rounds: seq<seq<Action>>, n: nat)
    requires Rounds(rounds, n)
    ensures OnlyTicks(Flatten(rounds))
  {
    if rounds != [] {
      assert forall i | 0 <= i < |rounds[1..]| :: rounds[1..][i] == rounds[i + 1];
      assert Round(rounds[0], n);
      FlattenTicks(rounds[1..], n);
    }
  }

  /** Whatever the order of turns, after as many rounds as the potential says, and one, all
      work is done or a processor has panicked. Every fair schedule is made of such rounds. */
  lemma {:induction false} FairFinishes(s: System, rounds: seq<seq<Action>>)
    requires Safe(s) && Rounds(rounds, |s.cpus|) && |rounds| > Potential(s)
    ensures Over(ActAll(s, Flatten(rounds)))
    decreases |rounds|
  {
    var first, rest := rounds[0], rounds[1..];
    assert Round(first, |s.cpus|);
    assert forall i | 0 <= i < |rest| :: rest[i] == rounds[i + 1];
    FlattenTicks(rounds, |s.cpus|);
    if Over(s) {
      OverStays(s, Flatten(rounds));
    } else {
      TicksLowerOrStay(s, first);
      RoundLowers(s, first);
      FairFinishes(ActAll(s, first), rest);
      ActAllConcat(s, first, Flatten(rest));
    }
  }

  /** From every reachable state every fair schedule finishes. */
  lemma FairCompletion(flags: seq<bool>, actions: seq<Action>, rounds: seq<seq<Action>>)
    requires AllFit(actions)
    requires var s := ActAll(Start(flags), actions); Rounds(rounds, |s.cpus|) && |rounds| > Potential(s)
    ensures Over(ActAll(ActAll(Start(flags), actions), Flatten(rounds)))
  {
    AlwaysSafe(flags, actions);
    FairFinishes(ActAll(Start(flags), actions), rounds);
  }
}

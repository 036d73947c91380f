/** Spinlocks on any number of processors: each processor's interrupt flag, the atomic
    steps of taking and releasing a scoped lock, and interrupts delivered between any two
    steps while the flag is on. */
module Spinlocks {

  datatype Lock = Page(space: nat) | Allocator | Log | Serial | Framebuffer | IoApic(id: nat) | Acpi

  /** Work on something that processors share: the tables of an address space, the allocator's
      bitmaps, a line of the log, the serial port, the screen, the registers of an I/O APIC, and
      the ACPI command port. */
  datatype Job = Tables(space: nat) | Bitmaps | Line | Port | Screen | Registers(id: nat) | Command

  /** What a piece of kernel code does with locks, the interrupt flag and shared things. Enter
      holds a lock for the time of its body, Do works on something shared, Mask is `cli`, and
      Halt is the endless loop of a panic. */
  datatype Prog =
    | Return
    | Halt
    | Mask(next: Prog)
    | Do(job: Job, next: Prog)
    | Enter(lock: Lock, stop: bool, body: Prog, next: Prog)

  /** Inside Lock: about to mask interrupts, about to load, about to compare and swap. */
  datatype Phase = Ask | Load | Swap

  /** What a processor is about to do. `had` and `entry` are the interrupt flag as Lock found
      it; Leave is the rest of Unlock after its store. */
  datatype Control =
    | Idle
    | Halted
    | Run(prog: Prog)
    | Locking(phase: Phase, lock: Lock, stop: bool, had: bool, body: Prog, next: Prog)
    | Leave(reenable: bool, entry: bool, next: Prog)

  /** What a processor returns to: its idle loop, the end of a scoped lock's scope, or the
      code an interrupt broke into. */
  datatype Stack =
    | Empty
    | Call(entry: bool, rest: Stack)
    | Held(lock: Lock, stop: bool, reenable: bool, entry: bool, next: Prog, rest: Stack)
    | Interrupted(control: Control, rest: Stack)

  datatype Cpu = Cpu(flag: bool, control: Control, stack: Stack)

  /** The processors, and the locks whose `_locked` is true. */
  datatype System = System(cpus: seq<Cpu>, locked: set<Lock>)

  /** What happens to a processor: it begins a call, an interrupt arrives, or it takes its
      next step. */
  datatype Event = Begin(prog: Prog) | Interrupt(handler: Prog) | Tick

  datatype Action = Action(cpu: nat, event: Event)

  /** The next atomic step of a processor. */
  function Step(c: Cpu, locked: set<Lock>): (Cpu, set<Lock>) {
    match c.control
    case Idle => (c, locked)
    case Halted => (c, locked)
    case Run(Return) => StepReturn(c, locked)
    case Run(Halt) => (c.(control := Halted), locked)
    case Run(Mask(next)) => (c.(flag := false, control := Run(next)), locked)
    case Run(Do(_, next)) => (c.(control := Run(next)), locked)
    case Run(Enter(lock, stop, body, next)) =>
      (c.(control := Locking(Ask, lock, stop, c.flag, body, next)), locked)
    case Locking(Ask, lock, stop, had, body, next) =>
      (c.(flag := c.flag && !stop, control := Locking(Load, lock, stop, had, body, next)), locked)
    case Locking(Load, lock, stop, had, body, next) =>
      if lock in locked then (c, locked)
      else (c.(control := Locking(Swap, lock, stop, had, body, next)), locked)
    case Locking(Swap, lock, stop, had, body, next) =>
      if lock in locked then (c.(control := Locking(Load, lock, stop, had, body, next)), locked)
      else (c.(control := Run(body), stack := Held(lock, stop, stop && had, had, next, c.stack)), locked + {lock})
    case Leave(reenable, _, next) => (c.(flag := c.flag || reenable, control := Run(next)), locked)
  }

  /** The end of a piece of code: back to the idle loop, the store that releases a lock, or
      the return from an interrupt. */
  function StepReturn(c: Cpu, locked: set<Lock>): (Cpu, set<Lock>) {
    match c.stack
    case Empty => (c, locked)
    case Call(_, rest) => (c.(control := Idle, stack := rest), locked)
    case Held(lock, _, reenable, entry, next, rest) =>
      (c.(control := Leave(reenable, entry, next), stack := rest), locked - {lock})
    case Interrupted(control, rest) => (Cpu(true, control, rest), locked)
  }

  /** Calls begin on idle processors, interrupts need the flag; otherwise nothing happens. */
  function Happen(c: Cpu, locked: set<Lock>, e: Event): (Cpu, set<Lock>) {
    match e
    case Begin(p) =>
      if c.control.Idle? then (c.(control := Run(p), stack := Call(c.flag, c.stack)), locked) else (c, locked)
    case Interrupt(p) =>
      if c.flag then (Cpu(false, Run(p), Interrupted(c.control, c.stack)), locked) else (c, locked)
    case Tick => Step(c, locked)
  }

  function Act(s: System, a: Action): System {
    if a.cpu < |s.cpus| then
      var (c, locked) := Happen(s.cpus[a.cpu], s.locked, a.event);
      System(s.cpus[a.cpu := c], locked)
    else s
  }

  function ActAll(s: System, actions: seq<Action>): System
    decreases |actions|
  {
    if actions == [] then s else Act(ActAll(s, actions[..|actions| - 1]), actions[|actions| - 1])
  }

  /** Every processor idle, its interrupt flag as given, and every lock open. */
  function Start(flags: seq<bool>): System {
    System(seq(|flags|, i requires 0 <= i < |flags| => Cpu(flags[i], Idle, Empty)), {})
  }

  // ---- Mutual exclusion --------------------------------------------------------------

  /** The locks a processor is inside of. */
  function Holding(st: Stack): set<Lock> {
    match st
    case Empty => {}
    case Call(_, rest) => Holding(rest)
    case Held(lock, _, _, _, _, rest) => {lock} + Holding(rest)
    case Interrupted(_, rest) => Holding(rest)
  }

  /** No lock is held twice by one processor. */
  predicate Once(st: Stack) {
    match st
    case Empty => true
    case Call(_, rest) => Once(rest)
    case Held(lock, _, _, _, _, rest) => lock !in Holding(rest) && Once(rest)
    case Interrupted(_, rest) => Once(rest)
  }

  /** A lock reads as locked exactly when a processor is inside it, and no two are. */
  ghost predicate Exclusive(s: System) {
    && (forall i | 0 <= i < |s.cpus| :: Once(s.cpus[i].stack) && Holding(s.cpus[i].stack) <= s.locked)
    && (forall i, j | 0 <= i < j < |s.cpus| :: Holding(s.cpus[i].stack) !! Holding(s.cpus[j].stack))
    && (forall l | l in s.locked :: HasOwner(s, l))
  }

  ghost predicate HasOwner(s: System, l: Lock) {
    exists i | 0 <= i < |s.cpus| :: l in Holding(s.cpus[i].stack)
  }

  /** What one event does to the locks a processor holds and to the locked set: nothing, or
      one open lock is taken, or one held lock is released. */
  ghost predicate Exchange(before: Stack, locked: set<Lock>, after: Stack, locked': set<Lock>) {
    || (Holding(after) == Holding(before) && locked' == locked)
    || (exists l | l !in locked :: Holding(after) == Holding(before) + {l} && locked' == locked + {l})
    || (exists l | l in Holding(before) :: Holding(after) == Holding(before) - {l} && locked' == locked - {l})
  }

  lemma EventExchanges(c: Cpu, locked: set<Lock>, e: Event)
    requires Once(c.stack) && Holding(c.stack) <= locked
    ensures var (d, locked') := Happen(c, locked, e);
            Once(d.stack) && Exchange(c.stack, locked, d.stack, locked')
  {
    var (d, locked') := Happen(c, locked, e);
    if e.Tick? && c.control == Run(Return) && c.stack.Held? {
      assert c.stack.lock in Holding(c.stack) && Holding(d.stack) == Holding(c.stack) - {c.stack.lock};
    }
    if e.Tick? && c.control.Locking? && c.control.phase.Swap? && c.control.lock !in locked {
      assert Holding(d.stack) == Holding(c.stack) + {c.control.lock};
    }
  }

  lemma ActKeepsExclusive(s: System, a: Action)
    requires Exclusive(s)
    ensures Exclusive(Act(s, a))
  {
    if a.cpu < |s.cpus| {
      EventExchanges(s.cpus[a.cpu], s.locked, a.event);
      var t := Act(s, a);
      forall l | l in t.locked ensures HasOwner(t, l) {
        if l in s.locked {
          var i :| 0 <= i < |s.cpus| && l in Holding(s.cpus[i].stack);
          assert l in Holding(t.cpus[i].stack);
        } else {
          assert l in Holding(t.cpus[a.cpu].stack);
        }
      }
    }
  }

  /** Mutual exclusion in every state of every run of any programs, with or without
      interrupt masking. */
  lemma {:induction false} MutualExclusion(flags: seq<bool>, actions: seq<Action>)
    ensures Exclusive(ActAll(Start(flags), actions))
    decreases |actions|
  {
    if actions != [] {
      MutualExclusion(flags, actions[..|actions| - 1]);
      ActKeepsExclusive(ActAll(Start(flags), actions[..|actions| - 1]), actions[|actions| - 1]);
    }
  }

  // ---- The interrupt flag ------------------------------------------------------------

  /** Panics mask interrupts and never return: below a Mask (`masked`) code ends in Halt,
      and only there. */
  predicate Sound(p: Prog, masked: bool) {
    match p
    case Return => !masked
    case Halt => masked
    case Mask(next) => Sound(next, true)
    case Do(_, next) => Sound(next, masked)
    case Enter(_, _, body, next) => Sound(body, false) && Sound(next, masked)
  }

  /** The flag that code runs with, given what it will return to. */
  function Base(st: Stack): bool {
    match st
    case Empty => false
    case Call(entry, _) => entry
    case Held(_, stop, _, entry, _, _) => entry && !stop
    case Interrupted(_, _) => false
  }

  /** Code about to run as p with this flag is either returning code with its base flag, or
      a panic with the flag off. */
  predicate Level(p: Prog, flag: bool, st: Stack)
    decreases st, 1
  {
    && !st.Empty? && Frames(st)
    && ((Sound(p, false) && flag == Base(st)) || (Sound(p, true) && !flag))
  }

  predicate Frames(st: Stack)
    decreases st, 0
  {
    match st
    case Empty => true
    case Call(_, rest) => rest.Empty?
    case Held(_, stop, reenable, entry, next, rest) => reenable == (stop && entry) && Level(next, entry, rest)
    case Interrupted(control, rest) => Flagged(true, control, rest)
  }

  /** The flag discipline of one processor. */
  predicate Flagged(flag: bool, control: Control, st: Stack)
    decreases st, 2
  {
    match control
    case Idle => st.Empty?
    case Halted => !flag && !st.Empty? && Frames(st)
    case Run(p) => Level(p, flag, st)
    case Locking(phase, _, stop, had, body, next) =>
      && flag == (had && (phase.Ask? || !stop))
      && Sound(body, false) && Level(next, had, st)
    case Leave(reenable, entry, next) => (flag || reenable) == entry && Level(next, entry, st)
  }

  /** Programs that may run return, or panic. */
  predicate EventAllowed(e: Event) {
    match e
    case Begin(p) => Sound(p, false)
    case Interrupt(p) => Sound(p, false)
    case Tick => true
  }

  lemma FlaggedFrames(flag: bool, control: Control, st: Stack)
    requires Flagged(flag, control, st)
    ensures Frames(st)
  {
    assert !control.Idle? && !control.Halted? ==> exists p, f :: Level(p, f, st);
  }

  lemma EventKeepsFlagged(c: Cpu, locked: set<Lock>, e: Event)
    requires Flagged(c.flag, c.control, c.stack) && EventAllowed(e)
    ensures var (d, _) := Happen(c, locked, e); Flagged(d.flag, d.control, d.stack)
  {
    var (d, _) := Happen(c, locked, e);
    FlaggedFrames(c.flag, c.control, c.stack);
    if e.Interrupt? && c.flag {
      assert Frames(d.stack);
      assert Level(e.handler, false, d.stack);
    } else if e.Tick? && c.control == Run(Return) {
      ReturnKeepsFlagged(c, locked);
    } else if d.control.Run? && c.control.Locking? {
      assert Frames(d.stack);
      assert Level(d.control.prog, d.flag, d.stack);
    }
  }

  lemma ReturnKeepsFlagged(c: Cpu, locked: set<Lock>)
    requires c.control == Run(Return) && Level(Return, c.flag, c.stack)
    ensures var (d, _) := StepReturn(c, locked); Flagged(d.flag, d.control, d.stack)
  {
    assert c.flag == Base(c.stack);
    match c.stack {
      case Held(_, _, _, _, next, rest) => assert Level(next, c.stack.entry, rest);
      case Interrupted(control, rest) => assert Flagged(true, control, rest);
      case _ =>
    }
  }

  ghost predicate AllFlagged(s: System) {
    forall i | 0 <= i < |s.cpus| :: Flagged(s.cpus[i].flag, s.cpus[i].control, s.cpus[i].stack)
  }

  ghost predicate AllAllowed(actions: seq<Action>) {
    forall i | 0 <= i < |actions| :: EventAllowed(actions[i].event)
  }

  lemma {:induction false} AlwaysFlagged(flags: seq<bool>, actions: seq<Action>)
    requires AllAllowed(actions)
    ensures AllFlagged(ActAll(Start(flags), actions))
    decreases |actions|
  {
    if actions != [] {
      var last := |actions| - 1;
      AlwaysFlagged(flags, actions[..last]);
      var s := ActAll(Start(flags), actions[..last]);
      if actions[last].cpu < |s.cpus| {
        EventKeepsFlagged(s.cpus[actions[last].cpu], s.locked, actions[last].event);
      }
    }
  }

  /** A processor is inside an interrupt-stopping lock, or waits for one. */
  predicate Stopping(control: Control, st: Stack)
    decreases st, 1
  {
    StopHeld(st) || (control.Locking? && control.stop && !control.phase.Ask?)
  }

  predicate StopHeld(st: Stack)
    decreases st, 0
  {
    match st
    case Empty => false
    case Call(_, rest) => StopHeld(rest)
    case Held(_, stop, _, _, _, rest) => stop || StopHeld(rest)
    case Interrupted(control, rest) => Stopping(control, rest)
  }

  /** While the flag is on, the processor is in no interrupt-stopping section, and in no
      interrupt handler. */
  predicate Open(st: Stack) {
    match st
    case Empty => true
    case Call(_, rest) => Open(rest)
    case Held(_, stop, _, _, _, rest) => !stop && Open(rest)
    case Interrupted(_, _) => false
  }

  lemma {:induction false} OpenWhenOn(st: Stack)
    requires Frames(st) && Base(st)
    ensures Open(st) && !StopHeld(st)
  {
    match st {
      case Held(_, _, _, _, _, rest) => OpenWhenOn(rest);
      case _ =>
    }
  }

  lemma FlagOnMeansOpen(control: Control, st: Stack)
    requires Flagged(true, control, st)
    ensures Open(st) && !Stopping(control, st)
  {
    if !control.Idle? {
      OpenWhenOn(st);
    }
  }

  /** Every interrupt on the stack broke into code outside every interrupt-stopping section. */
  predicate Undisturbed(st: Stack) {
    match st
    case Empty => true
    case Call(_, rest) => Undisturbed(rest)
    case Held(_, _, _, _, _, rest) => Undisturbed(rest)
    case Interrupted(control, rest) => !Stopping(control, rest) && Open(rest) && Undisturbed(rest)
  }

  lemma {:induction false} FramesUndisturbed(st: Stack)
    requires Frames(st)
    ensures Undisturbed(st)
  {
    match st {
      case Held(_, _, _, _, _, rest) => FramesUndisturbed(rest);
      case Interrupted(control, rest) =>
        FlagOnMeansOpen(control, rest);
        FlaggedFrames(true, control, rest);
        FramesUndisturbed(rest);
      case _ =>
    }
  }

  /** The interrupt discipline of one processor: the flag is off throughout every
      interrupt-stopping section, handlers never run inside one, the end of a scope or of a
      call finds the flag as its beginning did, code that returns runs with a flag that
      depends only on what it returns to (so it is the same before and after every scope),
      and a panicked processor stays masked. */
  ghost predicate Disciplined(c: Cpu) {
    && (Stopping(c.control, c.stack) ==> !c.flag)
    && Undisturbed(c.stack)
    && (c.control.Leave? ==> (c.flag || c.control.reenable) == c.control.entry)
    && (c.control == Run(Return) && c.stack.Call? ==> c.flag == c.stack.entry)
    && (c.control == Run(Return) && c.stack.Held? ==> (c.flag || c.stack.reenable) == c.stack.entry)
    && (c.control.Run? && !Sound(c.control.prog, true) ==> c.flag == Base(c.stack))
    && (c.control.Halted? ==> !c.flag)
  }

  lemma FlaggedIsDisciplined(c: Cpu)
    requires Flagged(c.flag, c.control, c.stack)
    ensures Disciplined(c)
  {
    if c.flag {
      FlagOnMeansOpen(c.control, c.stack);
    }
    FlaggedFrames(c.flag, c.control, c.stack);
    FramesUndisturbed(c.stack);
    if c.control == Run(Return) {
      assert c.flag == Base(c.stack);
    }
  }

  /** Over every run of allowed programs every processor keeps the interrupt discipline. */
  lemma InterruptDiscipline(flags: seq<bool>, actions: seq<Action>, i: nat)
    requires AllAllowed(actions) && i < |ActAll(Start(flags), actions).cpus|
    ensures Disciplined(ActAll(Start(flags), actions).cpus[i])
  {
    AlwaysFlagged(flags, actions);
    FlaggedIsDisciplined(ActAll(Start(flags), actions).cpus[i]);
  }
}

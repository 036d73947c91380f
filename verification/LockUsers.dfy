/** The kernel's uses of its locks: what each operation enters, in which order, on every
    path through its code. All of them fit the lock order. */
module LockUsers {
  import opened Spinlocks
  import opened LockOrder
  import opened LockFairness

  /** p and, if it returns, q. */
  function Then(p: Prog, q: Prog): Prog {
    match p
    case Return => q
    case Halt => Halt
    case Mask(next) => Mask(Then(next, q))
    case Do(job, next) => Do(job, Then(next, q))
    case Enter(lock, stop, body, next) => Enter(lock, stop, body, Then(next, q))
  }

  /** A ScopedLock around a body; every use in the kernel stops interrupts. */
  function Scope(lock: Lock, body: Prog): Prog {
    Enter(lock, true, body, Return)
  }

  /** One piece of work on something shared. */
  function Just(job: Job): Prog {
    Do(job, Return)
  }

  function Repeat(n: nat, p: Prog): Prog {
    if n == 0 then Return else Then(p, Repeat(n - 1, p))
  }

  /** Which output devices have been set up; the branches on them vary between calls. */
  datatype Devices = Devices(serial: bool, framebuffer: bool)

  /** Serial::Write. */
  function SerialWrite(d: Devices): Prog {
    if d.serial then Scope(Serial, Just(Port)) else Return
  }

  /** FramebufferConsole::Write of a buffer and of a string. */
  function BufferWrite(): Prog {
    Scope(Framebuffer, Just(Screen))
  }

  function StringWrite(d: Devices): Prog {
    if d.framebuffer then BufferWrite() else Return
  }

  /** Kernel::Log. */
  function Write(d: Devices): Prog {
    Then(SerialWrite(d), BufferWrite())
  }

  /** A LOG_ message: under the log lock as many writes as the format needs, then the line
      ending outside it. */
  function Message(logged: bool, writes: nat, d: Devices): Prog {
    if logged then Then(Scope(Log, Repeat(writes, Do(Line, Write(d)))), Write(d)) else Return
  }

  /** Kernel::Panic. */
  function Panic(d: Devices): Prog {
    Mask(Then(SerialWrite(d), Then(SerialWrite(d), Then(StringWrite(d), Then(StringWrite(d), Halt)))))
  }

  /** How an operation of the frame allocator goes. */
  datatype Grant = Granted | Refused(writes: nat)

  /** AllocatePages, which logs a refusal while it holds its lock. */
  function AllocateCode(g: Grant, d: Devices): Prog {
    Scope(Allocator, Do(Bitmaps, if g.Granted? then Return else Message(true, g.writes, d)))
  }

  /** FreePages, which panics while it holds its lock. */
  function FreeCode(ok: bool, d: Devices): Prog {
    Scope(Allocator, Do(Bitmaps, if ok then Return else Panic(d)))
  }

  /** The allocation of a missing table, at most once on each of three levels; each is linked
      before the walk goes on. */
  function AllocateTables(space: nat, grants: seq<Grant>, d: Devices, after: Prog): Prog {
    if grants == [] then after
    else Then(AllocateCode(grants[0], d),
              if grants[0].Granted? then Do(Tables(space), AllocateTables(space, grants[1..], d, after)) else Panic(d))
  }

  /** The pruning of emptied tables; each is freed and then unlinked. */
  function FreeTables(space: nat, frees: seq<bool>, d: Devices): Prog {
    if frees == [] then Return
    else Then(FreeCode(frees[0], d), Do(Tables(space), FreeTables(space, frees[1..], d)))
  }

  /** The kernel's operations that take locks, with what decides their path. */
  datatype Operation =
    | Print(logged: bool, writes: nat)
    | Allocate(grant: Grant)
    | Free(ok: bool)
    | MapPage(space: nat, aligned: bool, grants: seq<Grant>, mapped: bool, writes: nat)
    | UnmapPage(space: nat, mapped: bool, frees: seq<bool>)
    | GetPhysicalAddress(space: nat)
    | FindRange(space: nat, probes: nat, found: bool)
    | IoApicAccess(id: nat)
    | AcpiCommand
    | Fail

  /** The end of MapPage: the entry is written, unless the page is mapped already. */
  function MapEnd(space: nat, mapped: bool, writes: nat, d: Devices): Prog {
    if mapped then Then(Message(true, writes, d), Panic(d)) else Just(Tables(space))
  }

  function Code(op: Operation, d: Devices): Prog {
    match op
    case Print(logged, writes) => Message(logged, writes, d)
    case Allocate(grant) => AllocateCode(grant, d)
    case Free(ok) => FreeCode(ok, d)
    case MapPage(space, aligned, grants, mapped, writes) =>
      if !aligned then Panic(d)
      else
        Scope(Page(space),
              Do(Tables(space), AllocateTables(space, grants, d, MapEnd(space, mapped, writes, d))))
    case UnmapPage(space, mapped, frees) =>
      Scope(Page(space), Do(Tables(space), if mapped then FreeTables(space, frees, d) else Panic(d)))
    case GetPhysicalAddress(space) => Scope(Page(space), Just(Tables(space)))
    case FindRange(space, probes, found) =>
      Then(Repeat(probes, Scope(Page(space), Just(Tables(space)))), if found then Return else Panic(d))
    case IoApicAccess(id) => Scope(IoApic(id), Just(Registers(id)))
    // The lock is an unnamed temporary, released before the command is written.
    case AcpiCommand => Then(Scope(Acpi, Return), Just(Command))
    case Fail => Panic(d)
  }

  /** Operations one after the other, as a thread or an interrupt handler makes them. */
  function Script(ops: seq<Operation>, d: Devices): Prog {
    if ops == [] then Return else Then(Code(ops[0], d), Script(ops[1..], d))
  }

  // ---- They fit ----------------------------------------------------------------------

  /** Returning or panicking code that takes only locks ranked above r. */
  predicate FitsUnder(p: Prog, r: int) {
    Sound(p, false) && Ordered(p, r)
  }

  lemma {:induction false} ThenFits(p: Prog, q: Prog, r: int)
    requires FitsUnder(p, r) && FitsUnder(q, r)
    ensures FitsUnder(Then(p, q), r)
  {
    match p
    case Return =>
    case Mask(next) => ThenMasked(next, q, r);
    case Do(_, next) => ThenFits(next, q, r);
    case Enter(_, _, _, next) => ThenFits(next, q, r);
  }

  /** Nothing follows a panic. */
  lemma {:induction false} ThenMasked(p: Prog, q: Prog, r: int)
    requires Sound(p, true) && Ordered(p, r)
    ensures Then(p, q) == p
  {
    match p
    case Halt =>
    case Mask(next) => ThenMasked(next, q, r);
    case Do(_, next) => ThenMasked(next, q, r);
    case Enter(_, _, _, next) => ThenMasked(next, q, r);
  }

  lemma {:induction false} RepeatFits(n: nat, p: Prog, r: int)
    requires FitsUnder(p, r)
    ensures FitsUnder(Repeat(n, p), r)
  {
    if n > 0 {
      RepeatFits(n - 1, p, r);
      ThenFits(p, Repeat(n - 1, p), r);
    }
  }

  lemma ScopeFits(lock: Lock, body: Prog, r: int)
    requires r < Rank(lock) && FitsUnder(body, Rank(lock))
    ensures FitsUnder(Scope(lock, body), r)
  {
  }

  lemma SerialFits(d: Devices, r: int)
    requires r < 3
    ensures FitsUnder(SerialWrite(d), r)
  {
    ScopeFits(Serial, Just(Port), r);
  }

  lemma BufferFits(r: int)
    requires r < 3
    ensures FitsUnder(BufferWrite(), r)
  {
    ScopeFits(Framebuffer, Just(Screen), r);
  }

  lemma WriteFits(d: Devices, r: int)
    requires r < 3
    ensures FitsUnder(Write(d), r)
  {
    SerialFits(d, r);
    BufferFits(r);
    ThenFits(SerialWrite(d), BufferWrite(), r);
  }

  lemma MessageFits(logged: bool, writes: nat, d: Devices, r: int)
    requires r < 2
    ensures FitsUnder(Message(logged, writes, d), r)
  {
    WriteFits(d, r);
    WriteFits(d, 2);
    RepeatFits(writes, Do(Line, Write(d)), 2);
    ScopeFits(Log, Repeat(writes, Do(Line, Write(d))), r);
    ThenFits(Scope(Log, Repeat(writes, Do(Line, Write(d)))), Write(d), r);
  }

  lemma PanicFits(d: Devices, r: int)
    requires r < 3
    ensures FitsUnder(Panic(d), r)
  {
    var p4 := Then(StringWrite(d), Halt);
    var p3 := Then(StringWrite(d), p4);
    assert Sound(p4, true) && Ordered(p4, r);
    assert Sound(p3, true) && Ordered(p3, r);
    var p2 := Then(SerialWrite(d), p3);
    assert Sound(p2, true) && Ordered(p2, r);
  }

  lemma AllocateFits(g: Grant, d: Devices, r: int)
    requires r < 1
    ensures FitsUnder(AllocateCode(g, d), r)
  {
    var body := if g.Granted? then Return else Message(true, g.writes, d);
    if g.Refused? {
      MessageFits(true, g.writes, d, 1);
    }
    ScopeFits(Allocator, Do(Bitmaps, body), r);
  }

  lemma FreeFits(ok: bool, d: Devices, r: int)
    requires r < 1
    ensures FitsUnder(FreeCode(ok, d), r)
  {
    PanicFits(d, 1);
    ScopeFits(Allocator, Do(Bitmaps, if ok then Return else Panic(d)), r);
  }

  lemma {:induction false} AllocateTablesFits(space: nat, grants: seq<Grant>, d: Devices, after: Prog)
    requires FitsUnder(after, 0)
    ensures FitsUnder(AllocateTables(space, grants, d, after), 0)
  {
    if grants != [] {
      AllocateFits(grants[0], d, 0);
      PanicFits(d, 0);
      AllocateTablesFits(space, grants[1..], d, after);
      ThenFits(AllocateCode(grants[0], d),
               if grants[0].Granted? then Do(Tables(space), AllocateTables(space, grants[1..], d, after)) else Panic(d), 0);
    }
  }

  lemma {:induction false} FreeTablesFits(space: nat, frees: seq<bool>, d: Devices)
    ensures FitsUnder(FreeTables(space, frees, d), 0)
  {
    if frees != [] {
      FreeFits(frees[0], d, 0);
      FreeTablesFits(space, frees[1..], d);
      ThenFits(FreeCode(frees[0], d), Do(Tables(space), FreeTables(space, frees[1..], d)), 0);
    }
  }

  /** Every path through every operation takes its locks in order, stops interrupts for each
      and returns or panics. */
  lemma CodeFits(op: Operation, d: Devices)
    ensures Fits(Code(op, d))
  {
    PanicFits(d, -1);
    PanicFits(d, 0);
    match op {
      case Print(logged, writes) => MessageFits(logged, writes, d, -1);
      case Allocate(grant) => AllocateFits(grant, d, -1);
      case Free(ok) => FreeFits(ok, d, -1);
      case MapPage(space, _, grants, mapped, writes) =>
        MessageFits(true, writes, d, 0);
        ThenFits(Message(true, writes, d), Panic(d), 0);
        AllocateTablesFits(space, grants, d, MapEnd(space, mapped, writes, d));
      case UnmapPage(space, _, frees) => FreeTablesFits(space, frees, d);
      case FindRange(space, probes, found) =>
        var probe := Scope(Page(space), Just(Tables(space)));
        ScopeFits(Page(space), Just(Tables(space)), -1);
        RepeatFits(probes, probe, -1);
        ThenFits(Repeat(probes, probe), if found then Return else Panic(d), -1);
      case _ =>
    }
  }

  lemma {:induction false} ScriptFits(ops: seq<Operation>, d: Devices)
    ensures Fits(Script(ops, d))
  {
    if ops != [] {
      CodeFits(ops[0], d);
      ScriptFits(ops[1..], d);
      ThenFits(Code(ops[0], d), Script(ops[1..], d), -1);
    }
  }

  // ---- The kernel --------------------------------------------------------------------

  /** Threads and interrupt handlers are made of kernel operations. */
  ghost predicate FromKernel(e: Event) {
    match e
    case Begin(p) => exists ops, d :: p == Script(ops, d)
    case Interrupt(p) => exists ops, d :: p == Script(ops, d)
    case Tick => true
  }

  lemma KernelFits(actions: seq<Action>)
    requires forall i | 0 <= i < |actions| :: FromKernel(actions[i].event)
    ensures AllFit(actions) && AllAllowed(actions)
  {
    forall i | 0 <= i < |actions| ensures EventFits(actions[i].event) && EventAllowed(actions[i].event) {
      var e := actions[i].event;
      match e {
        case Tick =>
        case Begin(p) =>
          var ops, d :| p == Script(ops, d);
          ScriptFits(ops, d);
        case Interrupt(p) =>
          var ops, d :| p == Script(ops, d);
          ScriptFits(ops, d);
      }
    }
  }

  /** Whatever the kernel's threads and interrupt handlers do, on any number of processors
      and in any interleaving: locks exclude, interrupts are masked exactly as the code
      expects, no processors wait for each other in a cycle, and unless one has panicked
      all work begun can be completed. */
  lemma KernelLocksAreSafe(flags: seq<bool>, actions: seq<Action>)
    requires forall i | 0 <= i < |actions| :: FromKernel(actions[i].event)
    ensures var s := ActAll(Start(flags), actions);
            && Exclusive(s)
            && (forall i | 0 <= i < |s.cpus| :: Disciplined(s.cpus[i]))
            && (forall path | WaitPath(s, path) && |path| >= 2 :: path[0] != path[|path| - 1])
            && (NoneHalted(s) && !AllIdle(s) ==> exists j: nat | j < |s.cpus| :: Moving(s.cpus[j], s.locked))
            && (NoneHalted(s) ==>
                  exists more :: OnlyTicks(more) && (AllIdle(ActAll(s, more)) || !NoneHalted(ActAll(s, more))))
  {
    KernelFits(actions);
    MutualExclusion(flags, actions);
    DeadlockFree(flags, actions);
    var s := ActAll(Start(flags), actions);
    forall i | 0 <= i < |s.cpus| ensures Disciplined(s.cpus[i]) {
      InterruptDiscipline(flags, actions, i);
    }
  }

  /** And once nothing new arrives, every fair schedule completes it. */
  lemma KernelWorkFinishes(flags: seq<bool>, actions: seq<Action>, rounds: seq<seq<Action>>)
    requires forall i | 0 <= i < |actions| :: FromKernel(actions[i].event)
    requires var s := ActAll(Start(flags), actions); Rounds(rounds, |s.cpus|) && |rounds| > Potential(s)
    ensures Over(ActAll(ActAll(Start(flags), actions), Flatten(rounds)))
  {
    KernelFits(actions);
    FairCompletion(flags, actions, rounds);
  }
}

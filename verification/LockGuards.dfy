/** What the kernel's locks are for: shared things are worked on only inside the lock that
    guards them, so no two processors ever work on the same one; and what work every operation
    does, in which order. */
module LockGuards {
  import opened Spinlocks
  import opened LockOrder
  import opened LockUsers

  datatype Need = Nothing | Needs(lock: Lock)

  /** The lock that guards a job. The ACPI command port has none: see OthersDo. */
  function Guard(job: Job): Need {
    match job
    case Tables(space) => Needs(Page(space))
    case Bitmaps => Needs(Allocator)
    case Line => Needs(Log)
    case Port => Needs(Serial)
    case Screen => Needs(Framebuffer)
    case Registers(id) => Needs(IoApic(id))
    case Command => Nothing
  }

  predicate JobGuarded(job: Job, held: set<Lock>) {
    Guard(job).Needs? ==> Guard(job).lock in held
  }

  /** Code that does its work inside the guarding locks, when begun inside those held. */
  predicate Guarded(p: Prog, held: set<Lock>) {
    match p
    case Return => true
    case Halt => true
    case Mask(next) => Guarded(next, held)
    case Do(job, next) => JobGuarded(job, held) && Guarded(next, held)
    case Enter(lock, _, body, next) => Guarded(body, held + {lock}) && Guarded(next, held)
  }

  /** The locks held since the last interrupt or call. */
  function Inside(st: Stack): set<Lock> {
    if st.Held? then {st.lock} + Inside(st.rest) else {}
  }

  predicate ControlGuarded(control: Control, st: Stack)
    decreases st, 1
  {
    && StackGuarded(st)
    && match control
       case Run(p) => Guarded(p, Inside(st))
       case Locking(_, lock, _, _, body, next) => Guarded(body, Inside(st) + {lock}) && Guarded(next, Inside(st))
       case Leave(_, _, next) => Guarded(next, Inside(st))
       case _ => true
  }

  predicate StackGuarded(st: Stack)
    decreases st, 0
  {
    match st
    case Empty => true
    case Call(_, rest) => StackGuarded(rest)
    case Held(_, _, _, _, next, rest) => Guarded(next, Inside(rest)) && StackGuarded(rest)
    case Interrupted(control, rest) => ControlGuarded(control, rest)
  }

  predicate EventGuarded(e: Event) {
    match e
    case Begin(p) => Guarded(p, {})
    case Interrupt(p) => Guarded(p, {})
    case Tick => true
  }

  lemma InsideHeld(st: Stack)
    ensures Inside(st) <= Holding(st)
  {
  }

  lemma EventKeepsGuarded(c: Cpu, locked: set<Lock>, e: Event)
    requires ControlGuarded(c.control, c.stack) && EventGuarded(e)
    ensures var (d, _) := Happen(c, locked, e); ControlGuarded(d.control, d.stack)
  {
    var (d, _) := Happen(c, locked, e);
    if e.Begin? && c.control.Idle? {
      assert Inside(d.stack) == {} && StackGuarded(d.stack);
    } else if e.Interrupt? && c.flag {
      assert Inside(d.stack) == {} && StackGuarded(d.stack);
    } else if e.Tick? && c.control == Run(Return) && c.stack.Interrupted? {
      assert ControlGuarded(c.stack.control, c.stack.rest);
    } else if e.Tick? && c.control == Run(Return) && c.stack.Held? {
      assert StackGuarded(c.stack);
    } else if e.Tick? && c.control.Locking? && d.control.Run? {
      assert Inside(d.stack) == Inside(c.stack) + {c.control.lock};
    } else if e.Tick? && c.control.Run? {
      assert Guarded(c.control.prog, Inside(c.stack));
    }
  }

  ghost predicate AllGuarded(actions: seq<Action>) {
    forall i | 0 <= i < |actions| :: EventGuarded(actions[i].event)
  }

  lemma {:induction false} AlwaysGuarded(flags: seq<bool>, actions: seq<Action>, i: nat)
    requires AllGuarded(actions) && i < |ActAll(Start(flags), actions).cpus|
    ensures var c := ActAll(Start(flags), actions).cpus[i]; ControlGuarded(c.control, c.stack)
    decreases |actions|
  {
    if actions != [] {
      var last := |actions| - 1;
      var s := ActAll(Start(flags), actions[..last]);
      AlwaysGuarded(flags, actions[..last], i);
      if actions[last].cpu == i {
        EventKeepsGuarded(s.cpus[i], s.locked, actions[last].event);
      }
    }
  }

  /** A processor is about to do a job. */
  predicate AtWork(c: Cpu, job: Job) {
    c.control.Run? && c.control.prog.Do? && c.control.prog.job == job
  }

  // ---- The kernel's operations -------------------------------------------------------

  lemma {:induction false} GuardedMore(p: Prog, held: set<Lock>, more: set<Lock>)
    requires Guarded(p, held) && held <= more
    ensures Guarded(p, more)
  {
    match p
    case Return =>
    case Halt =>
    case Mask(next) => GuardedMore(next, held, more);
    case Do(_, next) => GuardedMore(next, held, more);
    case Enter(lock, _, body, next) =>
      GuardedMore(body, held + {lock}, more + {lock});
      GuardedMore(next, held, more);
  }

  lemma {:induction false} ThenGuarded(p: Prog, q: Prog, held: set<Lock>)
    requires Guarded(p, held) && Guarded(q, held)
    ensures Guarded(Then(p, q), held)
  {
    match p
    case Return =>
    case Halt =>
    case Mask(next) => ThenGuarded(next, q, held);
    case Do(_, next) => ThenGuarded(next, q, held);
    case Enter(_, _, _, next) => ThenGuarded(next, q, held);
  }

  lemma {:induction false} RepeatGuarded(n: nat, p: Prog, held: set<Lock>)
    requires Guarded(p, held)
    ensures Guarded(Repeat(n, p), held)
  {
    if n > 0 {
      RepeatGuarded(n - 1, p, held);
      ThenGuarded(p, Repeat(n - 1, p), held);
    }
  }

  lemma ScopeGuarded(lock: Lock, body: Prog, held: set<Lock>)
    requires Guarded(body, held + {lock})
    ensures Guarded(Scope(lock, body), held)
  {
  }

  lemma DevicesGuarded(d: Devices, held: set<Lock>)
    ensures Guarded(SerialWrite(d), held) && Guarded(BufferWrite(), held) && Guarded(StringWrite(d), held)
    ensures Guarded(Write(d), held)
  {
    assert Guarded(Just(Port), held + {Serial}) && Guarded(Just(Screen), held + {Framebuffer});
    ScopeGuarded(Serial, Just(Port), held);
    ScopeGuarded(Framebuffer, Just(Screen), held);
    ThenGuarded(SerialWrite(d), BufferWrite(), held);
  }

  lemma MessageGuarded(logged: bool, writes: nat, d: Devices, held: set<Lock>)
    ensures Guarded(Message(logged, writes, d), held)
  {
    DevicesGuarded(d, held);
    DevicesGuarded(d, held + {Log});
    RepeatGuarded(writes, Do(Line, Write(d)), held + {Log});
    var body := Repeat(writes, Do(Line, Write(d)));
    ScopeGuarded(Log, body, held);
    ThenGuarded(Scope(Log, body), Write(d), held);
  }

  lemma PanicGuarded(d: Devices, held: set<Lock>)
    ensures Guarded(Panic(d), held)
  {
    DevicesGuarded(d, held);
    var p4 := Then(StringWrite(d), Halt);
    ThenGuarded(StringWrite(d), Halt, held);
    var p3 := Then(StringWrite(d), p4);
    ThenGuarded(StringWrite(d), p4, held);
    var p2 := Then(SerialWrite(d), p3);
    ThenGuarded(SerialWrite(d), p3, held);
    ThenGuarded(SerialWrite(d), p2, held);
  }

  lemma AllocatorGuarded(g: Grant, ok: bool, d: Devices, held: set<Lock>)
    ensures Guarded(AllocateCode(g, d), held) && Guarded(FreeCode(ok, d), held)
  {
    var inner := held + {Allocator};
    if g.Refused? {
      MessageGuarded(true, g.writes, d, inner);
    }
    PanicGuarded(d, inner);
    ScopeGuarded(Allocator, Do(Bitmaps, if g.Granted? then Return else Message(true, g.writes, d)), held);
    ScopeGuarded(Allocator, Do(Bitmaps, if ok then Return else Panic(d)), held);
  }

  lemma {:induction false} AllocateTablesGuarded(space: nat, grants: seq<Grant>, d: Devices, after: Prog, held: set<Lock>)
    requires Page(space) in held && Guarded(after, held)
    ensures Guarded(AllocateTables(space, grants, d, after), held)
  {
    if grants != [] {
      AllocatorGuarded(grants[0], true, d, held);
      PanicGuarded(d, held);
      AllocateTablesGuarded(space, grants[1..], d, after, held);
      ThenGuarded(AllocateCode(grants[0], d),
                  if grants[0].Granted? then Do(Tables(space), AllocateTables(space, grants[1..], d, after)) else Panic(d), held);
    }
  }

  lemma {:induction false} FreeTablesGuarded(space: nat, frees: seq<bool>, d: Devices, held: set<Lock>)
    requires Page(space) in held
    ensures Guarded(FreeTables(space, frees, d), held)
  {
    if frees != [] {
      AllocatorGuarded(Granted, frees[0], d, held);
      FreeTablesGuarded(space, frees[1..], d, held);
      ThenGuarded(FreeCode(frees[0], d), Do(Tables(space), FreeTables(space, frees[1..], d)), held);
    }
  }

  lemma PageGuarded(space: nat, body: Prog)
    requires Guarded(body, {Page(space)})
    ensures Guarded(Scope(Page(space), Do(Tables(space), body)), {})
  {
    assert {} + {Page(space)} == {Page(space)};
    ScopeGuarded(Page(space), Do(Tables(space), body), {});
  }

  lemma MapGuarded(space: nat, grants: seq<Grant>, mapped: bool, writes: nat, d: Devices)
    ensures Guarded(Scope(Page(space), Do(Tables(space), AllocateTables(space, grants, d, MapEnd(space, mapped, writes, d)))), {})
  {
    var held, end := {Page(space)}, MapEnd(space, mapped, writes, d);
    MessageGuarded(true, writes, d, held);
    PanicGuarded(d, held);
    ThenGuarded(Message(true, writes, d), Panic(d), held);
    AllocateTablesGuarded(space, grants, d, end, held);
    PageGuarded(space, AllocateTables(space, grants, d, end));
  }

  /** Every path through every operation works inside the guarding locks. */
  lemma CodeGuarded(op: Operation, d: Devices)
    ensures Guarded(Code(op, d), {})
  {
    PanicGuarded(d, {});
    match op {
      case Print(logged, writes) => MessageGuarded(logged, writes, d, {});
      case Allocate(grant) => AllocatorGuarded(grant, true, d, {});
      case Free(ok) => AllocatorGuarded(Granted, ok, d, {});
      case MapPage(space, _, grants, mapped, writes) => MapGuarded(space, grants, mapped, writes, d);
      case UnmapPage(space, _, frees) =>
        FreeTablesGuarded(space, frees, d, {Page(space)});
        PanicGuarded(d, {Page(space)});
        PageGuarded(space, if op.mapped then FreeTables(space, frees, d) else Panic(d));
      case GetPhysicalAddress(space) => PageGuarded(space, Return);
      case FindRange(space, probes, found) =>
        var probe := Scope(Page(space), Just(Tables(space)));
        PageGuarded(space, Return);
        RepeatGuarded(probes, probe, {});
        ThenGuarded(Repeat(probes, probe), if found then Return else Panic(d), {});
      case IoApicAccess(id) => ScopeGuarded(IoApic(id), Just(Registers(id)), {});
      case AcpiCommand => ThenGuarded(Scope(Acpi, Return), Just(Command), {});
      case Fail =>
    }
  }

  lemma {:induction false} ScriptGuarded(ops: seq<Operation>, d: Devices)
    ensures Guarded(Script(ops, d), {})
  {
    if ops != [] {
      CodeGuarded(ops[0], d);
      ScriptGuarded(ops[1..], d);
      ThenGuarded(Code(ops[0], d), Script(ops[1..], d), {});
    }
  }

  lemma KernelGuarded(actions: seq<Action>)
    requires forall i | 0 <= i < |actions| :: FromKernel(actions[i].event)
    ensures AllGuarded(actions)
  {
    forall i | 0 <= i < |actions| ensures EventGuarded(actions[i].event) {
      var e := actions[i].event;
      match e {
        case Tick =>
        case Begin(p) =>
          var ops, d :| p == Script(ops, d);
          ScriptGuarded(ops, d);
        case Interrupt(p) =>
          var ops, d :| p == Script(ops, d);
          ScriptGuarded(ops, d);
      }
    }
  }

  /** In every run of the kernel a processor works on page tables only inside that address
      space's lock, on the allocator's bitmaps only inside the allocator's lock, and so on. */
  lemma WorkIsLocked(flags: seq<bool>, actions: seq<Action>, i: nat)
    requires forall k | 0 <= k < |actions| :: FromKernel(actions[k].event)
    requires i < |ActAll(Start(flags), actions).cpus|
    ensures var c := ActAll(Start(flags), actions).cpus[i];
            && (forall space :: AtWork(c, Tables(space)) ==> Page(space) in Holding(c.stack))
            && (AtWork(c, Bitmaps) ==> Allocator in Holding(c.stack))
            && (AtWork(c, Line) ==> Log in Holding(c.stack))
            && (AtWork(c, Port) ==> Serial in Holding(c.stack))
            && (AtWork(c, Screen) ==> Framebuffer in Holding(c.stack))
            && (forall id :: AtWork(c, Registers(id)) ==> IoApic(id) in Holding(c.stack))
  {
    KernelGuarded(actions);
    AlwaysGuarded(flags, actions, i);
    InsideHeld(ActAll(Start(flags), actions).cpus[i].stack);
  }

  /** So no two processors are ever at work on the same thing, the ACPI command port aside. */
  lemma NoTwoAtWork(flags: seq<bool>, actions: seq<Action>, i: nat, j: nat, job: Job)
    requires forall k | 0 <= k < |actions| :: FromKernel(actions[k].event)
    requires var s := ActAll(Start(flags), actions); i < j < |s.cpus| && AtWork(s.cpus[i], job) && AtWork(s.cpus[j], job)
    ensures job == Command
  {
    var s := ActAll(Start(flags), actions);
    WorkIsLocked(flags, actions, i);
    WorkIsLocked(flags, actions, j);
    MutualExclusion(flags, actions);
    assert Holding(s.cpus[i].stack) !! Holding(s.cpus[j].stack);
  }

  // ---- What every operation does -----------------------------------------------------

  /** A job done, and the locks held meanwhile. */
  datatype Deed = Deed(job: Job, held: set<Lock>)

  /** The jobs of a piece of code in order, when it is begun inside the locks held. */
  function Deeds(p: Prog, held: set<Lock>): seq<Deed> {
    match p
    case Return => []
    case Halt => []
    case Mask(next) => Deeds(next, held)
    case Do(job, next) => [Deed(job, held)] + Deeds(next, held)
    case Enter(lock, _, body, next) => Deeds(body, held + {lock}) + Deeds(next, held)
  }

  /** Code that ends by returning. */
  predicate Returns(p: Prog) {
    match p
    case Return => true
    case Halt => false
    case Mask(next) => Returns(next)
    case Do(_, next) => Returns(next)
    case Enter(_, _, _, next) => Returns(next)
  }

  lemma {:induction false} DeedsThen(p: Prog, q: Prog, held: set<Lock>)
    requires Returns(p)
    ensures Deeds(Then(p, q), held) == Deeds(p, held) + Deeds(q, held)
    ensures Returns(q) ==> Returns(Then(p, q))
  {
    match p
    case Return =>
    case Mask(next) => DeedsThen(next, q, held);
    case Do(_, next) => DeedsThen(next, q, held);
    case Enter(_, _, _, next) => DeedsThen(next, q, held);
  }

  lemma DeedsScope(lock: Lock, body: Prog, held: set<Lock>)
    ensures Deeds(Scope(lock, body), held) == Deeds(body, held + {lock})
    ensures Returns(Scope(lock, body))
  {
  }

  function Times(n: nat, deeds: seq<Deed>): seq<Deed> {
    if n == 0 then [] else deeds + Times(n - 1, deeds)
  }

  lemma {:induction false} DeedsRepeat(n: nat, p: Prog, held: set<Lock>)
    requires Returns(p)
    ensures Deeds(Repeat(n, p), held) == Times(n, Deeds(p, held)) && Returns(Repeat(n, p))
  {
    if n > 0 {
      DeedsRepeat(n - 1, p, held);
      DeedsThen(p, Repeat(n - 1, p), held);
    }
  }

  /** One write to the output devices. */
  function WriteDeeds(d: Devices, held: set<Lock>): seq<Deed> {
    (if d.serial then [Deed(Port, held + {Serial})] else []) + [Deed(Screen, held + {Framebuffer})]
  }

  /** A message: its writes in one piece under the log's lock, the line ending after it. */
  function MessageDeeds(writes: nat, d: Devices, held: set<Lock>): seq<Deed> {
    Times(writes, [Deed(Line, held + {Log})] + WriteDeeds(d, held + {Log})) + WriteDeeds(d, held)
  }

  function PanicDeeds(d: Devices, held: set<Lock>): seq<Deed> {
    (if d.serial then [Deed(Port, held + {Serial}), Deed(Port, held + {Serial})] else [])
    + (if d.framebuffer then [Deed(Screen, held + {Framebuffer}), Deed(Screen, held + {Framebuffer})] else [])
  }

  lemma SerialDoes(d: Devices, held: set<Lock>)
    ensures Deeds(SerialWrite(d), held) == (if d.serial then [Deed(Port, held + {Serial})] else [])
    ensures Returns(SerialWrite(d))
  {
    DeedsScope(Serial, Just(Port), held);
    assert Deeds(Just(Port), held + {Serial}) == [Deed(Port, held + {Serial})];
  }

  lemma ScreenDoes(d: Devices, held: set<Lock>)
    ensures Deeds(BufferWrite(), held) == [Deed(Screen, held + {Framebuffer})] && Returns(BufferWrite())
    ensures Deeds(StringWrite(d), held) == (if d.framebuffer then [Deed(Screen, held + {Framebuffer})] else [])
    ensures Returns(StringWrite(d))
  {
    DeedsScope(Framebuffer, Just(Screen), held);
    assert Deeds(Just(Screen), held + {Framebuffer}) == [Deed(Screen, held + {Framebuffer})];
  }

  lemma WriteDoes(d: Devices, held: set<Lock>)
    ensures Deeds(Write(d), held) == WriteDeeds(d, held) && Returns(Write(d))
  {
    SerialDoes(d, held);
    ScreenDoes(d, held);
    DeedsThen(SerialWrite(d), BufferWrite(), held);
  }

  lemma MessageDoes(writes: nat, d: Devices, held: set<Lock>)
    ensures Deeds(Message(true, writes, d), held) == MessageDeeds(writes, d, held) && Returns(Message(true, writes, d))
  {
    var line := Do(Line, Write(d));
    WriteDoes(d, held);
    WriteDoes(d, held + {Log});
    DeedsRepeat(writes, line, held + {Log});
    DeedsScope(Log, Repeat(writes, line), held);
    DeedsThen(Scope(Log, Repeat(writes, line)), Write(d), held);
  }

  lemma PanicDoes(d: Devices, held: set<Lock>)
    ensures Deeds(Panic(d), held) == PanicDeeds(d, held) && !Returns(Panic(d))
  {
    SerialDoes(d, held);
    ScreenDoes(d, held);
    var p4 := Then(StringWrite(d), Halt);
    DeedsThen(StringWrite(d), Halt, held);
    var p3 := Then(StringWrite(d), p4);
    DeedsThen(StringWrite(d), p4, held);
    var p2 := Then(SerialWrite(d), p3);
    DeedsThen(SerialWrite(d), p3, held);
    DeedsThen(SerialWrite(d), p2, held);
    ReturnsNot(StringWrite(d), Halt);
    ReturnsNot(StringWrite(d), p4);
    ReturnsNot(SerialWrite(d), p3);
    ReturnsNot(SerialWrite(d), p2);
  }

  lemma {:induction false} ReturnsNot(p: Prog, q: Prog)
    requires !Returns(q)
    ensures !Returns(Then(p, q))
  {
    match p
    case Return =>
    case Halt =>
    case Mask(next) => ReturnsNot(next, q);
    case Do(_, next) => ReturnsNot(next, q);
    case Enter(_, _, _, next) => ReturnsNot(next, q);
  }

  /** The allocator marks or clears its bitmaps inside its lock; a refusal is logged, and a
      wrong free panics, before the lock is released. */
  lemma AllocatorDoes(g: Grant, ok: bool, d: Devices, held: set<Lock>)
    ensures Deeds(AllocateCode(g, d), held) ==
              [Deed(Bitmaps, held + {Allocator})]
              + if g.Granted? then [] else MessageDeeds(g.writes, d, held + {Allocator})
    ensures Deeds(FreeCode(ok, d), held) ==
              [Deed(Bitmaps, held + {Allocator})] + if ok then [] else PanicDeeds(d, held + {Allocator})
    ensures Returns(AllocateCode(g, d)) && Returns(FreeCode(ok, d))
  {
    var inner := held + {Allocator};
    if g.Refused? {
      MessageDoes(g.writes, d, inner);
    }
    PanicDoes(d, inner);
    DeedsScope(Allocator, Do(Bitmaps, if g.Granted? then Return else Message(true, g.writes, d)), held);
    DeedsScope(Allocator, Do(Bitmaps, if ok then Return else Panic(d)), held);
  }

  /** A table added or dropped: the allocator's work and then that on the tables, both inside
      the address space's lock. */
  function TableTurn(space: nat): seq<Deed> {
    [Deed(Bitmaps, {Page(space), Allocator}), Deed(Tables(space), {Page(space)})]
  }

  lemma TurnFirst(space: nat, xs: seq<Deed>, ys: seq<Deed>)
    ensures [Deed(Bitmaps, {Page(space), Allocator})] + ([Deed(Tables(space), {Page(space)})] + (xs + ys))
            == (TableTurn(space) + xs) + ys
  {
  }

  lemma BothHeld(space: nat)
    ensures {} + {Page(space)} == {Page(space)} && {Page(space)} + {Allocator} == {Page(space), Allocator}
  {
  }

  lemma {:induction false} TablesAdded(space: nat, grants: seq<Grant>, d: Devices, after: Prog)
    requires forall i | 0 <= i < |grants| :: grants[i].Granted?
    ensures Deeds(AllocateTables(space, grants, d, after), {Page(space)})
            == Times(|grants|, TableTurn(space)) + Deeds(after, {Page(space)})
  {
    var held := {Page(space)};
    BothHeld(space);
    if grants != [] {
      var rest := AllocateTables(space, grants[1..], d, after);
      TablesAdded(space, grants[1..], d, after);
      AllocatorDoes(grants[0], true, d, held);
      DeedsThen(AllocateCode(grants[0], d), Do(Tables(space), rest), held);
      assert Deeds(AllocateTables(space, grants, d, after), held)
          == [Deed(Bitmaps, held + {Allocator})] + ([Deed(Tables(space), held)] + Deeds(rest, held));
      TurnFirst(space, Times(|grants| - 1, TableTurn(space)), Deeds(after, held));
    }
  }

  lemma {:induction false} TablesDropped(space: nat, frees: seq<bool>, d: Devices)
    requires forall i | 0 <= i < |frees| :: frees[i]
    ensures Deeds(FreeTables(space, frees, d), {Page(space)}) == Times(|frees|, TableTurn(space))
  {
    var held := {Page(space)};
    BothHeld(space);
    if frees != [] {
      var rest := FreeTables(space, frees[1..], d);
      TablesDropped(space, frees[1..], d);
      AllocatorDoes(Granted, frees[0], d, held);
      DeedsThen(FreeCode(frees[0], d), Do(Tables(space), rest), held);
      assert Deeds(FreeTables(space, frees, d), held)
          == [Deed(Bitmaps, held + {Allocator})] + ([Deed(Tables(space), held)] + Deeds(rest, held));
      TurnFirst(space, Times(|frees| - 1, TableTurn(space)), []);
    }
  }

  /** What an operation does inside an address space's lock, after its first look. */
  lemma PageDoes(space: nat, body: Prog)
    ensures Deeds(Scope(Page(space), Do(Tables(space), body)), {})
            == [Deed(Tables(space), {Page(space)})] + Deeds(body, {Page(space)})
  {
    BothHeld(space);
    DeedsScope(Page(space), Do(Tables(space), body), {});
  }

  lemma PageCode(space: nat, grants: seq<Grant>, mapped: bool, writes: nat, frees: seq<bool>, d: Devices)
    ensures Code(MapPage(space, true, grants, mapped, writes), d)
            == Scope(Page(space), Do(Tables(space), AllocateTables(space, grants, d, MapEnd(space, mapped, writes, d))))
    ensures Code(UnmapPage(space, mapped, frees), d)
            == Scope(Page(space), Do(Tables(space), if mapped then FreeTables(space, frees, d) else Panic(d)))
  {
  }

  /** MapPage that adds some tables reads and writes the page tables inside the address space's
      lock from beginning to end, and takes each table from the allocator meanwhile. If the
      page is mapped already it says so and panics, still inside; a misaligned address makes it
      panic before. */
  lemma MapPageDoes(space: nat, grants: seq<Grant>, writes: nat, d: Devices)
    requires forall i | 0 <= i < |grants| :: grants[i].Granted?
    ensures Deeds(Code(MapPage(space, true, grants, false, writes), d), {})
            == [Deed(Tables(space), {Page(space)})]
               + (Times(|grants|, TableTurn(space)) + [Deed(Tables(space), {Page(space)})])
    ensures Deeds(Code(MapPage(space, true, grants, true, writes), d), {})
            == [Deed(Tables(space), {Page(space)})]
               + (Times(|grants|, TableTurn(space))
                  + (MessageDeeds(writes, d, {Page(space)}) + PanicDeeds(d, {Page(space)})))
    ensures Deeds(Code(MapPage(space, false, grants, false, writes), d), {}) == PanicDeeds(d, {})
  {
    var held := {Page(space)};
    BothHeld(space);
    PanicDoes(d, {});
    PanicDoes(d, held);
    MessageDoes(writes, d, held);
    DeedsThen(Message(true, writes, d), Panic(d), held);
    MapDoes(space, grants, false, writes, d);
    MapDoes(space, grants, true, writes, d);
    assert Deeds(Just(Tables(space)), held) == [Deed(Tables(space), held)];
  }

  /** If no frame is left for a table, MapPage logs that inside both locks and panics inside its
      own. */
  lemma MapPageRefused(space: nat, grants: seq<Grant>, last: Grant, mapped: bool, writes: nat, d: Devices)
    requires (forall i | 0 <= i < |grants| :: grants[i].Granted?) && last.Refused?
    ensures Deeds(Code(MapPage(space, true, grants + [last], mapped, writes), d), {})
            == [Deed(Tables(space), {Page(space)})]
               + (Times(|grants|, TableTurn(space))
                  + ([Deed(Bitmaps, {Page(space), Allocator})] + MessageDeeds(last.writes, d, {Page(space), Allocator})
                     + PanicDeeds(d, {Page(space)})))
  {
    var end := MapEnd(space, mapped, writes, d);
    BothHeld(space);
    TablesRefused(space, grants, last, d, end);
    PageDoes(space, AllocateTables(space, grants + [last], d, end));
    PageCode(space, grants + [last], mapped, writes, [], d);
  }

  lemma {:induction false} TablesRefused(space: nat, grants: seq<Grant>, last: Grant, d: Devices, after: Prog)
    requires (forall i | 0 <= i < |grants| :: grants[i].Granted?) && last.Refused?
    ensures Deeds(AllocateTables(space, grants + [last], d, after), {Page(space)})
            == Times(|grants|, TableTurn(space))
               + ([Deed(Bitmaps, {Page(space), Allocator})] + MessageDeeds(last.writes, d, {Page(space), Allocator})
                  + PanicDeeds(d, {Page(space)}))
    decreases |grants|
  {
    var held, all := {Page(space)}, grants + [last];
    BothHeld(space);
    AllocatorDoes(all[0], true, d, held);
    if grants == [] {
      PanicDoes(d, held);
      DeedsThen(AllocateCode(last, d), Panic(d), held);
    } else {
      assert all[1..] == grants[1..] + [last];
      var rest := AllocateTables(space, all[1..], d, after);
      TablesRefused(space, grants[1..], last, d, after);
      DeedsThen(AllocateCode(all[0], d), Do(Tables(space), rest), held);
      assert Deeds(AllocateTables(space, all, d, after), held)
          == [Deed(Bitmaps, held + {Allocator})] + ([Deed(Tables(space), held)] + Deeds(rest, held));
      TurnFirst(space, Times(|grants| - 1, TableTurn(space)),
                [Deed(Bitmaps, {Page(space), Allocator})] + MessageDeeds(last.writes, d, {Page(space), Allocator})
                + PanicDeeds(d, {Page(space)}));
    }
  }

  lemma MapDoes(space: nat, grants: seq<Grant>, mapped: bool, writes: nat, d: Devices)
    requires forall i | 0 <= i < |grants| :: grants[i].Granted?
    ensures Deeds(Code(MapPage(space, true, grants, mapped, writes), d), {})
            == [Deed(Tables(space), {Page(space)})]
               + (Times(|grants|, TableTurn(space)) + Deeds(MapEnd(space, mapped, writes, d), {Page(space)}))
  {
    var end := MapEnd(space, mapped, writes, d);
    var body := AllocateTables(space, grants, d, end);
    TablesAdded(space, grants, d, end);
    PageDoes(space, body);
    PageCode(space, grants, mapped, writes, [], d);
  }

  lemma UnmapDoes(space: nat, frees: seq<bool>, d: Devices)
    requires forall i | 0 <= i < |frees| :: frees[i]
    ensures Deeds(Code(UnmapPage(space, true, frees), d), {})
            == [Deed(Tables(space), {Page(space)})] + Times(|frees|, TableTurn(space))
  {
    var body := FreeTables(space, frees, d);
    TablesDropped(space, frees, d);
    PageDoes(space, body);
    PageCode(space, [], true, 0, frees, d);
  }

  /** UnmapPage that drops some tables does all of it inside the address space's lock. */
  lemma UnmapPageDoes(space: nat, frees: seq<bool>, d: Devices)
    requires forall i | 0 <= i < |frees| :: frees[i]
    ensures Deeds(Code(UnmapPage(space, true, frees), d), {})
            == [Deed(Tables(space), {Page(space)})] + Times(|frees|, TableTurn(space))
    ensures Deeds(Code(UnmapPage(space, false, frees), d), {})
            == [Deed(Tables(space), {Page(space)})] + PanicDeeds(d, {Page(space)})
  {
    UnmapDoes(space, frees, d);
    PanicDoes(d, {Page(space)});
    PageDoes(space, Panic(d));
    PageCode(space, [], false, 0, frees, d);
  }

  lemma LookupsDo(space: nat, probes: nat, d: Devices)
    ensures Deeds(Code(GetPhysicalAddress(space), d), {}) == [Deed(Tables(space), {Page(space)})]
    ensures Deeds(Code(FindRange(space, probes, true), d), {}) == Times(probes, [Deed(Tables(space), {Page(space)})])
    ensures Deeds(Code(FindRange(space, probes, false), d), {})
            == Times(probes, [Deed(Tables(space), {Page(space)})]) + PanicDeeds(d, {})
  {
    ProbeDoes(space);
    PanicDoes(d, {});
    DeedsRepeat(probes, Scope(Page(space), Just(Tables(space))), {});
    DeedsThen(Repeat(probes, Scope(Page(space), Just(Tables(space)))), Return, {});
    DeedsThen(Repeat(probes, Scope(Page(space), Just(Tables(space)))), Panic(d), {});
  }

  /** The other operations; the ACPI command is written with no lock held. */
  lemma OthersDo(writes: nat, id: nat, d: Devices)
    ensures Deeds(Code(Allocate(Granted), d), {}) == [Deed(Bitmaps, {Allocator})]
    ensures Deeds(Code(Free(true), d), {}) == [Deed(Bitmaps, {Allocator})]
    ensures Deeds(Code(Print(true, writes), d), {}) == MessageDeeds(writes, d, {})
    ensures Deeds(Code(Print(false, writes), d), {}) == []
    ensures Deeds(Code(IoApicAccess(id), d), {}) == [Deed(Registers(id), {IoApic(id)})]
    ensures Deeds(Code(AcpiCommand, d), {}) == [Deed(Command, {})]
    ensures Deeds(Code(Fail, d), {}) == PanicDeeds(d, {})
  {
    AllocatorDoes(Granted, true, d, {});
    assert {} + {Allocator} == {Allocator};
    MessageDoes(writes, d, {});
    RegistersDo(id);
    CommandDoes();
    PanicDoes(d, {});
  }

  lemma ProbeDoes(space: nat)
    ensures Deeds(Scope(Page(space), Just(Tables(space))), {}) == [Deed(Tables(space), {Page(space)})]
    ensures Returns(Scope(Page(space), Just(Tables(space))))
  {
    BothHeld(space);
    DeedsScope(Page(space), Just(Tables(space)), {});
    assert Deeds(Just(Tables(space)), {Page(space)}) == [Deed(Tables(space), {Page(space)})];
  }

  lemma RegistersDo(id: nat)
    ensures Deeds(Scope(IoApic(id), Just(Registers(id))), {}) == [Deed(Registers(id), {IoApic(id)})]
  {
    assert {} + {IoApic(id)} == {IoApic(id)};
    DeedsScope(IoApic(id), Just(Registers(id)), {});
    assert Deeds(Just(Registers(id)), {IoApic(id)}) == [Deed(Registers(id), {IoApic(id)})];
  }

  lemma CommandDoes()
    ensures Deeds(Then(Scope(Acpi, Return), Just(Command)), {}) == [Deed(Command, {})]
  {
    DeedsScope(Acpi, Return, {});
    DeedsThen(Scope(Acpi, Return), Just(Command), {});
    assert Deeds(Just(Command), {}) == [Deed(Command, {})];
  }
}

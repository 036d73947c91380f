/** Interrupt entry: a handler runs in the kernel's address space, and whatever it does and
    however deeply further interrupts nest in it, the interrupted code gets its own back. */
module Interrupts {

  /** A Paging::State: its identity, and the frame of its root table. */
  datatype Space = Space(id: nat, root: nat)

  /** What code does as far as interrupt entry can tell: it switches page tables, installs or
      removes a handler, or is interrupted, with what that interrupt's handler then does. */
  datatype Doing =
    | SwitchTo(space: Space)
    | Register(vector: nat, present: bool)
    | Interrupted(vector: nat, handler: seq<Doing>)

  /** A doing, and the space in use when it happened. */
  datatype Deed = Deed(doing: Doing, space: Space)

  /** The space in use after some doings: that of the last switch among them. What
      interrupting handlers do plays no part. */
  function LastSpace(doings: seq<Doing>, space: Space): Space
    decreases |doings|
  {
    if doings == [] then space
    else if doings[|doings| - 1].SwitchTo? then doings[|doings| - 1].space
    else LastSpace(doings[..|doings| - 1], space)
  }

  /** What happens, in order and with the spaces, and which vectors have a handler then. */
  datatype Course = Course(deeds: seq<Deed>, handled: set<nat>)

  /** The course of some doings begun in a space: each happens once, in order, and an interrupt
      is followed by the course of its handler, begun in the kernel's space, if its vector has
      a handler at that moment, and by nothing otherwise. */
  function CourseOf(doings: seq<Doing>, space: Space, handled: set<nat>, kernel: Space): Course
    decreases doings
  {
    if doings == [] then Course([], handled)
    else
      var front, last := doings[..|doings| - 1], doings[|doings| - 1];
      var before := CourseOf(front, space, handled, kernel);
      var here := before.deeds + [Deed(last, LastSpace(front, space))];
      match last
      case SwitchTo(_) => Course(here, before.handled)
      case Register(vector, present) =>
        Course(here, if present then before.handled + {vector} else before.handled - {vector})
      case Interrupted(vector, handler) =>
        if vector in before.handled then
          var inner := CourseOf(handler, kernel, before.handled, kernel);
          Course(here + inner.deeds, inner.handled)
        else Course(here, before.handled)
  }

  /** One processor: its page table register and recorded page state, which vectors have a
      handler, and its local APIC. Delivered and acknowledged are totals of the interrupts
      delivered, other than spurious ones, and of the end-of-interrupt signals sent; history is
      what the code on this processor has done. */
  class Processor {
    const kernel: Space
    var cr3: nat
    var pageState: Space
    var handled: set<nat>
    var inService: seq<nat>
    var delivered: nat
    var acknowledged: nat
    ghost var history: seq<Deed>

    ghost predicate Consistent() reads this { cr3 == pageState.root }

    /** Booted: Paging::Initialize has switched to the kernel's tables. */
    constructor (kernel: Space)
      ensures Consistent() && this.kernel == kernel && pageState == kernel
      ensures inService == [] && delivered == acknowledged && handled == {} && history == []
    {
      this.kernel := kernel;
      cr3, pageState := kernel.root, kernel;
      handled, inService, delivered, acknowledged, history := {}, [], 0, 0, [];
    }

    method SwitchToPageTable(state: Space)
      modifies this`cr3, this`pageState
      ensures Consistent() && pageState == state
    {
      cr3 := state.root;
      pageState := state;
    }

    /** The local APIC ends the most recent interrupt in service. */
    method SendEOI()
      modifies this`inService, this`acknowledged
      ensures inService == if old(inService) == [] then [] else old(inService)[..|old(inService)| - 1]
      ensures acknowledged == old(acknowledged) + 1
    {
      if inService != [] {
        inService := inService[..|inService| - 1];
      }
      acknowledged := acknowledged + 1;
    }

    /** The entry point for vector irq, whose handler, if there is one, does as given: it runs
        once, in the kernel's space, exactly if it is registered, and then everything is as it
        was but for what it registered and the interrupt's acknowledgement. */
    method IRQHandler(irq: nat, handler: seq<Doing>)
      requires Consistent()
      modifies this
      ensures Consistent() && pageState == old(pageState) && cr3 == old(cr3)
      ensures irq in old(handled) ==>
                var course := CourseOf(handler, kernel, old(handled), kernel);
                history == old(history) + course.deeds && handled == course.handled
      ensures irq !in old(handled) ==> history == old(history) && handled == old(handled)
      ensures inService == if irq == 0xFF || old(inService) == [] then old(inService)
                           else old(inService)[..|old(inService)| - 1]
      ensures acknowledged - old(acknowledged) ==
                delivered - old(delivered) + if irq == 0xFF then 0 else 1
      ensures delivered >= old(delivered)
      decreases handler, 1
    {
      var backupState := pageState;
      SwitchToPageTable(kernel);
      if irq in handled {
        Carry(handler);
      }
      if backupState != pageState {
        SwitchToPageTable(backupState);
      }
      if irq == 0xFF {
        return;
      }
      SendEOI();
    }

    /** An interrupt arrives: the local APIC puts it in service, unless it is spurious. */
    method Deliver(vector: nat, handler: seq<Doing>)
      requires Consistent()
      modifies this
      ensures Consistent() && pageState == old(pageState) && cr3 == old(cr3)
      ensures vector in old(handled) ==>
                var course := CourseOf(handler, kernel, old(handled), kernel);
                history == old(history) + course.deeds && handled == course.handled
      ensures vector !in old(handled) ==> history == old(history) && handled == old(handled)
      ensures inService == old(inService)
      ensures acknowledged - old(acknowledged) == delivered - old(delivered)
      ensures delivered >= old(delivered) + if vector == 0xFF then 0 else 1
      decreases handler, 2
    {
      if vector != 0xFF {
        inService := inService + [vector];
        delivered := delivered + 1;
      }
      IRQHandler(vector, handler);
      assert vector != 0xFF ==> inService == old(inService);
    }

    /** Code runs, interrupted as given: it does what it does once each, in order, each in the
        space of its own last switch; it ends in such a space too, with cr3 to match; and every
        interrupt delivered has been acknowledged once. */
    method Carry(doings: seq<Doing>)
      requires Consistent()
      modifies this
      ensures Consistent() && pageState == LastSpace(doings, old(pageState))
      ensures var course := CourseOf(doings, old(pageState), old(handled), kernel);
              history == old(history) + course.deeds && handled == course.handled
      ensures inService == old(inService)
      ensures acknowledged - old(acknowledged) == delivered - old(delivered) && delivered >= old(delivered)
      decreases doings, 0
    {
      for i := 0 to |doings|
        invariant Consistent() && pageState == LastSpace(doings[..i], old(pageState))
        invariant var course := CourseOf(doings[..i], old(pageState), old(handled), kernel);
                  history == old(history) + course.deeds && handled == course.handled
        invariant inService == old(inService)
        invariant acknowledged - old(acknowledged) == delivered - old(delivered) && delivered >= old(delivered)
      {
        assert doings[..i + 1][..i] == doings[..i];
        history := history + [Deed(doings[i], pageState)];
        match doings[i] {
          case SwitchTo(space) => SwitchToPageTable(space);
          case Register(vector, present) => handled := if present then handled + {vector} else handled - {vector};
          case Interrupted(vector, handler) => Deliver(vector, handler);
        }
      }
      assert doings[..|doings|] == doings;
    }
  }

  /** A handler that is not interrupted does what it does, once each and in order; until it
      switches, in the kernel's space. */
  lemma {:induction false} PlainCourse(doings: seq<Doing>, space: Space, handled: set<nat>, kernel: Space)
    requires forall i | 0 <= i < |doings| :: !doings[i].Interrupted?
    ensures var deeds := CourseOf(doings, space, handled, kernel).deeds;
            && |deeds| == |doings|
            && (forall i | 0 <= i < |doings| :: deeds[i].doing == doings[i])
            && (forall i | 0 <= i < |doings| && (forall j | 0 <= j < i :: doings[j].Register?) :: deeds[i].space == space)
    decreases |doings|
  {
    if doings != [] {
      var front := doings[..|doings| - 1];
      PlainCourse(front, space, handled, kernel);
      if forall j | 0 <= j < |front| :: doings[j].Register? {
        NoSwitch(front, space);
      }
    }
  }

  /** The last switch decides the space, through whatever comes after it. */
  lemma {:induction false} LastSwitchDecides(doings: seq<Doing>, j: nat, space: Space)
    requires j < |doings| && doings[j].SwitchTo? && forall k | j < k < |doings| :: !doings[k].SwitchTo?
    ensures LastSpace(doings, space) == doings[j].space
    decreases |doings|
  {
    if j < |doings| - 1 {
      LastSwitchDecides(doings[..|doings| - 1], j, space);
    }
  }

  lemma {:induction false} NoSwitch(doings: seq<Doing>, space: Space)
    requires forall j | 0 <= j < |doings| :: !doings[j].SwitchTo?
    ensures LastSpace(doings, space) == space
    decreases |doings|
  {
    if doings != [] {
      NoSwitch(doings[..|doings| - 1], space);
    }
  }

  /** An interrupt whose vector has a handler brings that handler's course, in the kernel's
      space; one whose vector has none brings nothing. */
  lemma InterruptCourse(vector: nat, handler: seq<Doing>, space: Space, handled: set<nat>, kernel: Space)
    ensures var c := CourseOf([Interrupted(vector, handler)], space, handled, kernel);
            if vector in handled then
              && c.deeds == [Deed(Interrupted(vector, handler), space)] + CourseOf(handler, kernel, handled, kernel).deeds
              && c.handled == CourseOf(handler, kernel, handled, kernel).handled
            else c == Course([Deed(Interrupted(vector, handler), space)], handled)
  {
    var doings := [Interrupted(vector, handler)];
    assert doings[..0] == [];
    assert CourseOf(doings[..0], space, handled, kernel) == Course([], handled);
  }
}

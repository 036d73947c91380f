/** Building the kernel's address space, as functions on memory and the allocator that follow
    the code step by step on every input, running out of frames included. */
module PageCopy {
  import opened Outcomes
  import opened Frames
  import opened PageTables

  /** What the code works on. */
  datatype Machine = Machine(mem: Memory, pool: Pool) {

    function Write(f: nat, i: nat, e: Entry): Machine
      requires i < 512
    {
      this.(mem := mem[f := Read(mem, f)[i := e]])
    }

    function Clear(f: nat): Machine {
      this.(mem := mem[f := Blank()])
    }

    /** The frame AllocatePages(1) answers with; frame 0 when it refuses. */
    function Offered(): nat {
      Address(Allocate(pool, 1).run) / PAGE_SIZE
    }

    function Taken(): Machine {
      this.(pool := Allocate(pool, 1).after)
    }
  }

  // ---- DeepCopyPageTables ------------------------------------------------------------

  /** The loop of DeepCopyPageTables from index i on. */
  function CopyTable(m: Machine, level: nat, src: nat, dst: nat, i: nat): Machine
    requires 1 <= level <= 3 && i <= 512
    decreases level, 512 - i, 1
  {
    if i == 512 then m else CopyTable(CopyEntry(m, level, src, dst, i), level, src, dst, i + 1)
  }

  /** One turn of it. A refused allocation is not noticed: frame 0 is cleared and linked. The
      source entry is read again after the new table has been cleared, and after it has been
      linked. */
  function CopyEntry(m: Machine, level: nat, src: nat, dst: nat, i: nat): Machine
    requires 1 <= level <= 3 && i < 512
    decreases level, 512 - i, 0
  {
    var e := Read(m.mem, src)[i];
    if !e.flags.present then m
    else if ((level == 3 || level == 2) && e.flags.huge) || level == 1 then m.Write(dst, i, e)
    else
      var linked := Linked(m, src, dst, i);
      CopyTable(linked, level - 1, Read(linked.mem, src)[i].frame, m.Offered(), 0)
  }

  /** A turn up to the recursive call: a table is taken, cleared and linked. */
  function Linked(m: Machine, src: nat, dst: nat, i: nat): Machine
    requires i < 512
  {
    var cleared := m.Taken().Clear(m.Offered());
    cleared.Write(dst, i, Entry(m.Offered(), Read(cleared.mem, src)[i].flags))
  }

  // ---- CopyExistingPageTableToNew ----------------------------------------------------

  /** The loop of CopyExistingPageTableToNew from index i on; None stands for its panic. */
  function CopyRoot(m: Machine, root: nat, cr3: nat, i: nat): Option<Machine>
    requires i <= 512
    decreases 512 - i
  {
    if i == 512 then Some(m)
    else match CopyRootEntry(m, root, cr3, i)
         case None => None
         case Some(n) => CopyRoot(n, root, cr3, i + 1)
  }

  /** One turn of it. The new table is not cleared, and is linked only once it is filled. */
  function CopyRootEntry(m: Machine, root: nat, cr3: nat, i: nat): Option<Machine>
    requires i < 512
  {
    var e := Read(m.mem, cr3)[i];
    if !e.flags.present then Some(m)
    else if m.Offered() == 0 then None
    else
      var filled := CopyTable(m.Taken(), 3, e.frame, m.Offered(), 0);
      Some(filled.Write(root, i, Entry(m.Offered(), Read(filled.mem, cr3)[i].flags)))
  }

  // ---- ReserveHigherHalfPML4Slots ----------------------------------------------------

  /** The loop of ReserveHigherHalfPML4Slots from index i on; None stands for its panic. */
  function Reserve(m: Machine, root: nat, i: nat): Option<Machine>
    requires i <= 512
    decreases 512 - i
  {
    if i == 512 then Some(m)
    else if Read(m.mem, root)[i].flags.present then Reserve(m, root, i + 1)
    else if m.Offered() == 0 then None
    else Reserve(ReserveSlot(m, root, i), root, i + 1)
  }

  function ReserveSlot(m: Machine, root: nat, i: nat): Machine
    requires i < 512
  {
    m.Taken().Clear(m.Offered()).Write(root, i, Entry(m.Offered(), RESERVED))
  }

  // ---- Initialize --------------------------------------------------------------------

  /** Taking and clearing the new root. */
  function TakeRoot(m: Machine): Machine {
    m.Taken().Clear(m.Offered())
  }

  /** The copy of the tables at cr3 below a new root. */
  function Copied(m: Machine, cr3: nat): Option<Machine> {
    if m.Offered() == 0 then None else CopyRoot(TakeRoot(m), m.Offered(), cr3, 0)
  }

  /** Initialize; the new root is m.Offered(). None stands for a panic. */
  function Boot(m: Machine, cr3: nat): Option<Machine> {
    match Copied(m, cr3)
    case None => None
    case Some(n) => Reserve(n, m.Offered(), 256)
  }

  // ---- Reserving, exactly ------------------------------------------------------------

  /** The root entries from index i on that are not present. */
  function OpenSlots(t: Table, i: nat): set<nat> {
    set k | i <= k < 512 && !t[k].flags.present
  }

  lemma OpenSlotsStep(t: Table, i: nat)
    requires i < 512
    ensures |OpenSlots(t, i)| == |OpenSlots(t, i + 1)| + if t[i].flags.present then 0 else 1
  {
    assert OpenSlots(t, i) == OpenSlots(t, i + 1) + if t[i].flags.present then {} else {i};
  }

  lemma OpenSlotsSame(t: Table, s: Table, i: nat)
    requires forall k | i <= k < 512 :: t[k] == s[k]
    ensures OpenSlots(t, i) == OpenSlots(s, i)
  {
  }

  /** The frame offered is free, and refusal means that none is. */
  lemma OfferedExact(m: Machine)
    requires m.pool.Valid()
    ensures m.Offered() == 0 <==> m.pool.FreeSet() == {}
    ensures m.Offered() == 0 ==> m.Taken() == m
    ensures m.Offered() != 0 ==>
              && m.pool.Free(m.Offered()) && m.Taken().pool == m.pool.(taken := m.pool.taken + {m.Offered()})
              && |m.Taken().pool.FreeSet()| == |m.pool.FreeSet()| - 1
    ensures m.Taken().pool.Valid()
  {
    OneFrame(m.pool);
    AllocateKeeps(m.pool, 1);
    WholePage(m.pool);
  }

  lemma WholePage(f: Pool)
    ensures Address(Allocate(f, 1).run) / PAGE_SIZE == match Allocate(f, 1).run case None => 0 case Some(p) => p
  {
  }

  /** Reserving succeeds exactly when there are as many free frames as open slots. */
  lemma {:induction false} ReserveExact(m: Machine, root: nat, i: nat)
    requires m.pool.Valid() && !m.pool.Free(root) && i <= 512
    ensures Reserve(m, root, i).Some? <==> |OpenSlots(Read(m.mem, root), i)| <= |m.pool.FreeSet()|
    decreases 512 - i
  {
    var t := Read(m.mem, root);
    if i == 512 {
      assert OpenSlots(t, i) == {};
    } else {
      OpenSlotsStep(t, i);
      OfferedExact(m);
      if t[i].flags.present {
        ReserveExact(m, root, i + 1);
      } else if m.Offered() != 0 {
        var n := ReserveSlot(m, root, i);
        OpenSlotsSame(t, Read(n.mem, root), i + 1);
        ReserveExact(n, root, i + 1);
      }
    }
  }
}

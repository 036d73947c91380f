/** The paging code itself: tables are read and written in place in physical memory. */
module Paging {
  import opened Outcomes
  import opened Frames
  import opened PhysicalMemory
  import opened PageTables
  import opened PageOps
  import opened PageMapping
  import opened PageRuns
  import opened MappedWords
  import opened PageWords
  import opened PageRange
  import opened PageCopy
  import opened DeepCopy
  import opened CopyResult
  import opened KernelSpace

  class Paging {
    /** Physical memory, reached in the source through the higher-half direct map. */
    var mem: Memory
    const pmm: PhysicalMemoryManager

    constructor (pmm: PhysicalMemoryManager, mem: Memory)
      ensures this.pmm == pmm && this.mem == mem
    {
      this.pmm := pmm;
      this.mem := mem;
    }

    /** The world around the address space whose tables are at the given places. */
    ghost function Around(at: map<Path, nat>): World
      reads this, pmm, pmm.reservedBitmap, pmm.allocatableBitmap
    {
      World(mem, at, pmm.View())
    }

    /** What every operation on an address space relies on. */
    ghost predicate Ready(at: map<Path, nat>, root: nat, base: set<nat>)
      reads this, pmm, pmm.reservedBitmap, pmm.allocatableBitmap
    {
      pmm.Valid() && pmm.frameCount <= FRAMES && Good(Around(at), root, base)
    }

    /** Writes one entry of a table. */
    method WriteEntry(table: nat, index: nat, entry: Entry)
      requires index < 512
      modifies this`mem
      ensures mem == old(mem)[table := Read(old(mem), table)[index := entry]]
      ensures pmm.View() == old(pmm.View()) && pmm.Valid() == old(pmm.Valid())
    {
      mem := mem[table := Read(mem, table)[index := entry]];
    }

    /** One level of MapPage: follows an entry, adding the table if there is none. */
    method NextTable(table: nat, index: nat, ghost at: map<Path, nat>, ghost root: nat, ghost base: set<nat>, ghost p: Path)
      returns (r: Outcome, next: nat, ghost at': map<Path, nat>)
      requires Ready(at, root, base) && p in at && at[p] == table && Depth(p) < 3 && index < 512
      requires !LeafAt(Depth(p), Around(at).Entries(p)[index])
      modifies this`mem, pmm`usableFrames, pmm.allocatableBitmap
      ensures pmm.Valid()
      ensures r.Done? <==> EnsureTable(old(Around(at)), p, index).Some?
      ensures r.Done? ==>
                && EnsureTable(old(Around(at)), p, index) == Some(Around(at'))
                && Child(p, index) in at' && next == at'[Child(p, index)]
    {
      at' := at;
      ghost var w := Around(at);
      EnsureTableKeeps(w, root, base, p, index);
      if Read(mem, table)[index] == ZERO {
        OneFrame(pmm.View());
        AddressExact(pmm.View(), 1);
        var address := pmm.AllocatePages(1);
        if address == 0 {
          return Panic("Failed to allocate memory for new table!"), 0, at';
        }
        var frame := address / PAGE_SIZE;
        assert w.pool.Free(frame) && frame !in w.at.Values && table in w.at.Values by { assert w.at[p] == table; }
        assert WellFormed(Entry(frame, DIRECTORY));
        mem := mem[frame := Blank()];
        WriteEntry(table, index, Entry(frame, DIRECTORY));
        at' := at[Child(p, index) := frame];
        assert Around(at') == Grow(w, p, index, frame);
      } else {
        assert Settled(w, p, index) && PointsTo(w, p, index);
      }
      next := Read(mem, table)[index].frame;
      assert PointsTo(Around(at'), p, index);
      r := Done;
    }

    /** Maps a virtual page. It panics exactly when an address is misaligned, the page is
        already mapped, or the frames for its missing tables run out. */
    method MapPage(root: nat, virtualAddress: nat, physicalAddress: nat, flags: Flags,
                   ghost at: map<Path, nat>, ghost base: set<nat>)
      returns (r: Outcome, ghost at': map<Path, nat>)
      requires Ready(at, root, base) && ClearPath(Around(at), SpotOf(virtualAddress))
      modifies this`mem, pmm`usableFrames, pmm.allocatableBitmap
      ensures pmm.Valid()
      ensures r.Done? <==>
              && virtualAddress % PAGE_SIZE == 0 && physicalAddress % PAGE_SIZE == 0
              && PageOps.MapPage(old(Around(at)), SpotOf(virtualAddress), LeafEntry(physicalAddress, flags)).Some?
      ensures r.Done? ==>
                PageOps.MapPage(old(Around(at)), SpotOf(virtualAddress), LeafEntry(physicalAddress, flags)) == Some(Around(at'))
      ensures r.Done? && WellFormed(Entry(0, flags)) ==> MappedTo(Around(at'), virtualAddress, physicalAddress, flags)
    {
      at' := at;
      ghost var w := Around(at);
      if virtualAddress % PAGE_SIZE != 0 {
        return Panic("Virtual address is not page-aligned!"), at';
      }
      if physicalAddress % PAGE_SIZE != 0 {
        return Panic("Physical address is not page-aligned!"), at';
      }
      var s := SpotOf(virtualAddress);
      var entry := LeafEntry(physicalAddress, flags);
      var pt;
      r, pt, at' := FindTable(root, s, at, base);
      if r.Panic? {
        return;
      }
      if Read(mem, pt)[s.i1].flags.present {
        return Panic("Virtual address is already mapped"), at';
      }
      WriteEntry(pt, s.i1, entry);
      MapPageExact(w, root, base, s, entry);
      if WellFormed(Entry(0, flags)) {
        MappedAsAsked(Around(at'), virtualAddress, physicalAddress, flags, entry);
      }
    }

    /** The walk of MapPage down to the page table. */
    method FindTable(root: nat, s: Spot, ghost at: map<Path, nat>, ghost base: set<nat>)
      returns (r: Outcome, pt: nat, ghost at': map<Path, nat>)
      requires Ready(at, root, base) && s.Valid() && ClearPath(Around(at), s)
      modifies this`mem, pmm`usableFrames, pmm.allocatableBitmap
      ensures pmm.Valid()
      ensures r.Done? <==> EnsurePath(old(Around(at)), s).Some?
      ensures r.Done? ==> EnsurePath(old(Around(at)), s) == Some(Around(at')) && P3(s) in at' && pt == at'[P3(s)]
    {
      ghost var w := Around(at);
      pt, at' := 0, at;
      EnsureTwo(w, root, base, s);
      PathAtDepth(s, 1);
      PathAtDepth(s, 2);
      var pdp, pd;
      ghost var a;
      r, pdp, at' := NextTable(root, s.i4, at', root, base, Root);
      if r.Panic? { return; }
      a := Around(at');
      r, pd, at' := NextTable(pdp, s.i3, at', root, base, P1(s));
      if r.Panic? { return; }
      AfterTwo(w, a, Around(at'), root, base, s);
      r, pt, at' := NextTable(pd, s.i2, at', root, base, P2(s));
    }

    method IsTableEmpty(table: nat) returns (empty: bool)
      ensures empty == TableEmpty(Read(mem, table))
    {
      for i := 0 to 512
        invariant forall j | 0 <= j < i :: !Read(mem, table)[j].flags.present
      {
        if Read(mem, table)[i].flags.present {
          return false;
        }
      }
      return true;
    }

    /** The walk of UnmapPage and GetPhysicalAddress down to the page table. */
    method WalkTo(root: nat, s: Spot, ghost at: map<Path, nat>, ghost base: set<nat>)
      returns (found: bool, pdp: nat, pd: nat, pt: nat)
      requires Ready(at, root, base) && s.Valid() && ClearPath(Around(at), s)
      ensures found <==> P3(s) in at
      ensures found ==> P1(s) in at && P2(s) in at && pdp == at[P1(s)] && pd == at[P2(s)] && pt == at[P3(s)]
    {
      ghost var w := Around(at);
      pdp, pd, pt := 0, 0, 0;
      PathPrefix(w, root, s);
      PathAtDepth(s, 1);
      PathAtDepth(s, 2);
      assert Settled(w, Root, s.i4);
      if !Read(mem, root)[s.i4].flags.present {
        return false, pdp, pd, pt;
      }
      pdp := Read(mem, root)[s.i4].frame;
      assert P1(s) in at && pdp == at[P1(s)];
      assert Settled(w, P1(s), s.i3);
      if !Read(mem, pdp)[s.i3].flags.present {
        return false, pdp, pd, pt;
      }
      pd := Read(mem, pdp)[s.i3].frame;
      assert P2(s) in at && pd == at[P2(s)];
      assert Settled(w, P2(s), s.i2);
      if !Read(mem, pd)[s.i2].flags.present {
        return false, pdp, pd, pt;
      }
      pt := Read(mem, pd)[s.i2].frame;
      return true, pdp, pd, pt;
    }

    /** Frees a table and clears the entry that led to it; the free never panics. */
    method FreeTable(table: nat, index: nat, child: nat, ghost at: map<Path, nat>, ghost root: nat, ghost base: set<nat>, ghost p: Path)
      returns (r: Outcome, ghost at': map<Path, nat>)
      requires Ready(at, root, base) && index < 512 && p in at && at[p] == table
      requires Child(p, index) in at && at[Child(p, index)] == child
      modifies this`mem, pmm`usableFrames, pmm.allocatableBitmap
      ensures r.Done? && pmm.Valid()
      ensures Around(at') == Cut(old(Around(at)), p, index)
    {
      ghost var w := Around(at);
      CutKeepsOwns(w, base, p, index);
      FrameOfTable(w, root, base, Child(p, index));
      r := pmm.FreePages(child * PAGE_SIZE, 1);
      WriteEntry(table, index, ZERO);
      at' := at - {Child(p, index)};
      CutParts(w, mem, pmm.View(), p, index);
    }

    /** The same for a table that has become empty, with what it keeps. */
    method DropTable(table: nat, index: nat, child: nat, ghost at: map<Path, nat>, ghost root: nat, ghost base: set<nat>, ghost p: Path)
      returns (r: Outcome, ghost at': map<Path, nat>)
      requires Ready(at, root, base) && index < 512 && p in at && at[p] == table
      requires Child(p, index) in at && at[Child(p, index)] == child
      requires TableEmpty(Around(at).Entries(Child(p, index)))
      modifies this`mem, pmm`usableFrames, pmm.allocatableBitmap
      ensures r.Done? && Ready(at', root, base)
      ensures Around(at') == Cut(old(Around(at)), p, index)
      ensures forall q | q in at && q != Child(p, index) :: q in at' && at'[q] == at[q]
    {
      CutStep(Around(at), root, base, p, index);
      r, at' := FreeTable(table, index, child, at, root, base, p);
    }

    /** The pruning of UnmapPage. */
    method PruneTables(root: nat, pdp: nat, pd: nat, pt: nat, s: Spot, ghost at: map<Path, nat>, ghost base: set<nat>)
      returns (r: Outcome, ghost at': map<Path, nat>)
      requires Ready(at, root, base) && s.Valid() && P3(s) in at
      requires P1(s) in at && P2(s) in at && pdp == at[P1(s)] && pd == at[P2(s)] && pt == at[P3(s)]
      modifies this`mem, pmm`usableFrames, pmm.allocatableBitmap
      ensures r.Done? && pmm.Valid()
      ensures Around(at') == Prune(old(Around(at)), s)
    {
      at' := at;
      var empty := IsTableEmpty(pt);
      if !empty { return Done, at'; }
      r, at' := DropTable(pd, s.i2, pt, at', root, base, P2(s));
      r, at' := PruneUpperTables(root, pdp, pd, s, at', base);
    }

    method PruneUpperTables(root: nat, pdp: nat, pd: nat, s: Spot, ghost at: map<Path, nat>, ghost base: set<nat>)
      returns (r: Outcome, ghost at': map<Path, nat>)
      requires Ready(at, root, base) && s.Valid() && P2(s) in at
      requires P1(s) in at && pdp == at[P1(s)] && pd == at[P2(s)]
      modifies this`mem, pmm`usableFrames, pmm.allocatableBitmap
      ensures r.Done? && pmm.Valid()
      ensures Around(at') == PruneAbove(old(Around(at)), s)
    {
      at' := at;
      var empty := IsTableEmpty(pd);
      if !empty { return Done, at'; }
      r, at' := DropTable(pdp, s.i3, pd, at', root, base, P1(s));
      empty := IsTableEmpty(pdp);
      if !empty || s.i4 >= 256 { return; }
      r, at' := DropTable(root, s.i4, pdp, at', root, base, Root);
    }

    /** Unmaps the page containing an address and frees the tables that become empty. It
        panics exactly when the page is not mapped; the frees never panic. */
    method UnmapPage(root: nat, virtualAddress: nat, ghost at: map<Path, nat>, ghost base: set<nat>)
      returns (r: Outcome, ghost at': map<Path, nat>)
      requires Ready(at, root, base) && ClearPath(Around(at), SpotOf(virtualAddress))
      modifies this`mem, pmm`usableFrames, pmm.allocatableBitmap
      ensures pmm.Valid()
      ensures r.Done? <==> PageOps.UnmapPage(old(Around(at)), SpotOf(virtualAddress)).Some?
      ensures r.Done? ==> PageOps.UnmapPage(old(Around(at)), SpotOf(virtualAddress)) == Some(Around(at'))
    {
      at' := at;
      var s := SpotOf(virtualAddress);
      var found, pdp, pd, pt := WalkTo(root, s, at, base);
      if !found || !Read(mem, pt)[s.i1].flags.present {
        return Panic("Attempted to unmap a virtual address that is not mapped"), at';
      }
      ghost var w := Around(at);
      PathAtDepth(s, 3);
      PutLeafKeeps(w, root, base, P3(s), s.i1, ZERO);
      PutEffect(w, P3(s), s.i1, ZERO);
      WriteEntry(pt, s.i1, ZERO);
      assert Around(at) == ClearLeaf(w, s);
      r, at' := PruneTables(root, pdp, pd, pt, s, at, base);
    }

    /** The physical address a virtual address translates to, 0 if it is not mapped. */
    method GetPhysicalAddress(root: nat, virtualAddress: nat, ghost at: map<Path, nat>, ghost base: set<nat>)
      returns (physicalAddress: nat)
      requires Ready(at, root, base) && ClearPath(Around(at), SpotOf(virtualAddress))
      ensures physicalAddress ==
              match Lookup(Around(at), SpotOf(virtualAddress))
              case None => 0
              case Some(hit) => hit.leaf.frame * PAGE_SIZE + virtualAddress % PAGE_SIZE
    {
      var s := SpotOf(virtualAddress);
      LookupIffMapped(Around(at), root, s);
      var found, pdp, pd, pt := WalkTo(root, s, at, base);
      if !found || !Read(mem, pt)[s.i1].flags.present {
        return 0;
      }
      return Read(mem, pt)[s.i1].frame * PAGE_SIZE + virtualAddress % PAGE_SIZE;
    }

    /** True for every mapped address but one: a page mapped to frame 0 looks unmapped at
        its first byte. */
    method IsMapped(root: nat, virtualAddress: nat, ghost at: map<Path, nat>, ghost base: set<nat>)
      returns (mapped: bool)
      requires Ready(at, root, base) && ClearPath(Around(at), SpotOf(virtualAddress))
      ensures mapped <==>
              var hit := Lookup(Around(at), SpotOf(virtualAddress));
              hit.Some? && !(hit.value.leaf.frame == 0 && virtualAddress % PAGE_SIZE == 0)
    {
      var physicalAddress := GetPhysicalAddress(root, virtualAddress, at, base);
      return physicalAddress != 0;
    }

    /** The scan of FindAvailableVirtualAddressRange, probe by probe. */
    method Scan(root: nat, start: nat, probes: nat, pageCount: nat, ghost at: map<Path, nat>, ghost base: set<nat>)
      returns (found: Option<nat>)
      requires Ready(at, root, base)
      requires forall i | 0 <= i < probes :: ClearPath(Around(at), SpotOf(Probe(start, i)))
      ensures LowestRun(Around(at), start, probes, pageCount, found)
    {
      var page, foundPages := 0, 0;
      ghost var w := Around(at);
      while page < probes
        invariant Scanned(w, start, page, foundPages, pageCount)
      {
        var mapped := IsMapped(root, Probe(start, page), at, base);
        if !mapped {
          foundPages := foundPages + 1;
          if foundPages == pageCount {
            ScanFound(w, start, probes, page, foundPages - 1, pageCount);
            return Some(page - (pageCount - 1));
          }
          ScanFree(w, start, page, foundPages - 1, pageCount);
        } else {
          ScanTaken(w, start, page, foundPages, pageCount);
          foundPages := 0;
        }
        page := page + 1;
      }
      ScanEnd(w, start, probes, page, foundPages, pageCount);
      return None;
    }

    /** The lowest range of pageCount pages of the window that all seem free. None stands for
        the panic: there is no such range, or no pages were asked for. The window must end early
        enough for the scan not to wrap. */
    method FindAvailableVirtualAddressRange(root: nat, start: nat, end: nat, pageCount: nat,
                                            ghost at: map<Path, nat>, ghost base: set<nat>)
      returns (range: Option<(nat, nat)>)
      requires Ready(at, root, base)
      requires forall a: nat | OnGrid(start, a) && a < end :: a + PAGE_SIZE < WORD && ClearPath(Around(at), SpotOf(a))
      ensures Answers(Around(at), start, end, pageCount, range)
    {
      forall i | 0 <= i < Probes(start, end) ensures ClearPath(Around(at), SpotOf(Probe(start, i))) {
        ProbesExact(start, end, i);
        assert OnGrid(start, Probe(start, i));
      }
      var found := Scan(root, start, Probes(start, end), pageCount, at, base);
      LowestIsAnswer(Around(at), start, end, pageCount, found);
      match found
      case None => range := None;
      case Some(i) => range := Some((Probe(start, i), Probe(start, i) + pageCount * PAGE_SIZE));
    }

    /** The search in the kernel's window, which ends a page below the top of the address
        space, so the scan never wraps. */
    method FindAvailableVirtualAddressRangeKernel(root: nat, count: nat, ghost at: map<Path, nat>, ghost base: set<nat>)
      returns (range: Option<(nat, nat)>)
      requires Ready(at, root, base)
      requires forall a: nat | OnGrid(0xFFFF_FFFF_8000_0000, a) && a < 0xFFFF_FFFF_FFFF_F000 :: ClearPath(Around(at), SpotOf(a))
      ensures Answers(Around(at), 0xFFFF_FFFF_8000_0000, 0xFFFF_FFFF_FFFF_F000, count, range)
    {
      KernelWindowEnds();
      range := FindAvailableVirtualAddressRange(root, KERNEL_START, KERNEL_END, count, at, base);
    }

    // ---- Building the kernel's address space; what the functions named here mean is the
    // ---- subject of the modules PageCopy, DeepCopy, CopyResult and KernelSpace ----------

    ghost function State(): Machine
      reads this, pmm, pmm.reservedBitmap, pmm.allocatableBitmap
    {
      Machine(mem, pmm.View())
    }

    /** One frame from the allocator; 0 if there is none. */
    method TakeFrame() returns (frame: nat)
      requires pmm.Valid()
      modifies pmm`usableFrames, pmm.allocatableBitmap
      ensures pmm.Valid() && frame == old(State()).Offered() && State() == old(State()).Taken()
    {
      var address := pmm.AllocatePages(1);
      return address / PAGE_SIZE;
    }

    method ClearTable(frame: nat)
      modifies this`mem
      ensures State() == old(State()).Clear(frame) && pmm.Valid() == old(pmm.Valid())
    {
      mem := mem[frame := Blank()];
    }

    /** Fills the higher-half root entries that are not present with cleared tables, so that
        later address spaces can share them. */
    method ReserveHigherHalfPML4Slots(root: nat) returns (r: Outcome)
      requires pmm.Valid()
      modifies this`mem, pmm`usableFrames, pmm.allocatableBitmap
      ensures pmm.Valid()
      ensures r.Done? <==> Reserve(old(State()), root, 256).Some?
      ensures r.Done? ==> Reserve(old(State()), root, 256) == Some(State())
    {
      var i := 256;
      while i < 512
        invariant 256 <= i <= 512 && pmm.Valid()
        invariant Reserve(old(State()), root, 256) == Reserve(State(), root, i)
      {
        if !Read(mem, root)[i].flags.present {
          ghost var m := State();
          var pdpPhys := TakeFrame();
          if pdpPhys == 0 {
            return Panic("Failed to allocate memory for reserved PDP table!");
          }
          ClearTable(pdpPhys);
          WriteEntry(root, i, Entry(pdpPhys, RESERVED));
          assert State() == ReserveSlot(m, root, i);
        }
        i := i + 1;
      }
      return Done;
    }

    /** Copies the tables below the table srcPhys into the table dstPhys. Only present entries
        are written, so the destination keeps its other entries; and no allocation is
        checked. */
    method DeepCopyPageTables(level: nat, srcPhys: nat, dstPhys: nat)
      requires pmm.Valid() && 1 <= level <= 3
      modifies this`mem, pmm`usableFrames, pmm.allocatableBitmap
      ensures pmm.Valid() && State() == CopyTable(old(State()), level, srcPhys, dstPhys, 0)
      decreases level, 1
    {
      for i := 0 to 512
        invariant pmm.Valid()
        invariant CopyTable(old(State()), level, srcPhys, dstPhys, 0) == CopyTable(State(), level, srcPhys, dstPhys, i)
      {
        CopyOneEntry(level, srcPhys, dstPhys, i);
      }
    }

    /** One turn of its loop. */
    method CopyOneEntry(level: nat, srcPhys: nat, dstPhys: nat, i: nat)
      requires pmm.Valid() && 1 <= level <= 3 && i < 512
      modifies this`mem, pmm`usableFrames, pmm.allocatableBitmap
      ensures pmm.Valid() && State() == CopyEntry(old(State()), level, srcPhys, dstPhys, i)
      decreases level, 0
    {
      var entry := Read(mem, srcPhys)[i];
      if !entry.flags.present {
        return;
      }
      if (level == 3 || level == 2) && entry.flags.huge {
        WriteEntry(dstPhys, i, entry);
        return;
      }
      if level == 1 {
        WriteEntry(dstPhys, i, entry);
        return;
      }
      var newTablePhys := TakeFrame();
      ClearTable(newTablePhys);
      WriteEntry(dstPhys, i, Entry(newTablePhys, Read(mem, srcPhys)[i].flags));
      DeepCopyPageTables(level - 1, Read(mem, srcPhys)[i].frame, newTablePhys);
    }

    /** Copies the page tables the bootloader left in use, rooted at cr3, below a new root. The
        tables directly below the root are not cleared before they are filled. */
    method CopyExistingPageTableToNew(root: nat, cr3: nat) returns (r: Outcome)
      requires pmm.Valid()
      modifies this`mem, pmm`usableFrames, pmm.allocatableBitmap
      ensures pmm.Valid()
      ensures r.Done? <==> CopyRoot(old(State()), root, cr3, 0).Some?
      ensures r.Done? ==> CopyRoot(old(State()), root, cr3, 0) == Some(State())
    {
      for i := 0 to 512
        invariant pmm.Valid()
        invariant CopyRoot(old(State()), root, cr3, 0) == CopyRoot(State(), root, cr3, i)
      {
        r := CopyOneRootEntry(root, cr3, i);
        if r.Panic? {
          return;
        }
      }
      return Done;
    }

    /** One turn of its loop. */
    method CopyOneRootEntry(root: nat, cr3: nat, i: nat) returns (r: Outcome)
      requires pmm.Valid() && i < 512
      modifies this`mem, pmm`usableFrames, pmm.allocatableBitmap
      ensures pmm.Valid()
      ensures r.Done? <==> CopyRootEntry(old(State()), root, cr3, i).Some?
      ensures r.Done? ==> CopyRootEntry(old(State()), root, cr3, i) == Some(State())
    {
      var entry := Read(mem, cr3)[i];
      if !entry.flags.present {
        return Done;
      }
      var srcPhys := entry.frame;
      var dstPhys := TakeFrame();
      if dstPhys == 0 {
        return Panic("Failed to allocate memory for page table during deep copy!");
      }
      DeepCopyPageTables(3, srcPhys, dstPhys);
      WriteEntry(root, i, Entry(dstPhys, Read(mem, cr3)[i].flags));
      return Done;
    }

    /** Builds the kernel's address space from the one the bootloader left, whose tables are
        img in the frames srcAt. From zero level-3 frames it translates as that one did, is fit
        for every other operation, and has its higher half filled. */
    method Initialize(cr3: nat, ghost img: Image, ghost srcAt: map<Path, nat>)
      returns (r: Outcome, root: nat, ghost at: map<Path, nat>)
      requires pmm.Valid()
      modifies this`mem, pmm`usableFrames, pmm.allocatableBitmap
      ensures pmm.Valid()
      ensures r.Done? <==> Boot(old(State()), cr3).Some?
      ensures r.Done? ==> root == old(State()).Offered() && Boot(old(State()), cr3) == Some(State())
      ensures CanBoot(old(State()), img, srcAt) && srcAt[Root] == cr3 ==>
                (r.Done? <==> |img| + |Unused(img)| <= |old(State()).pool.FreeSet()|)
      ensures r.Done? && CanBoot(old(State()), img, srcAt) && srcAt[Root] == cr3 && ZeroStart(TakeRoot(old(State())), img)
              && pmm.frameCount <= FRAMES ==>
                && Ready(at, root, old(State()).pool.taken) && HighSlotsFilled(Around(at))
                && Alike(mem, root, old(mem), cr3)
    {
      ghost var m := State();
      at := map[];
      if CanBoot(m, img, srcAt) && srcAt[Root] == cr3 {
        BootWithRoom(m, img, srcAt);
        if ZeroStart(TakeRoot(m), img) && Boot(m, cr3).Some? {
          var v := BootSound(m, img, srcAt);
          at := v.at;
        }
      }
      r, root := InitializeTables(cr3);
    }

    /** The code of Initialize. */
    method InitializeTables(cr3: nat) returns (r: Outcome, root: nat)
      requires pmm.Valid()
      modifies this`mem, pmm`usableFrames, pmm.allocatableBitmap
      ensures pmm.Valid() && pmm.frameCount == old(pmm.frameCount)
      ensures r.Done? <==> Boot(old(State()), cr3).Some?
      ensures r.Done? ==> root == old(State()).Offered() && Boot(old(State()), cr3) == Some(State())
    {
      root := TakeFrame();
      if root == 0 {
        return Panic("Failed to allocate memory for kernel PML4!"), root;
      }
      ClearTable(root);
      r := CopyExistingPageTableToNew(root, cr3);
      if r.Panic? {
        return;
      }
      r := ReserveHigherHalfPML4Slots(root);
    }
  }

  lemma CutParts(w: World, mem: Memory, pool: Pool, p: Path, i: nat)
    requires p in w.at && i < 512 && Child(p, i) in w.at
    requires mem == w.mem[w.at[p] := w.Entries(p)[i := ZERO]]
    requires pool == Release(w.pool, w.at[Child(p, i)], 1)
    ensures World(mem, w.at - {Child(p, i)}, pool) == Cut(w, p, i)
  {
  }

  const KERNEL_START: nat := 0xFFFF_FFFF_8000_0000
  const KERNEL_END: nat := 0xFFFF_FFFF_FFFF_F000

  lemma KernelWindowEnds()
    ensures forall a: nat | OnGrid(KERNEL_START, a) && a < KERNEL_END :: a + PAGE_SIZE < WORD
  {
    forall a: nat | OnGrid(KERNEL_START, a) && a < KERNEL_END ensures a + PAGE_SIZE < WORD {
      assert (a - KERNEL_START) % 0x1000 == 0 && a - KERNEL_START < 0x7FFF_F000;
    }
  }

  /** A table's frame is one of the allocator's, and never frame 0. */
  lemma FrameOfTable(w: World, root: nat, base: set<nat>, p: Path)
    requires Good(w, root, base) && p in w.at
    ensures 0 < w.at[p] < w.pool.count
  {
    assert w.at[p] in w.at.Values;
  }

  /** (physicalAddress & PointerMask) | flags | Present. */
  function LeafEntry(physicalAddress: nat, flags: Flags): Entry {
    Entry(physicalAddress / PAGE_SIZE % FRAMES, flags.(present := true))
  }
}

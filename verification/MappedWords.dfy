/** What mapping means on 64-bit words and addresses: the word that MapPage writes, the address
    that every byte of the page then has, and the words of the tables it adds. */
module MappedWords {
  import opened Outcomes
  import opened Bits
  import opened PageTables
  import opened PageOps
  import opened PageMapping
  import opened PageRuns
  import opened PageWords
  import opened Frames
  import opened PageCopy
  import opened DeepCopy
  import opened KernelSpace

  lemma {:induction false} OrZero(x: nat)
    ensures Or(x, 0) == x && Or(0, x) == x
  {
  }

  lemma OrOne(x: nat)
    ensures Or(x, 1) == if x % 2 == 1 then x else x + 1
  {
    if x > 0 {
      OrStep(x, 1);
      OrZero(x / 2);
    }
  }

  /** flags | Present sets the present bit and no other. */
  lemma OrPresent(flags: Flags)
    requires WellFormed(Entry(0, flags))
    ensures Or(Word(Entry(0, flags)), 1) == Word(Entry(0, flags.(present := true)))
  {
    OrOne(Word(Entry(0, flags)));
    assert Word(Entry(0, flags)) % 2 == Bit(flags.present);
  }

  /** physicalAddress & PointerMask drops the offset and the bits above 52. */
  lemma MaskAddress(pa: nat)
    ensures And(pa, 0x000F_FFFF_FFFF_F000) == pa / 0x1000 % 0x100_0000_0000 * 0x1000
  {
    var b, f, h := pa % 4096, pa / 4096 % FRAMES, pa / 4096 / FRAMES;
    assert pa / 4096 == f + FRAMES * h;
    assert pa == b + 4096 * (f + FRAMES * h);
    MaskPointer(b, f, h, FRAMES - 1);
  }

  /** An entry whose word is (physicalAddress & PointerMask) | (flags | Present). */
  ghost predicate WritesWord(e: Entry, pa: nat, flags: Flags) {
    Word(e) == Or(And(pa, 0x000F_FFFF_FFFF_F000), Or(Word(Entry(0, flags)), 1))
  }

  /** There is one such entry. */
  lemma WordOfLeaf(pa: nat, flags: Flags)
    requires WellFormed(Entry(0, flags))
    ensures WritesWord(Entry(pa / 0x1000 % 0x100_0000_0000, flags.(present := true)), pa, flags)
  {
    OrPresent(flags);
    MaskAddress(pa);
    OrBuildsEntry(pa / 0x1000 % FRAMES, flags.(present := true));
  }

  lemma WordDecides(e: Entry, pa: nat, flags: Flags)
    requires WellFormed(e) && WellFormed(Entry(0, flags)) && WritesWord(e, pa, flags)
    ensures e == Entry(pa / 0x1000 % 0x100_0000_0000, flags.(present := true))
  {
    WordOfLeaf(pa, flags);
    EntriesAreWords(e);
    EntriesAreWords(Entry(pa / 0x1000 % FRAMES, flags.(present := true)));
  }

  /** The bytes of a page have its indices. */
  lemma SpotOfByte(va: nat, k: nat)
    requires va % 0x1000 == 0 && k < 0x1000
    ensures SpotOf(va + k) == SpotOf(va) && (va + k) % 0x1000 == k
  {
    assert (va + k) / 0x1000 == va / 0x1000;
    NestedQuotients(va);
    NestedQuotients(va + k);
  }

  /** What a page table walk and the offset make of a virtual address. */
  function PhysicalOf(w: World, va: nat): nat {
    match Lookup(w, SpotOf(va))
    case None => 0
    case Some(hit) => hit.leaf.frame * 0x1000 + va % 0x1000
  }

  /** What a mapping of a virtual page to a physical one comes to: every byte of the page has
      the address of the same byte there, and the entry written is the word the code computes. */
  ghost predicate MappedTo(w: World, va: nat, pa: nat, flags: Flags) {
    && Lookup(w, SpotOf(va)).Some? && WritesWord(Lookup(w, SpotOf(va)).value.leaf, pa, flags)
    && (pa < 0x10_0000_0000_0000 ==> forall x: nat | va <= x < va + 0x1000 :: PhysicalOf(w, x) == pa + (x - va))
  }

  lemma MappedAsAsked(w: World, va: nat, pa: nat, flags: Flags, e: Entry)
    requires va % 0x1000 == 0 && pa % 0x1000 == 0 && WellFormed(Entry(0, flags))
    requires e == Entry(pa / 0x1000 % 0x100_0000_0000, flags.(present := true))
    requires Lookup(w, SpotOf(va)).Some? && Lookup(w, SpotOf(va)).value.leaf == e
    ensures MappedTo(w, va, pa, flags)
  {
    WordOfLeaf(pa, flags);
    if pa < 0x10_0000_0000_0000 {
      forall x: nat | va <= x < va + 0x1000 ensures PhysicalOf(w, x) == pa + (x - va) {
        SpotOfByte(va, x - va);
        WholeAddress(pa);
      }
    }
  }

  lemma WholeAddress(pa: nat)
    requires pa % 0x1000 == 0 && pa < 0x10_0000_0000_0000
    ensures pa / 0x1000 % 0x100_0000_0000 * 0x1000 == pa
  {
    var f := pa / 0x1000;
    assert pa == f * 0x1000 && f < 0x100_0000_0000;
  }

  /** A higher-half slot filled at boot has its table's address with Present and ReadWrite, and
      no access from user mode. */
  lemma ReservedSlotsGrant(w: World, v: World, root: nat, base: set<nat>, k: nat)
    requires Reserved(w, v, root, base, 256) && 256 <= k < 512 && w.Entries(Root)[k] == ZERO
    ensures Child(Root, k) in v.at && Word(v.Entries(Root)[k]) == v.at[Child(Root, k)] * 0x1000 + 3
  {
    assert NewSlot(v, k);
  }

  // ---- The tables added --------------------------------------------------------------

  /** The word of an entry that leads to a new table: its address with Present, ReadWrite and
      User. */
  ghost predicate GrantsAll(w: World, q: Path, j: nat)
    requires j < 512
  {
    Child(q, j) in w.at && Word(w.Entries(q)[j]) == w.at[Child(q, j)] * 0x1000 + 7
  }

  /** MapPage links every table it adds with a word that grants everything; the page's own
      entry decides. */
  lemma AddedTablesGrant(w: World, root: nat, base: set<nat>, s: Spot, e: Entry)
    requires Good(w, root, base) && s.Valid() && ClearPath(w, s) && e.flags.present && MapPage(w, s, e).Some?
    ensures var v := MapPage(w, s, e).value;
            forall q, j: nat | j < 512 && Child(q, j) in v.at && Child(q, j) !in w.at :: GrantsAll(v, q, j)
  {
    var v3, v := EnsurePath(w, s).value, MapPage(w, s, e).value;
    EnsurePathKeeps(w, root, base, s);
    var a, b := Levels(w, root, base, s);
    ChainGrants(w, a, b, v3, root, base, s);
    PathAtDepth(s, 3);
    forall q, j: nat | j < 512 && Child(q, j) in v.at && Child(q, j) !in w.at ensures GrantsAll(v, q, j) {
      assert GrantsAll(v3, q, j);
      assert Depth(Child(q, j)) <= 3;
      PutOther(v3, root, base, P3(s), s.i1, e, q);
    }
  }

  lemma GrowGrants(w: World, root: nat, base: set<nat>, p: Path, i: nat, v: World)
    requires Good(w, root, base) && p in w.at && i < 512 && FoundOrAdded(w, v, p, i)
    ensures Child(p, i) !in w.at ==> GrantsAll(v, p, i)
    ensures v.at.Keys <= w.at.Keys + {Child(p, i)}
  {
    if Child(p, i) !in w.at {
      var f: nat :| w.pool.Free(f) && v == Grow(w, p, i, f);
      assert f !in w.at.Values;
      GrowEffect(w, root, base, p, i, f);
      assert Word(Entry(f, Flags(true, false, 3, 0, 0))) == f * 0x1000 + 7;
    }
  }

  /** An entry that leads to a table is not touched by later steps. */
  lemma StillGrants(w: World, v: World, q: Path, j: nat)
    requires j < 512 && GrantsAll(w, q, j) && q in w.at && Grown(w, v) && w.Entries(q)[j] != ZERO
    ensures GrantsAll(v, q, j)
  {
  }

  lemma ChainGrants(w: World, a: World, b: World, v: World, root: nat, base: set<nat>, s: Spot)
    requires Good(w, root, base) && Good(a, root, base) && Good(b, root, base) && Good(v, root, base) && s.Valid()
    requires P1(s) in a.at && P2(s) in b.at
    requires FoundOrAdded(w, a, Root, s.i4) && FoundOrAdded(a, b, P1(s), s.i3) && FoundOrAdded(b, v, P2(s), s.i2)
    ensures forall q, j: nat | j < 512 && Child(q, j) in v.at && Child(q, j) !in w.at :: GrantsAll(v, q, j)
  {
    GrowGrants(w, root, base, Root, s.i4, a);
    GrowGrants(a, root, base, P1(s), s.i3, b);
    GrowGrants(b, root, base, P2(s), s.i2, v);
    forall q, j: nat | j < 512 && Child(q, j) in v.at && Child(q, j) !in w.at ensures GrantsAll(v, q, j) {
      if Child(q, j) in b.at {
        if Child(q, j) in a.at {
          assert GrantsAll(a, q, j);
          StepGrants(a, b, root, base, P1(s), s.i3, q, j);
        }
        assert GrantsAll(b, q, j);
        StepGrants(b, v, root, base, P2(s), s.i2, q, j);
      }
    }
  }

  lemma StepGrants(w: World, v: World, root: nat, base: set<nat>, p: Path, i: nat, q: Path, j: nat)
    requires Good(w, root, base) && p in w.at && i < 512 && FoundOrAdded(w, v, p, i)
    requires j < 512 && GrantsAll(w, q, j)
    ensures GrantsAll(v, q, j)
  {
    assert q in w.at && PointsTo(w, q, j);
    if Child(p, i) !in w.at {
      var f: nat :| w.pool.Free(f) && v == Grow(w, p, i, f);
      assert f !in w.at.Values;
      GrowEffect(w, root, base, p, i, f);
    }
  }
}

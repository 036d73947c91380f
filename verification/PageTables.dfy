/** Four-level page tables in physical memory, and the tree they form. */
module PageTables {
  import opened Outcomes
  import opened Frames

  /** The flag bits of an entry: bit 0, bit 7, bits 1-6, bits 8-11 and bits 52-63. */
  datatype Flags = Flags(present: bool, huge: bool, low: nat, mid: nat, high: nat)

  /** A 64-bit entry: a 40-bit frame number and flags; see the module PageWords. */
  datatype Entry = Entry(frame: nat, flags: Flags)

  const ZERO := Entry(0, Flags(false, false, 0, 0, 0))

  /** Present | ReadWrite | User, the flags MapPage gives the tables it adds. */
  const DIRECTORY := Flags(true, false, 3, 0, 0)

  /** Present | ReadWrite, the flags of the reserved higher-half slots. */
  const RESERVED := Flags(true, false, 1, 0, 0)

  type Table = t: seq<Entry> | |t| == 512 witness seq(512, _ => ZERO)

  /** A cleared table. */
  function Blank(): (t: Table)
    ensures forall i | 0 <= i < 512 :: t[i] == ZERO
  {
    seq(512, _ => ZERO)
  }

  /** Physical memory by frame number; a frame not in the map holds only zeros. */
  type Memory = map<nat, Table>

  function Read(mem: Memory, f: nat): Table {
    if f in mem then mem[f] else Blank()
  }

  /** Where a table sits: the root, or the table an index of another table leads to. */
  datatype Path = Root | Child(parent: Path, index: nat)

  function Depth(p: Path): nat {
    match p
    case Root => 0
    case Child(q, _) => 1 + Depth(q)
  }

  /** The four table indices of a virtual page. */
  datatype Spot = Spot(i4: nat, i3: nat, i2: nat, i1: nat) {
    predicate Valid() { i4 < 512 && i3 < 512 && i2 < 512 && i1 < 512 }
  }

  function P1(s: Spot): Path { Child(Root, s.i4) }

  function P2(s: Spot): Path { Child(P1(s), s.i3) }

  function P3(s: Spot): Path { Child(P2(s), s.i2) }

  /** Physical memory, the frame of each table of one address space, and the allocator. */
  datatype World = World(mem: Memory, at: map<Path, nat>, pool: Pool) {

    function Frame(p: Path): nat { if p in at then at[p] else 0 }

    function Entries(p: Path): Table { Read(mem, Frame(p)) }

    function Put(p: Path, i: nat, e: Entry): World
      requires i < 512
    {
      this.(mem := mem[Frame(p) := Entries(p)[i := e]])
    }
  }

  /** Whether translation stops at an entry of a table at depth d: page-table entries, and
      the 1 GiB and 2 MiB pages of the two levels above. */
  predicate LeafAt(d: nat, e: Entry) {
    d == 3 || (d > 0 && e.flags.huge)
  }

  predicate PointsTo(w: World, p: Path, i: nat)
    requires i < 512
  {
    var e := w.Entries(p)[i];
    e.flags.present && !LeafAt(Depth(p), e) && e.frame == w.Frame(Child(p, i))
  }

  /** An entry is zero, a page, or leads to a table. */
  predicate Settled(w: World, p: Path, i: nat)
    requires i < 512
  {
    var e := w.Entries(p)[i];
    e == ZERO || (e.flags.present && (LeafAt(Depth(p), e) || Child(p, i) in w.at))
  }

  /** The map `at` lists exactly the tables reachable from the root. */
  ghost predicate Tree(w: World, root: nat) {
    && Root in w.at && w.at[Root] == root
    && (forall p | p in w.at :: Depth(p) <= 3)
    && (forall p, i | Child(p, i) in w.at :: p in w.at && i < 512 && PointsTo(w, p, i))
    && (forall p, i: nat | p in w.at && i < 512 :: Settled(w, p, i))
  }

  /** No table is reached by two ways. */
  ghost predicate Distinct(at: map<Path, nat>) {
    forall p, q | p in at && q in at && at[p] == at[q] :: p == q
  }

  /** The frames handed out are those of the tables and, apart from them, those in base. */
  ghost predicate Owns(w: World, base: set<nat>) {
    && w.pool.Valid()
    && w.pool.taken == base + w.at.Values
    && base !! w.at.Values
  }

  ghost predicate Good(w: World, root: nat, base: set<nat>) {
    Tree(w, root) && Distinct(w.at) && Owns(w, base)
  }

  // ---- Translation -----------------------------------------------------------------

  /** Where translation ends: the level, the entry found, and the flags met on the way. */
  datatype Hit = Hit(depth: nat, leaf: Entry, flags: seq<Flags>)

  function IndexAt(s: Spot, d: nat): nat {
    if d == 0 then s.i4 else if d == 1 then s.i3 else if d == 2 then s.i2 else s.i1
  }

  /** The processor's walk, from a table at depth d in frame f. */
  function Translate(mem: Memory, f: nat, d: nat, s: Spot, met: seq<Flags>): Option<Hit>
    requires s.Valid() && d <= 3
    decreases 3 - d
  {
    var e := Read(mem, f)[IndexAt(s, d)];
    if !e.flags.present then None
    else if LeafAt(d, e) then Some(Hit(d, e, met + [e.flags]))
    else Translate(mem, e.frame, d + 1, s, met + [e.flags])
  }

  function PathAt(s: Spot, d: nat): Path {
    if d == 0 then Root else if d == 1 then P1(s) else if d == 2 then P2(s) else P3(s)
  }

  /** The same walk through the tables named by their places. */
  function Walk(w: World, d: nat, s: Spot, met: seq<Flags>): Option<Hit>
    requires s.Valid() && d <= 3
    decreases 3 - d
  {
    var e := w.Entries(PathAt(s, d))[IndexAt(s, d)];
    if !e.flags.present then None
    else if LeafAt(d, e) then Some(Hit(d, e, met + [e.flags]))
    else Walk(w, d + 1, s, met + [e.flags])
  }

  lemma PathAtDepth(s: Spot, d: nat)
    requires d <= 3
    ensures Depth(PathAt(s, d)) == d
    ensures d < 3 ==> PathAt(s, d + 1) == Child(PathAt(s, d), IndexAt(s, d))
  {
    assert Depth(P1(s)) == 1 && Depth(P2(s)) == 2 && Depth(P3(s)) == 3;
  }

  /** In a tree the two walks agree. */
  lemma {:induction false} WalkIsTranslate(w: World, root: nat, d: nat, s: Spot, met: seq<Flags>)
    requires Tree(w, root) && s.Valid() && d <= 3 && PathAt(s, d) in w.at
    ensures Walk(w, d, s, met) == Translate(w.mem, w.at[PathAt(s, d)], d, s, met)
    decreases 3 - d
  {
    var p, i := PathAt(s, d), IndexAt(s, d);
    var e := w.Entries(p)[i];
    PathAtDepth(s, d);
    assert Settled(w, p, i);
    if e.flags.present && !LeafAt(d, e) {
      assert Child(p, i) in w.at && PointsTo(w, p, i);
      WalkIsTranslate(w, root, d + 1, s, met + [e.flags]);
    }
  }

  /** What a virtual page translates to. */
  function Lookup(w: World, s: Spot): Option<Hit>
    requires s.Valid()
  {
    Walk(w, 0, s, [])
  }

  /** Two worlds whose tables along a page's path agree translate it alike. */
  lemma {:induction false} SameWalk(v: World, w: World, d: nat, s: Spot, met: seq<Flags>)
    requires s.Valid() && d <= 3
    requires forall k | d <= k <= 3 :: v.Entries(PathAt(s, k))[IndexAt(s, k)] == w.Entries(PathAt(s, k))[IndexAt(s, k)]
    ensures Walk(v, d, s, met) == Walk(w, d, s, met)
    decreases 3 - d
  {
    assert v.Entries(PathAt(s, d))[IndexAt(s, d)] == w.Entries(PathAt(s, d))[IndexAt(s, d)];
    if d < 3 {
      SameWalk(v, w, d + 1, s, met + [w.Entries(PathAt(s, d))[IndexAt(s, d)].flags]);
    }
  }

  /** A page is mapped by a page-table entry. */
  predicate Mapped(w: World, s: Spot)
    requires s.Valid()
  {
    P3(s) in w.at && w.Entries(P3(s))[s.i1].flags.present
  }

  /** No 1 GiB or 2 MiB page lies on the page's path. */
  predicate ClearPath(w: World, s: Spot)
    requires s.Valid()
  {
    && (P1(s) in w.at ==> !w.Entries(P1(s))[s.i3].flags.huge)
    && (P2(s) in w.at ==> !w.Entries(P2(s))[s.i2].flags.huge)
  }

  /** The prefix closure of the tree along one path. */
  lemma PathPrefix(w: World, root: nat, s: Spot)
    requires Tree(w, root) && s.Valid()
    ensures P3(s) in w.at ==> P2(s) in w.at && PointsTo(w, P2(s), s.i2)
    ensures P2(s) in w.at ==> P1(s) in w.at && PointsTo(w, P1(s), s.i3)
    ensures P1(s) in w.at ==> PointsTo(w, Root, s.i4)
  {
  }

  /** On a clear path a page translates exactly when it is mapped, and then at depth 3. */
  lemma LookupIffMapped(w: World, root: nat, s: Spot)
    requires Tree(w, root) && s.Valid() && ClearPath(w, s)
    ensures Lookup(w, s).Some? <==> Mapped(w, s)
    ensures Mapped(w, s) ==> Lookup(w, s).value.depth == 3 && Lookup(w, s).value.leaf == w.Entries(P3(s))[s.i1]
  {
    PathPrefix(w, root, s);
    assert Settled(w, Root, s.i4);
    if P1(s) in w.at {
      assert Settled(w, P1(s), s.i3);
      if P2(s) in w.at {
        assert Settled(w, P2(s), s.i2);
      }
    }
  }
}

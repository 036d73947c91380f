/** Mapping and unmapping one page, as functions on the world, and what one step of either
    does to the tree, to every translation and to the allocator. */
module PageOps {
  import opened Outcomes
  import opened Frames
  import opened PageTables

  // ---- Mapping ---------------------------------------------------------------------

  /** Makes sure entry i of the table at p leads to a table; None when memory runs out. */
  function EnsureTable(w: World, p: Path, i: nat): Option<World>
    requires i < 512
  {
    if w.Entries(p)[i] != ZERO then Some(w)
    else
      match Allocate(w.pool, 1).run
      case None => None
      case Some(f) => Some(Grow(w, p, i, f))
  }

  /** Takes frame f, clears it and links it below entry i of the table at p. */
  function Grow(w: World, p: Path, i: nat, f: nat, flags: Flags := DIRECTORY): World
    requires i < 512
  {
    World(w.mem[f := Blank()][w.Frame(p) := w.Entries(p)[i := Entry(f, flags)]], w.at[Child(p, i) := f],
          w.pool.(taken := w.pool.taken + {f}))
  }

  /** The three EnsureTable calls of MapPage together. */
  function EnsurePath(w: World, s: Spot): Option<World>
    requires s.Valid()
  {
    match EnsureTable(w, Root, s.i4)
    case None => None
    case Some(w1) =>
      match EnsureTable(w1, P1(s), s.i3)
      case None => None
      case Some(w2) => EnsureTable(w2, P2(s), s.i2)
  }

  /** MapPage: None stands for a panic. */
  function MapPage(w: World, s: Spot, e: Entry): Option<World>
    requires s.Valid()
  {
    match EnsurePath(w, s)
    case None => None
    case Some(v) => if v.Entries(P3(s))[s.i1].flags.present then None else Some(v.Put(P3(s), s.i1, e))
  }

  // ---- Unmapping -------------------------------------------------------------------

  /** IsTableEmpty: no entry is present. */
  predicate TableEmpty(t: Table) {
    forall i | 0 <= i < 512 :: !t[i].flags.present
  }

  /** Frees the table below entry i of the table at p and clears the entry. */
  function Cut(w: World, p: Path, i: nat): World
    requires i < 512
  {
    var q := Child(p, i);
    World(w.mem[w.Frame(p) := w.Entries(p)[i := ZERO]], w.at - {q}, Release(w.pool, w.Frame(q), 1))
  }

  /** Clearing the page's entry, before any table is freed. */
  function ClearLeaf(w: World, s: Spot): World
    requires s.Valid()
  {
    w.Put(P3(s), s.i1, ZERO)
  }

  /** Frees the tables on the page's path that have become empty, from the leaf up. The
      level-3 table of a higher-half page is kept. */
  function Prune(w: World, s: Spot): World
    requires s.Valid()
  {
    if !TableEmpty(w.Entries(P3(s))) then w else PruneAbove(Cut(w, P2(s), s.i2), s)
  }

  /** The same for the two levels above the page table. */
  function PruneAbove(w: World, s: Spot): World
    requires s.Valid()
  {
    if !TableEmpty(w.Entries(P2(s))) then w
    else
      var w1 := Cut(w, P1(s), s.i3);
      if !TableEmpty(w1.Entries(P1(s))) || s.i4 >= 256 then w1
      else Cut(w1, Root, s.i4)
  }

  /** UnmapPage: None stands for a panic. */
  function UnmapPage(w: World, s: Spot): Option<World>
    requires s.Valid()
  {
    if Mapped(w, s) then Some(Prune(ClearLeaf(w, s), s)) else None
  }

  // ---- No table is left empty ------------------------------------------------------

  /** Tables that may be empty: the root and the higher-half level-3 tables. */
  predicate MayBeEmpty(p: Path) {
    p == Root || (p.parent == Root && p.index >= 256)
  }

  /** Every table except possibly the one at x has a present entry, where one is owed. */
  ghost predicate NoneEmptyBut(w: World, x: Path) {
    forall p | p in w.at && p != x && !MayBeEmpty(p) :: !TableEmpty(w.Entries(p))
  }

  ghost predicate NoneEmpty(w: World) {
    NoneEmptyBut(w, Root)
  }

  /** From w to v no table became empty or was added empty, except possibly the one at x. */
  ghost predicate NoNewEmptyBut(w: World, v: World, x: Path) {
    forall p | p in v.at && p != x && !MayBeEmpty(p) && TableEmpty(v.Entries(p)) ::
      p in w.at && TableEmpty(w.Entries(p))
  }

  /** Every empty table of v that should not be was an empty table of w already. */
  ghost predicate NoNewEmpty(w: World, v: World) {
    NoNewEmptyBut(w, v, Root)
  }

  lemma NoneEmptyStays(w: World, v: World)
    requires NoNewEmpty(w, v) && NoneEmpty(w)
    ensures NoneEmpty(v)
  {
  }

  lemma NoNewTransitive(u: World, v: World, w: World, x: Path, y: Path)
    requires NoNewEmptyBut(u, v, x) && NoNewEmptyBut(v, w, y)
    requires x in w.at ==> x == y || MayBeEmpty(x) || !TableEmpty(w.Entries(x))
    ensures NoNewEmptyBut(u, w, y)
  {
  }

  /** The table at x is not one that should have an entry and has none. */
  lemma NoNewAtAll(u: World, v: World, x: Path)
    requires NoNewEmptyBut(u, v, x) && (x in v.at ==> MayBeEmpty(x) || !TableEmpty(v.Entries(x)))
    ensures NoNewEmpty(u, v)
  {
  }

  /** A table with a table below it is not empty. */
  lemma ParentNotEmpty(w: World, root: nat, p: Path, i: nat)
    requires Tree(w, root) && Child(p, i) in w.at
    ensures p in w.at && !TableEmpty(w.Entries(p))
  {
    assert PointsTo(w, p, i);
    assert w.Entries(p)[i].flags.present;
  }

  // ---- Changing one entry ----------------------------------------------------------

  /** The tables of v are those of w, except entry i of the table at p. */
  ghost predicate DiffersAt(v: World, w: World, p: Path, i: nat) {
    && (forall q | q in w.at && q in v.at && q != p :: v.Entries(q) == w.Entries(q))
    && (forall j | 0 <= j < 512 && j != i :: v.Entries(p)[j] == w.Entries(p)[j])
  }

  lemma PutEffect(w: World, p: Path, i: nat, e: Entry)
    requires Distinct(w.at) && p in w.at && i < 512
    ensures DiffersAt(w.Put(p, i, e), w, p, i) && w.Put(p, i, e).Entries(p)[i] == e
    ensures w.Put(p, i, e).Entries(p) == w.Entries(p)[i := e]
  {
  }

  /** Writing a page-table entry keeps the tree. */
  lemma PutLeafKeeps(w: World, root: nat, base: set<nat>, p: Path, i: nat, e: Entry)
    requires Good(w, root, base) && p in w.at && Depth(p) == 3 && i < 512
    requires e == ZERO || e.flags.present
    ensures Good(w.Put(p, i, e), root, base)
  {
    var v := w.Put(p, i, e);
    PutEffect(w, p, i, e);
    forall q, j | Child(q, j) in v.at ensures q in v.at && j < 512 && PointsTo(v, q, j) {
      assert PointsTo(w, q, j);
      assert Depth(Child(q, j)) <= 3;
    }
    forall q, j: nat | q in v.at && j < 512 ensures Settled(v, q, j) {
      assert Settled(w, q, j);
    }
  }

  // ---- Growing ---------------------------------------------------------------------

  lemma GrowEffect(w: World, root: nat, base: set<nat>, p: Path, i: nat, f: nat, flags: Flags := DIRECTORY)
    requires flags.present && !flags.huge
    requires Good(w, root, base) && p in w.at && i < 512 && f !in w.at.Values
    requires w.Entries(p)[i] == ZERO
    ensures Child(p, i) !in w.at
    ensures var v := Grow(w, p, i, f, flags);
            && DiffersAt(v, w, p, i) && v.Entries(p) == w.Entries(p)[i := Entry(f, flags)]
            && v.Entries(Child(p, i)) == Blank()
  {
    assert Child(p, i) in w.at ==> PointsTo(w, p, i);
    assert forall q | q in w.at :: w.at[q] in w.at.Values;
  }

  lemma GrowKeepsTree(w: World, root: nat, base: set<nat>, p: Path, i: nat, f: nat, flags: Flags := DIRECTORY)
    requires flags.present && !flags.huge
    requires Good(w, root, base) && p in w.at && Depth(p) < 3 && i < 512 && f !in w.at.Values
    requires w.Entries(p)[i] == ZERO
    ensures Tree(Grow(w, p, i, f, flags), root) && Distinct(Grow(w, p, i, f, flags).at)
  {
    var v, c := Grow(w, p, i, f, flags), Child(p, i);
    GrowEffect(w, root, base, p, i, f, flags);
    assert c != Root && Depth(c) == Depth(p) + 1;
    forall q, j | Child(q, j) in v.at ensures q in v.at && j < 512 && PointsTo(v, q, j) {
      if Child(q, j) != c {
        assert PointsTo(w, q, j);
      }
    }
    forall q, j: nat | q in v.at && j < 512 ensures Settled(v, q, j) {
      if q != c {
        assert Settled(w, q, j);
      }
    }
    assert forall q | q in w.at :: w.at[q] in w.at.Values;
  }

  lemma ValuesAfterAdd(at: map<Path, nat>, c: Path, f: nat)
    requires c !in at
    ensures at[c := f].Values == at.Values + {f}
  {
    var bt := at[c := f];
    forall x ensures x in bt.Values <==> x in at.Values + {f} {
      if x in at.Values {
        var q :| q in at && at[q] == x;
        assert bt[q] == x;
      }
      if x == f {
        assert bt[c] == x;
      }
    }
  }

  /** A new, empty table changes no translation. */
  lemma GrowKeepsWalk(w: World, root: nat, base: set<nat>, p: Path, i: nat, f: nat, s: Spot, flags: Flags := DIRECTORY)
    requires flags.present && !flags.huge
    requires Good(w, root, base) && p in w.at && Depth(p) < 3 && i < 512 && f !in w.at.Values
    requires w.Entries(p)[i] == ZERO && s.Valid()
    ensures Lookup(Grow(w, p, i, f, flags), s) == Lookup(w, s)
  {
    var v, d := Grow(w, p, i, f, flags), Depth(p);
    GrowEffect(w, root, base, p, i, f, flags);
    GrowKeepsTree(w, root, base, p, i, f, flags);
    GrowWalk(w, root, v, 0, s, [], p, i);
  }

  lemma {:induction false} GrowWalk(w: World, root: nat, v: World, d: nat, s: Spot, met: seq<Flags>, p: Path, i: nat)
    requires Tree(w, root) && Tree(v, root) && s.Valid() && d <= 3 && PathAt(s, d) in w.at && PathAt(s, d) in v.at
    requires p in w.at && i < 512 && DiffersAt(v, w, p, i) && w.Entries(p)[i] == ZERO
    requires v.Entries(p)[i].flags.present && !LeafAt(Depth(p), v.Entries(p)[i])
    requires TableEmpty(v.Entries(Child(p, i))) && Depth(p) < 3
    requires v.at.Keys == w.at.Keys + {Child(p, i)}
    ensures Walk(v, d, s, met) == Walk(w, d, s, met)
    decreases 3 - d
  {
    var q, j := PathAt(s, d), IndexAt(s, d);
    PathAtDepth(s, d);
    var e := w.Entries(q)[j];
    if q == p && j == i {
      PathAtDepth(s, d + 1);
      assert Walk(v, d + 1, s, met + [v.Entries(q)[j].flags]).None?;
    } else if e.flags.present && !LeafAt(d, e) {
      assert Settled(w, q, j);
      GrowWalk(w, root, v, d + 1, s, met + [e.flags], p, i);
    }
  }

  lemma GrowKeepsOwns(w: World, base: set<nat>, p: Path, i: nat, f: nat, flags: Flags := DIRECTORY)
    requires flags.present && !flags.huge
    requires Owns(w, base) && w.pool.Free(f) && i < 512 && Child(p, i) !in w.at
    ensures Owns(Grow(w, p, i, f, flags), base)
  {
    ValuesAfterAdd(w.at, Child(p, i), f);
  }

  lemma GrowNoneEmpty(w: World, root: nat, base: set<nat>, p: Path, i: nat, f: nat, flags: Flags := DIRECTORY)
    requires flags.present && !flags.huge
    requires Good(w, root, base) && p in w.at && i < 512 && f !in w.at.Values
    requires w.Entries(p)[i] == ZERO
    ensures NoNewEmptyBut(w, Grow(w, p, i, f, flags), Child(p, i))
  {
    var v := Grow(w, p, i, f, flags);
    GrowEffect(w, root, base, p, i, f, flags);
    SomeEntryPresent(v, p, i);
  }

  /** Everything EnsureTable does: it panics only when a table is missing and no frame is
      free; otherwise the tree gains at most the missing table. */
  lemma EnsureTableKeeps(w: World, root: nat, base: set<nat>, p: Path, i: nat)
    requires Good(w, root, base) && p in w.at && Depth(p) < 3 && i < 512
    requires !LeafAt(Depth(p), w.Entries(p)[i])
    ensures match EnsureTable(w, p, i)
            case None => w.Entries(p)[i] == ZERO && w.pool.FreeSet() == {}
            case Some(v) =>
              && Good(v, root, base) && NoNewEmptyBut(w, v, Child(p, i)) && Child(p, i) in v.at
              && (if w.Entries(p)[i] != ZERO then v == w
                  else exists f :: w.pool.Free(f) && v == Grow(w, p, i, f))
  {
    assert Settled(w, p, i);
    if w.Entries(p)[i] == ZERO {
      OneFrame(w.pool);
      match Allocate(w.pool, 1).run
      case None =>
      case Some(f) =>
        assert f !in w.at.Values;
        GrowEffect(w, root, base, p, i, f);
        GrowKeepsTree(w, root, base, p, i, f);
        GrowKeepsOwns(w, base, p, i, f);
        GrowNoneEmpty(w, root, base, p, i, f);
    }
  }

  lemma SomeEntryPresent(w: World, p: Path, i: nat)
    requires i < 512 && w.Entries(p)[i].flags.present
    ensures !TableEmpty(w.Entries(p))
  {
  }

  // ---- Mapping, as a whole ---------------------------------------------------------

  /** How many tables the page still needs. */
  function Missing(w: World, s: Spot): nat {
    if P3(s) in w.at then 0 else if P2(s) in w.at then 1 else if P1(s) in w.at then 2 else 3
  }

  /** v has the tables of w and perhaps more, but translates alike; no frame outside the
      tables changed, and frames went from free to tables one for one. */
  ghost predicate Grown(w: World, v: World) {
    && (forall q | q in w.at :: q in v.at && v.at[q] == w.at[q])
    && (forall q, j: nat | q in w.at && j < 512 && w.Entries(q)[j] != ZERO :: v.Entries(q)[j] == w.Entries(q)[j])
    && (forall t: Spot | t.Valid() :: Lookup(v, t) == Lookup(w, t))
    && (forall f: nat | f !in v.at.Values :: Read(v.mem, f) == Read(w.mem, f))
    && v.pool.reserved == w.pool.reserved && v.pool.count == w.pool.count
  }

  lemma ValuesGrow(w: World, v: World)
    requires forall q | q in w.at :: q in v.at && v.at[q] == w.at[q]
    ensures w.at.Values <= v.at.Values
  {
    forall f | f in w.at.Values ensures f in v.at.Values {
      var q :| q in w.at && w.at[q] == f;
      assert v.at[q] == f;
    }
  }

  lemma GrownTransitive(u: World, v: World, w: World)
    requires Grown(u, v) && Grown(v, w)
    ensures Grown(u, w)
  {
    ValuesGrow(v, w);
  }

  lemma GrowIsGrown(w: World, root: nat, base: set<nat>, p: Path, i: nat, f: nat, flags: Flags := DIRECTORY)
    requires flags.present && !flags.huge
    requires Good(w, root, base) && p in w.at && Depth(p) < 3 && i < 512 && w.pool.Free(f)
    requires w.Entries(p)[i] == ZERO
    ensures Grown(w, Grow(w, p, i, f, flags))
  {
    var v := Grow(w, p, i, f, flags);
    assert f !in w.at.Values;
    GrowEffect(w, root, base, p, i, f, flags);
    ValuesAfterAdd(w.at, Child(p, i), f);
    forall t: Spot | t.Valid() ensures Lookup(v, t) == Lookup(w, t) {
      GrowKeepsWalk(w, root, base, p, i, f, t, flags);
    }
    assert w.at[p] in w.at.Values;
  }

  /** One level of MapPage: the tree now has a table below entry i of the table at p. */
  ghost predicate Ensured(w: World, v: World, root: nat, base: set<nat>, p: Path, i: nat) {
    && Good(v, root, base) && NoNewEmptyBut(w, v, Child(p, i)) && Grown(w, v)
    && v.at.Keys == w.at.Keys + {Child(p, i)} && DiffersAt(v, w, p, i)
    && |v.pool.FreeSet()| == |w.pool.FreeSet()| - (if Child(p, i) in w.at then 0 else 1)
    && (Child(p, i) !in w.at ==> v.Entries(Child(p, i)) == Blank())
  }

  lemma GrowStep(w: World, root: nat, base: set<nat>, p: Path, i: nat, f: nat)
    requires Good(w, root, base) && p in w.at && Depth(p) < 3 && i < 512
    requires w.Entries(p)[i] == ZERO && w.pool.Free(f)
    requires Good(Grow(w, p, i, f), root, base) && NoNewEmptyBut(w, Grow(w, p, i, f), Child(p, i))
    ensures Ensured(w, Grow(w, p, i, f), root, base, p, i)
  {
    assert f !in w.at.Values;
    GrowIsGrown(w, root, base, p, i, f);
    GrowEffect(w, root, base, p, i, f);
    TakeOne(w.pool, f);
  }

  lemma EnsureStep(w: World, root: nat, base: set<nat>, p: Path, i: nat)
    requires Good(w, root, base) && p in w.at && Depth(p) < 3 && i < 512
    requires !LeafAt(Depth(p), w.Entries(p)[i])
    ensures EnsureTable(w, p, i).None? <==> Child(p, i) !in w.at && w.pool.FreeSet() == {}
    ensures EnsureTable(w, p, i).Some? ==> Ensured(w, EnsureTable(w, p, i).value, root, base, p, i)
  {
    EnsureTableKeeps(w, root, base, p, i);
    if w.Entries(p)[i] != ZERO {
      assert Settled(w, p, i);
      assert w.at.Keys == w.at.Keys + {Child(p, i)};
    } else {
      assert Child(p, i) !in w.at by { assert Child(p, i) in w.at ==> PointsTo(w, p, i); }
      OneFrame(w.pool);
      if EnsureTable(w, p, i).Some? {
        var f :| w.pool.Free(f) && EnsureTable(w, p, i).value == Grow(w, p, i, f);
        GrowStep(w, root, base, p, i, f);
      }
    }
  }

  lemma TakeOne(f: Pool, p: nat)
    requires f.Free(p)
    ensures |f.(taken := f.taken + {p}).FreeSet()| == |f.FreeSet()| - 1
  {
    assert f.(taken := f.taken + {p}).FreeSet() == f.FreeSet() - {p};
  }

  /** Two levels of the three. */
  lemma EnsureTwo(w: World, root: nat, base: set<nat>, s: Spot)
    requires Good(w, root, base) && s.Valid() && ClearPath(w, s)
    ensures var a := EnsureTable(w, Root, s.i4);
            a.None? <==> P1(s) !in w.at && |w.pool.FreeSet()| == 0
    ensures var a := EnsureTable(w, Root, s.i4);
            a.Some? ==> Ensured(w, a.value, root, base, Root, s.i4) && !LeafAt(1, a.value.Entries(P1(s))[s.i3])
    ensures var a := EnsureTable(w, Root, s.i4);
            a.Some? ==>
              && (EnsureTable(a.value, P1(s), s.i3).None? <==> P2(s) !in w.at && |a.value.pool.FreeSet()| == 0)
              && (EnsureTable(a.value, P1(s), s.i3).Some? ==>
                    Ensured(a.value, EnsureTable(a.value, P1(s), s.i3).value, root, base, P1(s), s.i3))
  {
    EnsureStep(w, root, base, Root, s.i4);
    PathAtDepth(s, 1);
    var a := EnsureTable(w, Root, s.i4);
    if a.Some? {
      assert !LeafAt(1, a.value.Entries(P1(s))[s.i3]);
      EnsureStep(a.value, root, base, P1(s), s.i3);
      assert P2(s) in a.value.at <==> P2(s) in w.at;
    }
  }

  /** What the three calls leave behind. */
  ghost predicate PathEnsured(w: World, v: World, root: nat, base: set<nat>, s: Spot) {
    && Good(v, root, base) && NoNewEmptyBut(w, v, P3(s)) && Grown(w, v)
    && v.at.Keys == w.at.Keys + {P1(s), P2(s), P3(s)}
    && |v.pool.FreeSet()| == |w.pool.FreeSet()| - Missing(w, s)
    && (P3(s) !in w.at ==> v.Entries(P3(s)) == Blank())
  }

  /** The state after two levels, seen from the start. */
  ghost predicate TwoEnsured(w: World, b: World, root: nat, base: set<nat>, s: Spot)
    requires s.Valid()
  {
    && Good(b, root, base) && NoNewEmptyBut(w, b, P2(s)) && Grown(w, b)
    && b.at.Keys == w.at.Keys + {P1(s), P2(s)}
    && |b.pool.FreeSet()| == |w.pool.FreeSet()| - (if P1(s) in w.at then 0 else 1) - (if P2(s) in w.at then 0 else 1)
    && !LeafAt(2, b.Entries(P2(s))[s.i2])
  }

  lemma KeysTwo(w: map<Path, nat>, a: map<Path, nat>, b: map<Path, nat>, s: Spot)
    requires a.Keys == w.Keys + {P1(s)} && b.Keys == a.Keys + {P2(s)}
    ensures b.Keys == w.Keys + {P1(s), P2(s)}
    ensures P2(s) in a <==> P2(s) in w
  {
    assert P1(s) != P2(s);
    assert P2(s) in a.Keys <==> P2(s) in w.Keys;
  }

  lemma KeyP3(w: map<Path, nat>, b: map<Path, nat>, s: Spot)
    requires b.Keys == w.Keys + {P1(s), P2(s)}
    ensures P3(s) in b <==> P3(s) in w
  {
    assert P1(s) != P3(s) && P2(s) != P3(s);
    assert P3(s) in b.Keys <==> P3(s) in w.Keys;
  }

  lemma KeysThree(w: map<Path, nat>, b: map<Path, nat>, c: map<Path, nat>, s: Spot)
    requires b.Keys == w.Keys + {P1(s), P2(s)} && c.Keys == b.Keys + {P3(s)}
    ensures c.Keys == w.Keys + {P1(s), P2(s), P3(s)}
    ensures P3(s) in b <==> P3(s) in w
  {
    KeyP3(w, b, s);
  }

  lemma AfterTwo(w: World, a: World, b: World, root: nat, base: set<nat>, s: Spot)
    requires Good(w, root, base) && s.Valid() && ClearPath(w, s)
    requires Ensured(w, a, root, base, Root, s.i4) && Ensured(a, b, root, base, P1(s), s.i3)
    ensures TwoEnsured(w, b, root, base, s)
  {
    KeysTwo(w.at, a.at, b.at, s);
    GrownTransitive(w, a, b);
    ParentNotEmpty(b, root, P1(s), s.i3);
    NoNewTransitive(w, a, b, P1(s), P2(s));
    if P2(s) in w.at {
      assert a.Entries(P2(s)) == w.Entries(P2(s));
      assert b.Entries(P2(s)) == a.Entries(P2(s));
    }
  }

  lemma AfterThree(w: World, b: World, c: World, root: nat, base: set<nat>, s: Spot)
    requires Good(w, root, base) && s.Valid()
    requires TwoEnsured(w, b, root, base, s) && Ensured(b, c, root, base, P2(s), s.i2)
    ensures PathEnsured(w, c, root, base, s)
  {
    KeysThree(w.at, b.at, c.at, s);
    GrownTransitive(w, b, c);
    ParentNotEmpty(c, root, P2(s), s.i2);
    NoNewTransitive(w, b, c, P2(s), P3(s));
    PathPrefix(w, root, s);
  }

  /** The tables on the path can be completed exactly when enough frames are free. */
  lemma EnsurePathKeeps(w: World, root: nat, base: set<nat>, s: Spot)
    requires Good(w, root, base) && s.Valid() && ClearPath(w, s)
    ensures EnsurePath(w, s).Some? <==> Missing(w, s) <= |w.pool.FreeSet()|
    ensures EnsurePath(w, s).Some? ==> PathEnsured(w, EnsurePath(w, s).value, root, base, s)
  {
    EnsureTwo(w, root, base, s);
    PathPrefix(w, root, s);
    var a := EnsureTable(w, Root, s.i4);
    if a.Some? {
      var b := EnsureTable(a.value, P1(s), s.i3);
      if b.Some? {
        AfterTwo(w, a.value, b.value, root, base, s);
        ThirdLevel(w, b.value, root, base, s);
      }
    }
  }

  lemma ThirdLevel(w: World, b: World, root: nat, base: set<nat>, s: Spot)
    requires Good(w, root, base) && s.Valid() && TwoEnsured(w, b, root, base, s)
    ensures EnsureTable(b, P2(s), s.i2).Some? <==> P3(s) in w.at || |b.pool.FreeSet()| > 0
    ensures EnsureTable(b, P2(s), s.i2).Some? ==> PathEnsured(w, EnsureTable(b, P2(s), s.i2).value, root, base, s)
  {
    PathAtDepth(s, 2);
    EnsureStep(b, root, base, P2(s), s.i2);
    KeyP3(w.at, b.at, s);
    var c := EnsureTable(b, P2(s), s.i2);
    if c.Some? {
      AfterThree(w, b, c.value, root, base, s);
    }
  }

  // ---- Cutting ---------------------------------------------------------------------

  /** An empty table has nothing below it. */
  lemma EmptyHasNoChild(w: World, root: nat, c: Path, j: nat)
    requires Tree(w, root) && c in w.at && TableEmpty(w.Entries(c))
    ensures Child(c, j) !in w.at
  {
    assert Child(c, j) in w.at ==> PointsTo(w, c, j);
  }

  lemma CutEffect(w: World, root: nat, base: set<nat>, p: Path, i: nat)
    requires Good(w, root, base) && i < 512 && Child(p, i) in w.at
    ensures var v := Cut(w, p, i);
            && p in w.at && p in v.at && PointsTo(w, p, i)
            && DiffersAt(w, v, p, i) && v.Entries(p) == w.Entries(p)[i := ZERO]
            && v.at.Keys == w.at.Keys - {Child(p, i)}
            && w.at.Keys == v.at.Keys + {Child(p, i)}
  {
    var v := Cut(w, p, i);
    assert p != Child(p, i) by { assert Depth(p) + 1 == Depth(Child(p, i)); }
    forall q | q in v.at && q != p ensures v.Entries(q) == w.Entries(q) {
      assert w.at[q] != w.at[p];
    }
  }

  lemma CutKeepsTree(w: World, root: nat, base: set<nat>, p: Path, i: nat)
    requires Good(w, root, base) && i < 512 && Child(p, i) in w.at && TableEmpty(w.Entries(Child(p, i)))
    ensures Tree(Cut(w, p, i), root) && Distinct(Cut(w, p, i).at)
  {
    var v, c := Cut(w, p, i), Child(p, i);
    CutEffect(w, root, base, p, i);
    forall q, j | Child(q, j) in v.at ensures q in v.at && j < 512 && PointsTo(v, q, j) {
      EmptyHasNoChild(w, root, c, j);
      assert PointsTo(w, q, j);
      assert q != p || j != i;
    }
    forall q, j: nat | q in v.at && j < 512 ensures Settled(v, q, j) {
      assert Settled(w, q, j);
    }
  }

  lemma ValuesAfterCut(at: map<Path, nat>, c: Path)
    requires c in at && Distinct(at)
    ensures (at - {c}).Values == at.Values - {at[c]}
  {
    var bt := at - {c};
    forall x ensures x in bt.Values <==> x in at.Values - {at[c]} {
      if x in at.Values - {at[c]} {
        var q :| q in at && at[q] == x;
        assert bt[q] == x;
      }
      if x in bt.Values {
        var q :| q in bt && bt[q] == x;
        assert at[q] == x && q != c;
      }
    }
  }

  lemma SpanOne(f: nat)
    ensures Span(f, 1) == {f}
  {
  }

  /** The freed frame was handed out, so freeing it cannot panic, and it becomes free. */
  lemma CutKeepsOwns(w: World, base: set<nat>, p: Path, i: nat)
    requires Owns(w, base) && Distinct(w.at) && i < 512 && Child(p, i) in w.at
    ensures Span(w.at[Child(p, i)], 1) <= w.pool.taken
    ensures Owns(Cut(w, p, i), base)
    ensures |Cut(w, p, i).pool.FreeSet()| == |w.pool.FreeSet()| + 1
  {
    var f := w.at[Child(p, i)];
    assert f in w.at.Values;
    SpanOne(f);
    ValuesAfterCut(w.at, Child(p, i));
    GiveRun(w.pool, f, 1);
  }

  lemma CutIsGrown(w: World, root: nat, base: set<nat>, p: Path, i: nat)
    requires Good(w, root, base) && i < 512 && Child(p, i) in w.at && TableEmpty(w.Entries(Child(p, i)))
    ensures Grown(Cut(w, p, i), w)
  {
    var v := Cut(w, p, i);
    CutEffect(w, root, base, p, i);
    CutKeepsTree(w, root, base, p, i);
    assert Depth(Child(p, i)) == Depth(p) + 1;
    forall t: Spot | t.Valid() ensures Lookup(v, t) == Lookup(w, t) {
      GrowWalk(v, root, w, 0, t, [], p, i);
    }
    assert w.at[p] in w.at.Values;
  }

  /** One level of pruning: what cutting an empty table leaves behind. */
  ghost predicate WasCut(w: World, v: World, root: nat, base: set<nat>, p: Path, i: nat) {
    && Good(v, root, base) && NoNewEmptyBut(w, v, p) && Grown(v, w)
    && |v.pool.FreeSet()| == |w.pool.FreeSet()| + 1
    && v.at.Keys == w.at.Keys - {Child(p, i)} && p in v.at
  }

  lemma CutStep(w: World, root: nat, base: set<nat>, p: Path, i: nat)
    requires Good(w, root, base) && i < 512 && Child(p, i) in w.at && TableEmpty(w.Entries(Child(p, i)))
    ensures WasCut(w, Cut(w, p, i), root, base, p, i)
  {
    CutEffect(w, root, base, p, i);
    CutKeepsTree(w, root, base, p, i);
    CutKeepsOwns(w, base, p, i);
    CutIsGrown(w, root, base, p, i);
  }
}

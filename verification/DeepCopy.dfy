/** Copying a tree of page tables: what each step of the copy adds, and why the finished
    copy translates every address as the original does. */
module DeepCopy {
  import opened Outcomes
  import opened Sets
  import opened Frames
  import opened PageTables
  import opened PageOps
  import opened Draws
  import opened PageCopy

  /** The tables being copied, by place. */
  type Image = map<Path, Table>

  /** An entry that leads to another table. */
  predicate Interior(d: nat, e: Entry) {
    e.flags.present && !LeafAt(d, e)
  }

  /** The image holds the root and exactly the tables its entries lead to. */
  ghost predicate Closed(img: Image) {
    && Root in img
    && (forall q | q in img :: Depth(q) <= 3)
    && (forall q, i | Child(q, i) in img :: q in img && i < 512)
    && (forall q, i: nat | q in img && i < 512 :: Child(q, i) in img <==> Interior(Depth(q), img[q][i]))
  }

  /** The image is found in memory at the given frames; frames may be shared. */
  ghost predicate Found(mem: Memory, at: map<Path, nat>, img: Image) {
    && at.Keys == img.Keys
    && (forall q | q in img :: Read(mem, at[q]) == img[q])
    && (forall q, i: nat | q in img && i < 512 && Child(q, i) in img :: img[q][i].frame == at[Child(q, i)])
  }

  // ---- Places below a place ----------------------------------------------------------

  /** The index at p through which q is reached, if q lies below p. */
  function Via(q: Path, p: Path): Option<nat> {
    match q
    case Root => None
    case Child(parent, i) => if parent == p then Some(i) else Via(parent, p)
  }

  predicate Under(q: Path, p: Path, n: nat) {
    Via(q, p).Some? && Via(q, p).value < n
  }

  /** The places of the image below p through an index less than n. */
  function Below(img: Image, p: Path, n: nat): set<Path> {
    set q | q in img && Under(q, p, n)
  }

  lemma {:induction false} ViaDeeper(q: Path, p: Path)
    ensures Via(q, p).Some? ==> Depth(q) > Depth(p)
  {
    match q
    case Root =>
    case Child(parent, i) => ViaDeeper(parent, p);
  }

  /** Below p through index i are the child at i and what lies below it. */
  lemma {:induction false} ViaChild(q: Path, p: Path, i: nat)
    ensures Via(q, p) == Some(i) <==> q == Child(p, i) || Via(q, Child(p, i)).Some?
  {
    ViaDeeper(q, Child(p, i));
    match q
    case Root =>
    case Child(parent, j) =>
      ViaChild(parent, p, i);
      ViaDeeper(parent, p);
      ViaDeeper(p, Child(p, i));
  }

  lemma {:induction false} BelowInImage(img: Image, q: Path, p: Path)
    requires Closed(img) && q in img && Via(q, p).Some?
    ensures p in img && Via(q, p).value < 512 && Child(p, Via(q, p).value) in img
  {
    if q.parent != p {
      BelowInImage(img, q.parent, p);
    }
  }

  lemma BelowStep(img: Image, p: Path, i: nat)
    requires Closed(img) && p in img && i < 512
    ensures var c := Child(p, i);
            && (c in img ==> Below(img, p, i + 1) == Below(img, p, i) + ({c} + Below(img, c, 512)))
            && (c !in img ==> Below(img, p, i + 1) == Below(img, p, i))
            && Below(img, p, i) !! {c} + Below(img, c, 512) && c !in Below(img, c, 512)
  {
    var c := Child(p, i);
    forall q | q in img
      ensures Under(q, p, i + 1) <==> Under(q, p, i) || q == c || Under(q, c, 512)
      ensures !(Under(q, p, i) && (q == c || Under(q, c, 512)))
      ensures c !in img ==> q != c && !Under(q, c, 512)
    {
      ViaChild(q, p, i);
      if Via(q, c).Some? {
        BelowInImage(img, q, c);
      }
      if Via(q, p) == Some(i) {
        BelowInImage(img, q, p);
      }
    }
    ViaDeeper(c, c);
  }

  lemma BelowNothing(img: Image, p: Path)
    ensures Below(img, p, 0) == {}
  {
  }

  // ---- The order of allocation -------------------------------------------------------

  /** How many tables are allocated for what lies below p before the one at q. */
  function RankFrom(img: Image, p: Path, q: Path): nat {
    match q
    case Root => 0
    case Child(parent, i) => |Below(img, parent, i)| + if parent == p then 0 else 1 + RankFrom(img, p, parent)
  }

  /** Below the child at i, everything comes after what lies below smaller indices and the
      child itself. */
  lemma {:induction false} RankShift(img: Image, p: Path, i: nat, q: Path)
    requires Via(q, Child(p, i)).Some?
    ensures RankFrom(img, p, q) == |Below(img, p, i)| + 1 + RankFrom(img, Child(p, i), q)
  {
    var c := Child(p, i);
    ViaDeeper(q, c);
    assert q.parent != p by { assert Depth(c) == Depth(p) + 1; }
    if q.parent != c {
      RankShift(img, p, i, q.parent);
    }
  }

  // ---- The copy in progress ----------------------------------------------------------

  /** Entry j of the table at q has been copied from e over the value it had. */
  ghost predicate EntryCopied(w: World, q: Path, j: nat, e: Entry, was: Entry)
    requires j < 512
  {
    var d := w.Entries(q)[j];
    if !e.flags.present then d == was
    else if LeafAt(Depth(q), e) then d == e
    else Child(q, j) in w.at && d == Entry(w.at[Child(q, j)], e.flags)
  }

  /** From u to w the places in b gained tables, in frames that were free before. */
  ghost predicate Seats(u: World, w: World, b: set<Path>) {
    && w.at.Keys == u.at.Keys + b
    && (forall q | q in u.at :: w.at[q] == u.at[q])
    && (forall q | q in b :: q in w.at && u.pool.Free(w.at[q]) && !w.pool.Free(w.at[q]))
  }

  /** The allocator answered n requests for one frame. */
  ghost predicate Spends(u: World, w: World, n: nat) {
    w.pool == Drawn(u.pool, n) && Drew(u.pool, w.pool)
  }

  /** Nothing was written but the table at p and frames that were free before. */
  ghost predicate Writes(u: World, w: World, p: Path) {
    forall f: nat | f != u.Frame(p) && !(u.pool.Free(f) && !w.pool.Free(f)) :: Read(w.mem, f) == Read(u.mem, f)
  }

  /** Every frame handed out since is the frame of a table. */
  ghost predicate Accounts(u: World, w: World) {
    forall f | f in w.pool.taken && f !in u.pool.taken :: f in w.at.Values
  }

  ghost predicate Added(u: World, w: World, p: Path, b: set<Path>) {
    Seats(u, w, b) && Spends(u, w, |b|) && Writes(u, w, p) && Accounts(u, w)
  }

  /** Each table added sits in the frame that its place in the order of allocation gives it. */
  ghost predicate Placed(u: World, w: World, img: Image, p: Path, n: nat) {
    forall q | q in Below(img, p, n) :: q in w.at && w.at[q] == Draw(u.pool, RankFrom(img, p, q))
  }

  /** What the table at q held before the copy wrote it: the copy clears the tables it adds
      except those directly below the root, which keep what their frame held. */
  ghost function Prior(u: World, w: World, q: Path): Table {
    if Depth(q) == 1 then Read(u.mem, w.Frame(q)) else Blank()
  }

  ghost predicate TablesCopied(u: World, w: World, img: Image, b: set<Path>)
    requires b <= img.Keys
  {
    forall q, j: nat | q in b && j < 512 :: EntryCopied(w, q, j, img[q][j], Prior(u, w, q)[j])
  }

  /** The entries of the table at p other than entry n: those below it are copied. */
  ghost predicate FilledAround(u: World, w: World, img: Image, p: Path, n: nat)
    requires p in img
  {
    && (forall j | 0 <= j < 512 && j < n :: EntryCopied(w, p, j, img[p][j], u.Entries(p)[j]))
    && (forall j | n < j < 512 :: w.Entries(p)[j] == u.Entries(p)[j])
  }

  /** The entries of the table at p below index n, and of the added tables, are copied. */
  ghost predicate Filled(u: World, w: World, img: Image, p: Path, n: nat, b: set<Path>)
    requires p in img && b <= img.Keys
  {
    && FilledAround(u, w, img, p, n) && (n < 512 ==> w.Entries(p)[n] == u.Entries(p)[n])
    && TablesCopied(u, w, img, b)
  }

  /** Indices below n of the table at p have been copied, with everything below them. */
  ghost predicate Progress(u: World, w: World, img: Image, p: Path, n: nat)
    requires p in img
  {
    && Added(u, w, p, Below(img, p, n))
    && Filled(u, w, img, p, n, Below(img, p, n))
    && Placed(u, w, img, p, n)
    && Distinct(w.at)
  }

  /** What a copy into the table at p relies on. */
  ghost predicate CanCopy(u: World, img: Image, p: Path) {
    && Closed(img) && p in img && p in u.at && Distinct(u.at) && u.pool.Valid()
    && Below(img, p, 512) !! u.at.Keys
    && (forall q | q in u.at :: !u.pool.Free(u.at[q]))
    && |Below(img, p, 512)| <= |u.pool.FreeSet()|
  }

  lemma ProgressStart(u: World, img: Image, p: Path)
    requires CanCopy(u, img, p)
    ensures Progress(u, u, img, p, 0)
  {
    BelowNothing(img, p);
    DrawnKeeps(u.pool, 0);
  }

  /** An entry that is not present is skipped. */
  lemma ProgressSkip(u: World, w: World, img: Image, p: Path, i: nat)
    requires CanCopy(u, img, p) && i < 512 && Progress(u, w, img, p, i) && !img[p][i].flags.present
    ensures Progress(u, w, img, p, i + 1)
  {
    NothingBelow(img, p, i);
    assert EntryCopied(w, p, i, img[p][i], u.Entries(p)[i]);
  }

  lemma NothingBelow(img: Image, p: Path, i: nat)
    requires Closed(img) && p in img && i < 512 && Child(p, i) !in img
    ensures Below(img, p, i + 1) == Below(img, p, i)
  {
    BelowStep(img, p, i);
  }

  // ---- Writing the table at p --------------------------------------------------------

  lemma PutElsewhere(w: World, p: Path, i: nat, e: Entry, q: Path)
    requires Distinct(w.at) && p in w.at && q in w.at && q != p && i < 512
    ensures w.Put(p, i, e).Entries(q) == w.Entries(q)
  {
  }

  lemma AddedPut(u: World, w: World, p: Path, b: set<Path>, i: nat, e: Entry)
    requires Added(u, w, p, b) && p in u.at && i < 512
    ensures Added(u, w.Put(p, i, e), p, b)
  {
  }

  /** Writing entry i of p disturbs nothing else. */
  lemma FilledPut(u: World, w: World, img: Image, p: Path, i: nat, b: set<Path>, e: Entry)
    requires p in img && b <= img.Keys && b <= w.at.Keys && p !in b && p in w.at && Distinct(w.at) && i < 512
    requires FilledAround(u, w, img, p, i) && TablesCopied(u, w, img, b)
    requires EntryCopied(w.Put(p, i, e), p, i, img[p][i], u.Entries(p)[i])
    ensures Filled(u, w.Put(p, i, e), img, p, i + 1, b)
  {
    var v := w.Put(p, i, e);
    forall q, j: nat | q in b && j < 512 ensures EntryCopied(v, q, j, img[q][j], Prior(u, v, q)[j]) {
      PutElsewhere(w, p, i, e, q);
      assert EntryCopied(w, q, j, img[q][j], Prior(u, w, q)[j]);
    }
    forall j | 0 <= j < i ensures EntryCopied(v, p, j, img[p][j], u.Entries(p)[j]) {
      assert EntryCopied(w, p, j, img[p][j], u.Entries(p)[j]);
    }
  }

  lemma SelfNotBelow(img: Image, p: Path, n: nat)
    ensures p !in Below(img, p, n)
  {
    ViaDeeper(p, p);
  }

  /** A page entry is copied as it is. */
  lemma ProgressLeaf(u: World, w: World, img: Image, p: Path, i: nat)
    requires CanCopy(u, img, p) && i < 512 && Progress(u, w, img, p, i)
    requires img[p][i].flags.present && LeafAt(Depth(p), img[p][i])
    ensures Progress(u, w.Put(p, i, img[p][i]), img, p, i + 1)
  {
    BelowStep(img, p, i);
    SelfNotBelow(img, p, i);
    AddedPut(u, w, p, Below(img, p, i), i, img[p][i]);
    FilledPut(u, w, img, p, i, Below(img, p, i), img[p][i]);
  }

  // ---- Adding a table and copying into it --------------------------------------------

  /** w1 is w with the next free frame f seated at c; only f and the table at p were written. */
  ghost predicate Seated(w: World, w1: World, p: Path, c: Path, f: nat) {
    && w.pool.Free(f) && f == Draw(w.pool, 0) && c !in w.at && p in w.at
    && w1.at == w.at[c := f] && w1.pool == w.pool.(taken := w.pool.taken + {f})
    && (forall g: nat | g != f && g != w.at[p] :: Read(w1.mem, g) == Read(w.mem, g))
  }

  /** The frame seated next is the one the next request is answered with. */
  lemma SeatDraws(w: World, w1: World, p: Path, c: Path, f: nat)
    requires w.pool.Valid() && Seated(w, w1, p, c, f)
    ensures w1.pool == Drawn(w.pool, 1) && w1.pool.Valid()
    ensures |w1.pool.FreeSet()| == |w.pool.FreeSet()| - 1
  {
    OneFrame(w.pool);
    DrawnOne(w.pool);
    assert Drawn(w.pool, 0) == w.pool;
    DrawnKeeps(w.pool, 1);
    TakeOne(w.pool, f);
  }

  lemma SpendsThrough(u: World, w: World, w1: World, w2: World, p: Path, c: Path, f: nat, m: nat, n: nat)
    requires u.pool.Valid() && Spends(u, w, m) && Seated(w, w1, p, c, f) && Spends(w1, w2, n)
    ensures Spends(u, w2, m + 1 + n)
  {
    SeatDraws(w, w1, p, c, f);
    DrawnAdd(u.pool, m, 1);
    DrawnAdd(u.pool, m + 1, n);
    DrawnKeeps(u.pool, m + 1 + n);
  }

  lemma SeatsThrough(u: World, w: World, w1: World, w2: World, p: Path, c: Path, f: nat, a: set<Path>, b: set<Path>)
    requires Seats(u, w, a) && Seated(w, w1, p, c, f) && Seats(w1, w2, b) && b !! w1.at.Keys
    requires Drew(u.pool, w.pool) && Drew(w1.pool, w2.pool)
    ensures Seats(u, w2, a + ({c} + b))
  {
    assert w2.at.Keys == u.at.Keys + (a + ({c} + b));
    assert forall q | q in w.at :: w1.at[q] == w.at[q];
    forall q | q in a + ({c} + b) ensures q in w2.at && u.pool.Free(w2.at[q]) && !w2.pool.Free(w2.at[q]) {
      if q !in b {
        assert w2.at[q] == w1.at[q];
      }
    }
  }

  lemma WritesThrough(u: World, w: World, w1: World, w2: World, p: Path, c: Path, f: nat)
    requires Writes(u, w, p) && Seated(w, w1, p, c, f) && Writes(w1, w2, c)
    requires Drew(u.pool, w.pool) && Drew(w1.pool, w2.pool) && w.at[p] == u.Frame(p)
    ensures Writes(u, w2, p)
  {
    forall g: nat | g != u.Frame(p) && !(u.pool.Free(g) && !w2.pool.Free(g)) ensures Read(w2.mem, g) == Read(u.mem, g) {
      assert g != f;
      assert Read(w1.mem, g) == Read(w.mem, g);
    }
  }

  lemma AccountsThrough(u: World, w: World, w1: World, w2: World, p: Path, c: Path, f: nat)
    requires Accounts(u, w) && Seated(w, w1, p, c, f) && Accounts(w1, w2)
    requires forall q | q in w1.at :: q in w2.at && w2.at[q] == w1.at[q]
    ensures Accounts(u, w2)
  {
    ValuesGrow(w1, w2);
    ValuesAfterAdd(w.at, c, f);
  }

  /** A copy into the table at c leaves the other tables alone. */
  lemma ChildUntouched(w1: World, w2: World, c: Path, q: Path)
    requires Writes(w1, w2, c) && Distinct(w1.at) && c in w1.at && q in w1.at && q != c
    requires !w1.pool.Free(w1.at[q]) && q in w2.at && w2.at[q] == w1.at[q]
    ensures w2.Entries(q) == w1.Entries(q)
  {
  }

  /** Entries copied before a table was seated and filled at c stay copied. */
  lemma StillCopied(w: World, w1: World, w2: World, q: Path, j: nat, e: Entry, was: Entry)
    requires j < 512 && EntryCopied(w, q, j, e, was)
    requires forall r | r in w.at :: r in w2.at && w2.at[r] == w.at[r]
    requires w1.Entries(q)[j] == w.Entries(q)[j] && w2.Entries(q) == w1.Entries(q)
    ensures EntryCopied(w2, q, j, e, was)
  {
  }

  /** The tables of w keep their frames. */
  ghost predicate Stay(w: World, w2: World) {
    forall r | r in w.at :: r in w2.at && w2.at[r] == w.at[r]
  }

  /** The state reached when the table at c, below entry i of p, has been seated and filled. */
  ghost predicate ChildDone(u: World, w: World, w1: World, w2: World, img: Image, p: Path, i: nat, f: nat) {
    && CanCopy(u, img, p) && i < 512 && Child(p, i) in img && Progress(u, w, img, p, i)
    && Seated(w, w1, p, Child(p, i), f) && Distinct(w1.at)
    && (forall q | q in w1.at :: !w1.pool.Free(w1.at[q]))
    && (forall j | 0 <= j < 512 && j != i :: w1.Entries(p)[j] == w.Entries(p)[j])
    && w1.Entries(Child(p, i)) == Prior(u, w1, Child(p, i))
    && Progress(w1, w2, img, Child(p, i), 512)
  }

  lemma ChildStays(u: World, w: World, w1: World, w2: World, img: Image, p: Path, i: nat, f: nat)
    requires ChildDone(u, w, w1, w2, img, p, i, f)
    ensures Stay(w, w2) && Stay(w1, w2) && p in w.at && w.at[p] == u.at[p]
    ensures Child(p, i) in w2.at && w2.at[Child(p, i)] == f
  {
    StaySeat(w, w1, p, Child(p, i), f);
    SeatsStay(w1, w2, Below(img, Child(p, i), 512));
    SeatsStay(u, w, Below(img, p, i));
  }

  lemma StaySeat(w: World, w1: World, p: Path, c: Path, f: nat)
    requires Seated(w, w1, p, c, f)
    ensures Stay(w, w1) && c in w1.at && w1.at[c] == f && p in w.at
  {
  }

  lemma SeatsStay(u: World, w: World, b: set<Path>)
    requires Seats(u, w, b)
    ensures Stay(u, w)
  {
  }

  /** Adding a table at c and then tables below it adds both. */
  lemma ChildAdded(u: World, w: World, w1: World, w2: World, img: Image, p: Path, i: nat, f: nat)
    requires CanCopy(u, img, p) && i < 512 && Child(p, i) in img && Added(u, w, p, Below(img, p, i))
    requires Seated(w, w1, p, Child(p, i), f) && Added(w1, w2, Child(p, i), Below(img, Child(p, i), 512))
    ensures Added(u, w2, p, Below(img, p, i + 1))
  {
    var c := Child(p, i);
    ChildSeats(u, w, w1, w2, img, p, i, f);
    ChildSpends(u, w, w1, w2, img, p, i, f);
    WritesThrough(u, w, w1, w2, p, c, f);
    SeatsStay(w1, w2, Below(img, c, 512));
    AccountsThrough(u, w, w1, w2, p, c, f);
  }

  lemma ChildSeats(u: World, w: World, w1: World, w2: World, img: Image, p: Path, i: nat, f: nat)
    requires CanCopy(u, img, p) && i < 512 && Child(p, i) in img && Seats(u, w, Below(img, p, i))
    requires Seated(w, w1, p, Child(p, i), f) && Seats(w1, w2, Below(img, Child(p, i), 512))
    requires Drew(u.pool, w.pool) && Drew(w1.pool, w2.pool)
    ensures Seats(u, w2, Below(img, p, i + 1))
  {
    BelowApart(u, w, w1, img, p, i);
    BelowStep(img, p, i);
    SeatsThrough(u, w, w1, w2, p, Child(p, i), f, Below(img, p, i), Below(img, Child(p, i), 512));
  }

  lemma ChildSpends(u: World, w: World, w1: World, w2: World, img: Image, p: Path, i: nat, f: nat)
    requires CanCopy(u, img, p) && i < 512 && Child(p, i) in img && Spends(u, w, |Below(img, p, i)|)
    requires Seated(w, w1, p, Child(p, i), f) && Spends(w1, w2, |Below(img, Child(p, i), 512)|)
    ensures Spends(u, w2, |Below(img, p, i + 1)|)
  {
    BelowSize(img, p, i);
    SpendsThrough(u, w, w1, w2, p, Child(p, i), f, |Below(img, p, i)|, |Below(img, Child(p, i), 512)|);
  }

  lemma BelowSize(img: Image, p: Path, i: nat)
    requires Closed(img) && p in img && i < 512 && Child(p, i) in img
    ensures |Below(img, p, i + 1)| == |Below(img, p, i)| + 1 + |Below(img, Child(p, i), 512)|
  {
    BelowStep(img, p, i);
    var c := Child(p, i);
    assert |{c} + Below(img, c, 512)| == 1 + |Below(img, c, 512)|;
  }

  lemma BelowApart(u: World, w: World, w1: World, img: Image, p: Path, i: nat)
    requires CanCopy(u, img, p) && i < 512 && Child(p, i) in img
    requires w.at.Keys == u.at.Keys + Below(img, p, i) && w1.at.Keys == w.at.Keys + {Child(p, i)}
    ensures Below(img, Child(p, i), 512) !! w1.at.Keys
  {
    var c := Child(p, i);
    BelowStep(img, p, i);
    forall q | q in Below(img, c, 512) ensures q in Below(img, p, 512) {
      ViaChild(q, p, i);
    }
  }

  lemma ChildPlaced(u: World, w: World, w1: World, w2: World, img: Image, p: Path, i: nat, f: nat)
    requires CanCopy(u, img, p) && i < 512 && Child(p, i) in img && Stay(w, w2)
    requires Spends(u, w, |Below(img, p, i)|) && Seated(w, w1, p, Child(p, i), f)
    requires Child(p, i) in w2.at && w2.at[Child(p, i)] == f
    requires Placed(u, w, img, p, i) && Placed(w1, w2, img, Child(p, i), 512)
    ensures Placed(u, w2, img, p, i + 1)
  {
    var c, n := Child(p, i), |Below(img, p, i)|;
    BelowStep(img, p, i);
    SeatDraws(w, w1, p, c, f);
    DrawnAdd(u.pool, n, 1);
    DrawLater(u.pool, n, 0);
    assert RankFrom(img, p, c) == n;
    forall q | q in Below(img, c, 512) ensures q in w2.at && w2.at[q] == Draw(u.pool, RankFrom(img, p, q)) {
      LaterDraw(u.pool, w1.pool, img, p, i, q);
    }
  }

  lemma LaterDraw(f: Pool, g: Pool, img: Image, p: Path, i: nat, q: Path)
    requires g == Drawn(f, |Below(img, p, i)| + 1) && Via(q, Child(p, i)).Some?
    ensures Draw(f, RankFrom(img, p, q)) == Draw(g, RankFrom(img, Child(p, i), q))
  {
    RankShift(img, p, i, q);
    DrawLater(f, |Below(img, p, i)| + 1, RankFrom(img, Child(p, i), q));
  }

  lemma ChildFilledAround(u: World, w: World, w1: World, w2: World, img: Image, p: Path, i: nat)
    requires p in img && p in w.at && p in w1.at && Child(p, i) in w1.at && i < 512 && FilledAround(u, w, img, p, i)
    requires forall j | 0 <= j < 512 && j != i :: w1.Entries(p)[j] == w.Entries(p)[j]
    requires Writes(w1, w2, Child(p, i)) && Distinct(w1.at) && !w1.pool.Free(w1.at[p]) && Stay(w, w2) && Stay(w1, w2)
    ensures FilledAround(u, w2, img, p, i) && w2.Entries(p)[i] == w1.Entries(p)[i]
  {
    var c := Child(p, i);
    assert p != c by { assert Depth(c) == Depth(p) + 1; }
    ChildUntouched(w1, w2, c, p);
    forall j | 0 <= j < i ensures EntryCopied(w2, p, j, img[p][j], u.Entries(p)[j]) {
      StillCopied(w, w1, w2, p, j, img[p][j], u.Entries(p)[j]);
    }
  }

  lemma ChildTablesCopied(u: World, w: World, w1: World, w2: World, img: Image, p: Path, i: nat, f: nat)
    requires ChildDone(u, w, w1, w2, img, p, i, f)
    ensures TablesCopied(u, w2, img, Below(img, p, i + 1))
  {
    var c := Child(p, i);
    BelowStep(img, p, i);
    ChildStays(u, w, w1, w2, img, p, i, f);
    OldTablesCopied(u, w, w1, w2, img, p, i, f);
    NewTablesCopied(u, w1, w2, img, c);
  }

  lemma OldTablesCopied(u: World, w: World, w1: World, w2: World, img: Image, p: Path, i: nat, f: nat)
    requires Closed(img) && i < 512 && Below(img, p, i) <= w.at.Keys && TablesCopied(u, w, img, Below(img, p, i))
    requires Seated(w, w1, p, Child(p, i), f) && Distinct(w1.at) && (forall q | q in w1.at :: !w1.pool.Free(w1.at[q]))
    requires Writes(w1, w2, Child(p, i)) && Stay(w, w2) && Stay(w1, w2)
    ensures TablesCopied(u, w2, img, Below(img, p, i))
  {
    var c := Child(p, i);
    forall q, j: nat | q in Below(img, p, i) && j < 512
      ensures EntryCopied(w2, q, j, img[q][j], Prior(u, w2, q)[j])
    {
      SelfNotBelow(img, p, i);
      OtherTable(w, w1, p, c, f, q);
      ChildUntouched(w1, w2, c, q);
      StillCopied(w, w1, w2, q, j, img[q][j], Prior(u, w, q)[j]);
    }
  }

  lemma NewTablesCopied(u: World, w1: World, w2: World, img: Image, c: Path)
    requires c in img && c in w1.at && c != Root && w1.Entries(c) == Prior(u, w1, c)
    requires Progress(w1, w2, img, c, 512)
    ensures TablesCopied(u, w2, img, {c} + Below(img, c, 512))
  {
    forall q, j: nat | q in {c} + Below(img, c, 512) && j < 512
      ensures EntryCopied(w2, q, j, img[q][j], Prior(u, w2, q)[j])
    {
      if q == c {
        assert EntryCopied(w2, c, j, img[c][j], w1.Entries(c)[j]);
      } else {
        ViaDeeper(q, c);
        assert EntryCopied(w2, q, j, img[q][j], Prior(w1, w2, q)[j]);
      }
    }
  }

  lemma OtherTable(w: World, w1: World, p: Path, c: Path, f: nat, q: Path)
    requires Seated(w, w1, p, c, f) && Distinct(w1.at) && q in w.at && q != p
    ensures w1.Entries(q) == w.Entries(q) && q in w1.at && q != c
  {
    assert w1.at[c] == f && w1.at[q] == w.at[q] && w1.at[p] == w.at[p];
  }

  /** All but entry i of the table at p is as it should be after turn i. */
  ghost predicate AlmostDone(u: World, w2: World, img: Image, p: Path, i: nat)
    requires p in img
  {
    && Added(u, w2, p, Below(img, p, i + 1)) && Placed(u, w2, img, p, i + 1) && Distinct(w2.at) && p in w2.at
    && FilledAround(u, w2, img, p, i) && TablesCopied(u, w2, img, Below(img, p, i + 1))
  }

  lemma ChildAlmostDone(u: World, w: World, w1: World, w2: World, img: Image, p: Path, i: nat, f: nat)
    requires ChildDone(u, w, w1, w2, img, p, i, f)
    ensures AlmostDone(u, w2, img, p, i) && w2.Entries(p)[i] == w1.Entries(p)[i]
    ensures Child(p, i) in w2.at && w2.at[Child(p, i)] == f
  {
    ChildStays(u, w, w1, w2, img, p, i, f);
    ChildAdded(u, w, w1, w2, img, p, i, f);
    ChildPlaced(u, w, w1, w2, img, p, i, f);
    ChildFilledAround(u, w, w1, w2, img, p, i);
    ChildTablesCopied(u, w, w1, w2, img, p, i, f);
  }

  /** A table is added, linked and filled: the order the recursion uses. */
  lemma ProgressChild(u: World, w: World, w1: World, w2: World, img: Image, p: Path, i: nat, f: nat)
    requires ChildDone(u, w, w1, w2, img, p, i, f) && w1.Entries(p)[i] == Entry(f, img[p][i].flags)
    ensures Progress(u, w2, img, p, i + 1)
  {
    ChildAlmostDone(u, w, w1, w2, img, p, i, f);
    assert EntryCopied(w2, p, i, img[p][i], u.Entries(p)[i]);
    Assemble(u, w2, img, p, i);
  }

  lemma Assemble(u: World, w2: World, img: Image, p: Path, i: nat)
    requires p in img && i < 512 && AlmostDone(u, w2, img, p, i)
    requires EntryCopied(w2, p, i, img[p][i], u.Entries(p)[i])
    ensures Progress(u, w2, img, p, i + 1)
  {
  }

  /** A table is added and filled and then linked: the order used for the root. */
  lemma ProgressLinked(u: World, w: World, w1: World, w2: World, img: Image, p: Path, i: nat, f: nat)
    requires ChildDone(u, w, w1, w2, img, p, i, f)
    ensures Progress(u, w2.Put(p, i, Entry(f, img[p][i].flags)), img, p, i + 1)
  {
    ChildAlmostDone(u, w, w1, w2, img, p, i, f);
    Link(u, w2, img, p, i, Entry(f, img[p][i].flags));
  }

  lemma Link(u: World, w2: World, img: Image, p: Path, i: nat, e: Entry)
    requires p in img && p in u.at && i < 512 && AlmostDone(u, w2, img, p, i) && Interior(Depth(p), img[p][i])
    requires Child(p, i) in w2.at && e == Entry(w2.at[Child(p, i)], img[p][i].flags)
    ensures Progress(u, w2.Put(p, i, e), img, p, i + 1)
  {
    SelfNotBelow(img, p, i + 1);
    AddedPut(u, w2, p, Below(img, p, i + 1), i, e);
    FilledPut(u, w2, img, p, i, Below(img, p, i + 1), e);
  }

  // ---- Room and preconditions along the way ------------------------------------------

  lemma BelowWhole(img: Image, p: Path, i: nat)
    requires i <= 512
    ensures Below(img, p, i) <= Below(img, p, 512) && |Below(img, p, i)| <= |Below(img, p, 512)|
  {
    SubsetSize(Below(img, p, i), Below(img, p, 512));
  }

  /** The frames still free suffice for the next child and everything below it. */
  lemma BelowRoom(img: Image, p: Path, i: nat)
    requires Closed(img) && p in img && i < 512 && Child(p, i) in img
    ensures |Below(img, p, i)| + 1 + |Below(img, Child(p, i), 512)| <= |Below(img, p, 512)|
  {
    BelowSize(img, p, i);
    BelowWhole(img, p, i + 1);
  }

  /** The source tables are found in memory, are neither handed out by the allocator from now
      on nor tables of the copy. */
  ghost predicate SourceSafe(u: World, srcAt: map<Path, nat>, img: Image) {
    && Found(u.mem, srcAt, img)
    && (forall q | q in srcAt :: !u.pool.Free(srcAt[q]) && srcAt[q] !in u.at.Values)
  }

  /** They stay so when tables are added in free frames. */
  lemma SafeStays(u: World, w: World, p: Path, srcAt: map<Path, nat>, img: Image)
    requires SourceSafe(u, srcAt, img) && p in u.at && Writes(u, w, p) && Drew(u.pool, w.pool)
    requires forall r | r in w.at :: (r in u.at && w.at[r] == u.at[r]) || u.pool.Free(w.at[r])
    ensures SourceSafe(w, srcAt, img)
  {
    assert u.at[p] in u.at.Values;
    forall r, q | r in w.at && q in srcAt ensures srcAt[q] != w.at[r] {
      assert r in u.at ==> u.at[r] in u.at.Values;
    }
  }

  /** Seating a table leaves the source safe. */
  lemma SeatKeepsSafe(w: World, w1: World, p: Path, c: Path, f: nat, srcAt: map<Path, nat>, img: Image)
    requires w.pool.Valid() && SourceSafe(w, srcAt, img) && Seated(w, w1, p, c, f)
    ensures SourceSafe(w1, srcAt, img)
  {
    SeatDraws(w, w1, p, c, f);
    DrawnKeeps(w.pool, 1);
    SafeStays(w, w1, p, srcAt, img);
  }

  lemma CanCopyChild(u: World, w: World, w1: World, img: Image, p: Path, i: nat, f: nat)
    requires CanCopy(u, img, p) && i < 512 && Child(p, i) in img && Progress(u, w, img, p, i)
    requires Seated(w, w1, p, Child(p, i), f)
    ensures CanCopy(w1, img, Child(p, i))
  {
    BelowApart(u, w, w1, img, p, i);
    BelowRoom(img, p, i);
    DrawnKeeps(u.pool, |Below(img, p, i)|);
    SeatDraws(w, w1, p, Child(p, i), f);
    SeatOwned(u, w, w1, p, Below(img, p, i), Child(p, i), f);
  }

  lemma SeatOwned(u: World, w: World, w1: World, p: Path, b: set<Path>, c: Path, f: nat)
    requires (forall q | q in u.at :: !u.pool.Free(u.at[q])) && Seats(u, w, b) && Drew(u.pool, w.pool) && Distinct(w.at)
    requires Seated(w, w1, p, c, f)
    ensures (forall q | q in w1.at :: !w1.pool.Free(w1.at[q])) && Distinct(w1.at)
  {
    forall q | q in w.at ensures !w.pool.Free(w.at[q]) {
      if q in u.at {
        assert w.at[q] == u.at[q];
      }
    }
  }

  // ---- The code, step by step --------------------------------------------------------

  function Run(w: World): Machine {
    Machine(w.mem, w.pool)
  }

  /** The state between two turns of a copying loop. */
  ghost predicate Copying(u: World, w: World, img: Image, p: Path, i: nat, srcAt: map<Path, nat>) {
    CanCopy(u, img, p) && Progress(u, w, img, p, i) && SourceSafe(w, srcAt, img)
  }

  lemma CopyingStart(u: World, img: Image, p: Path, srcAt: map<Path, nat>)
    requires CanCopy(u, img, p) && SourceSafe(u, srcAt, img)
    ensures Copying(u, u, img, p, 0, srcAt)
  {
    ProgressStart(u, img, p);
  }

  /** What the code reads and writes in such a state. */
  lemma CopyingFrames(u: World, w: World, img: Image, p: Path, i: nat, srcAt: map<Path, nat>)
    requires Copying(u, w, img, p, i, srcAt)
    ensures p in w.at && w.at[p] == u.Frame(p) && !w.pool.Free(w.at[p])
    ensures p in srcAt && Read(w.mem, srcAt[p]) == img[p] && srcAt[p] != w.at[p] && !w.pool.Free(srcAt[p])
    ensures w.pool.Valid()
  {
    assert w.at[p] in w.at.Values;
    assert u.pool.Free(w.at[p]) || !u.pool.Free(w.at[p]);
  }

  lemma CopyingLeaf(u: World, w: World, img: Image, p: Path, i: nat, srcAt: map<Path, nat>)
    requires Copying(u, w, img, p, i, srcAt) && i < 512 && img[p][i].flags.present && LeafAt(Depth(p), img[p][i])
    ensures Copying(u, w.Put(p, i, img[p][i]), img, p, i + 1, srcAt)
  {
    ProgressLeaf(u, w, img, p, i);
    CopyingFrames(u, w, img, p, i, srcAt);
    SafeAfterPut(w, p, i, img[p][i], srcAt, img);
  }

  lemma SafeAfterPut(w: World, p: Path, i: nat, e: Entry, srcAt: map<Path, nat>, img: Image)
    requires SourceSafe(w, srcAt, img) && p in w.at && i < 512
    ensures SourceSafe(w.Put(p, i, e), srcAt, img)
  {
    assert w.at[p] in w.at.Values;
  }

  /** A frame seated at the child of entry i is ready to be copied into. */
  ghost predicate ChildReady(u: World, w: World, w1: World, img: Image, p: Path, i: nat, f: nat, srcAt: map<Path, nat>) {
    && i < 512 && p in img && Child(p, i) in img
    && Seated(w, w1, p, Child(p, i), f) && CanCopy(w1, img, Child(p, i)) && SourceSafe(w1, srcAt, img)
    && srcAt[Child(p, i)] == img[p][i].frame
    && (forall j | 0 <= j < 512 && j != i :: w1.Entries(p)[j] == w.Entries(p)[j])
    && w1.Entries(Child(p, i)) == Prior(u, w1, Child(p, i))
  }

  lemma FreshPlace(u: World, w: World, img: Image, p: Path, i: nat)
    requires CanCopy(u, img, p) && i < 512 && Progress(u, w, img, p, i) && Child(p, i) in img
    ensures Child(p, i) !in w.at
  {
    BelowStep(img, p, i);
    BelowWhole(img, p, i + 1);
    assert Child(p, i) in Below(img, p, i + 1);
  }

  /** The frame the allocator offers next is there and is the one to seat. */
  lemma OfferedNext(u: World, w: World, img: Image, p: Path, i: nat)
    requires CanCopy(u, img, p) && i < 512 && Child(p, i) in img && Progress(u, w, img, p, i)
    ensures Run(w).Offered() != 0 && Run(w).Offered() == Draw(w.pool, 0) && w.pool.Free(Run(w).Offered())
    ensures Run(w).Taken().pool == w.pool.(taken := w.pool.taken + {Run(w).Offered()})
  {
    BelowRoom(img, p, i);
    DrawnKeeps(u.pool, |Below(img, p, i)|);
    OfferedExact(Run(w));
    WholePage(w.pool);
    assert Drawn(w.pool, 0) == w.pool;
  }

  lemma SeatIsReady(u: World, w: World, w1: World, img: Image, p: Path, i: nat, f: nat, srcAt: map<Path, nat>)
    requires Copying(u, w, img, p, i, srcAt) && i < 512 && Child(p, i) in img && Seated(w, w1, p, Child(p, i), f)
    ensures CanCopy(w1, img, Child(p, i)) && SourceSafe(w1, srcAt, img) && srcAt[Child(p, i)] == img[p][i].frame
  {
    CanCopyChild(u, w, w1, img, p, i, f);
    SeatKeepsSafe(w, w1, p, Child(p, i), f, srcAt, img);
  }

  /** A cleared, linked frame is ready. */
  lemma ChildSeated(u: World, w: World, w1: World, img: Image, p: Path, i: nat, f: nat, srcAt: map<Path, nat>)
    requires Copying(u, w, img, p, i, srcAt) && p != Root && i < 512 && p in w.at
    requires Interior(Depth(p), img[p][i]) && w.pool.Free(f) && f == Draw(w.pool, 0) && f != w.at[p]
    requires w1 == Grow(w, p, i, f, img[p][i].flags)
    ensures ChildReady(u, w, w1, img, p, i, f, srcAt)
    ensures w1.Entries(p)[i] == Entry(f, img[p][i].flags) && w1.at[Child(p, i)] == f
  {
    assert Child(p, i) in img;
    FreshPlace(u, w, img, p, i);
    GrowSeats(w, p, i, f, img[p][i].flags);
    SeatIsReady(u, w, w1, img, p, i, f, srcAt);
  }

  lemma GrowSeats(w: World, p: Path, i: nat, f: nat, flags: Flags)
    requires p in w.at && p != Root && i < 512 && w.pool.Free(f) && f == Draw(w.pool, 0) && f != w.at[p] && Child(p, i) !in w.at
    ensures var w1 := Grow(w, p, i, f, flags);
            && Seated(w, w1, p, Child(p, i), f)
            && w1.Entries(p) == w.Entries(p)[i := Entry(f, flags)] && w1.Entries(Child(p, i)) == Blank()
    ensures Depth(Child(p, i)) > 1
  {
  }

  lemma ReadyIsDone(u: World, w: World, w1: World, w2: World, img: Image, p: Path, i: nat, f: nat, srcAt: map<Path, nat>)
    requires CanCopy(u, img, p) && Progress(u, w, img, p, i) && ChildReady(u, w, w1, img, p, i, f, srcAt)
    requires Progress(w1, w2, img, Child(p, i), 512)
    ensures ChildDone(u, w, w1, w2, img, p, i, f)
  {
  }

  lemma CopyingChild(u: World, w: World, w1: World, w2: World, img: Image, p: Path, i: nat, f: nat, srcAt: map<Path, nat>)
    requires Copying(u, w, img, p, i, srcAt) && ChildReady(u, w, w1, img, p, i, f, srcAt)
    requires w1.Entries(p)[i] == Entry(f, img[p][i].flags) && Copying(w1, w2, img, Child(p, i), 512, srcAt)
    ensures Copying(u, w2, img, p, i + 1, srcAt)
  {
    ReadyIsDone(u, w, w1, w2, img, p, i, f, srcAt);
    ProgressChild(u, w, w1, w2, img, p, i, f);
  }

  /** The level of a table as the code counts it. */
  function Level(p: Path): int { 4 - Depth(p) }

  /** DeepCopyPageTables, from a state between two turns, copies the rest of the table. */
  lemma {:induction false} TableCopies(u: World, w: World, img: Image, p: Path, i: nat, srcAt: map<Path, nat>) returns (v: World)
    requires i <= 512 && Copying(u, w, img, p, i, srcAt) && 1 <= Level(p) <= 3
    ensures Copying(u, v, img, p, 512, srcAt)
    ensures Run(v) == CopyTable(Run(w), Level(p), srcAt[p], u.Frame(p), i)
    decreases Level(p), 512 - i, 2
  {
    if i == 512 {
      v := w;
    } else {
      var x := EntryCopies(u, w, img, p, i, srcAt);
      v := TableCopies(u, x, img, p, i + 1, srcAt);
    }
  }

  /** What a turn of the code does when nothing is to be allocated. */
  lemma PlainTurn(w: World, p: Path, i: nat, src: nat, e: Entry)
    requires 1 <= Level(p) <= 3 && i < 512 && p in w.at && Read(w.mem, src)[i] == e
    ensures !e.flags.present ==> CopyEntry(Run(w), Level(p), src, w.at[p], i) == Run(w)
    ensures e.flags.present && LeafAt(Depth(p), e) ==> CopyEntry(Run(w), Level(p), src, w.at[p], i) == Run(w.Put(p, i, e))
  {
  }

  /** What it does when a table is to be copied. */
  lemma ChildTurn(w: World, w1: World, p: Path, i: nat, src: nat, e: Entry)
    requires 1 <= Level(p) <= 3 && i < 512 && p in w.at && Read(w.mem, src)[i] == e && Interior(Depth(p), e)
    requires Linked(Run(w), src, w.at[p], i) == Run(w1) && Read(w1.mem, src)[i] == e
    ensures 2 <= Level(p)
    ensures CopyEntry(Run(w), Level(p), src, w.at[p], i) == CopyTable(Run(w1), Level(p) - 1, e.frame, Run(w).Offered(), 0)
  {
  }

  /** One turn. */
  lemma {:induction false} EntryCopies(u: World, w: World, img: Image, p: Path, i: nat, srcAt: map<Path, nat>) returns (v: World)
    requires i < 512 && Copying(u, w, img, p, i, srcAt) && 1 <= Level(p) <= 3
    ensures Copying(u, v, img, p, i + 1, srcAt)
    ensures Run(v) == CopyEntry(Run(w), Level(p), srcAt[p], u.Frame(p), i)
    decreases Level(p), 512 - i, 1
  {
    CopyingFrames(u, w, img, p, i, srcAt);
    var e := img[p][i];
    PlainTurn(w, p, i, srcAt[p], e);
    if !e.flags.present {
      v := w;
      CopyingSkip(u, w, img, p, i, srcAt);
    } else if LeafAt(Depth(p), e) {
      v := w.Put(p, i, e);
      CopyingLeaf(u, w, img, p, i, srcAt);
    } else {
      v := ChildCopies(u, w, img, p, i, srcAt);
    }
  }

  lemma CopyingSkip(u: World, w: World, img: Image, p: Path, i: nat, srcAt: map<Path, nat>)
    requires Copying(u, w, img, p, i, srcAt) && i < 512 && !img[p][i].flags.present
    ensures Copying(u, w, img, p, i + 1, srcAt)
  {
    ProgressSkip(u, w, img, p, i);
  }

  /** A turn that takes a table and copies into it. */
  lemma {:induction false} ChildCopies(u: World, w: World, img: Image, p: Path, i: nat, srcAt: map<Path, nat>) returns (v: World)
    requires i < 512 && Copying(u, w, img, p, i, srcAt) && 1 <= Level(p) <= 3 && Interior(Depth(p), img[p][i])
    ensures Copying(u, v, img, p, i + 1, srcAt)
    ensures Run(v) == CopyEntry(Run(w), Level(p), srcAt[p], u.Frame(p), i)
    decreases Level(p), 512 - i, 0
  {
    var c, f := Child(p, i), Run(w).Offered();
    var w1 := Grow(w, p, i, f, img[p][i].flags);
    ChildLinked(u, w, w1, img, p, i, f, srcAt);
    ChildRuns(u, w, w1, img, p, i, f, srcAt);
    CopyingStart(w1, img, c, srcAt);
    v := TableCopies(w1, w1, img, c, 0, srcAt);
    CopyingChild(u, w, w1, v, img, p, i, f, srcAt);
  }

  /** That turn up to the recursive call. */
  lemma ChildLinked(u: World, w: World, w1: World, img: Image, p: Path, i: nat, f: nat, srcAt: map<Path, nat>)
    requires i < 512 && Copying(u, w, img, p, i, srcAt) && 1 <= Level(p) <= 3 && Interior(Depth(p), img[p][i])
    requires f == Run(w).Offered() && w1 == Grow(w, p, i, f, img[p][i].flags)
    ensures ChildReady(u, w, w1, img, p, i, f, srcAt) && w1.Entries(p)[i] == Entry(f, img[p][i].flags)
  {
    CopyingFrames(u, w, img, p, i, srcAt);
    assert Child(p, i) in img;
    OfferedNext(u, w, img, p, i);
    ChildSeated(u, w, w1, img, p, i, f, srcAt);
  }

  lemma ChildRuns(u: World, w: World, w1: World, img: Image, p: Path, i: nat, f: nat, srcAt: map<Path, nat>)
    requires i < 512 && Copying(u, w, img, p, i, srcAt) && 1 <= Level(p) <= 3 && Interior(Depth(p), img[p][i])
    requires f == Run(w).Offered() && w1 == Grow(w, p, i, f, img[p][i].flags)
    requires Child(p, i) in img && Child(p, i) in srcAt && srcAt[Child(p, i)] == img[p][i].frame
    ensures Level(Child(p, i)) == Level(p) - 1 && 2 <= Level(p) && w1.Frame(Child(p, i)) == f
    ensures CopyEntry(Run(w), Level(p), srcAt[p], u.Frame(p), i) == CopyTable(Run(w1), Level(Child(p, i)), srcAt[Child(p, i)], f, 0)
  {
    CopyingFrames(u, w, img, p, i, srcAt);
    OfferedNext(u, w, img, p, i);
    TurnRuns(w, w1, img, p, i, f, srcAt);
  }

  lemma TurnRuns(w: World, w1: World, img: Image, p: Path, i: nat, f: nat, srcAt: map<Path, nat>)
    requires i < 512 && 1 <= Level(p) <= 3 && p in img && Interior(Depth(p), img[p][i]) && p in w.at
    requires p in srcAt && Read(w.mem, srcAt[p]) == img[p] && srcAt[p] != w.at[p] && !w.pool.Free(srcAt[p])
    requires !w.pool.Free(w.at[p]) && w.pool.Free(f) && f == Run(w).Offered()
    requires Run(w).Taken().pool == w.pool.(taken := w.pool.taken + {f}) && w1 == Grow(w, p, i, f, img[p][i].flags)
    ensures Level(Child(p, i)) == Level(p) - 1 && 2 <= Level(p) && w1.Frame(Child(p, i)) == f
    ensures CopyEntry(Run(w), Level(p), srcAt[p], w.at[p], i) == CopyTable(Run(w1), Level(Child(p, i)), img[p][i].frame, f, 0)
  {
    LinkedIsGrown(w, p, i, f, img, srcAt);
    ChildTurn(w, w1, p, i, srcAt[p], img[p][i]);
  }

  lemma LinkedIsGrown(w: World, p: Path, i: nat, f: nat, img: Image, srcAt: map<Path, nat>)
    requires p in w.at && i < 512 && f == Run(w).Offered() && f != w.at[p] && p in srcAt && f != srcAt[p]
    requires Run(w).Taken().pool == w.pool.(taken := w.pool.taken + {f})
    requires p in img && Read(w.mem, srcAt[p]) == img[p] && srcAt[p] != w.at[p]
    ensures Linked(Run(w), srcAt[p], w.at[p], i) == Run(Grow(w, p, i, f, img[p][i].flags))
    ensures Read(Grow(w, p, i, f, img[p][i].flags).mem, srcAt[p]) == img[p]
  {
  }

  // ---- The loop at the root ----------------------------------------------------------

  /** At the root a frame is seated as it is, neither cleared nor linked yet. */
  function SeatAsIs(w: World, i: nat, f: nat): World {
    World(w.mem, w.at[Child(Root, i) := f], w.pool.(taken := w.pool.taken + {f}))
  }

  lemma SeatedAsIs(w: World, i: nat, f: nat)
    requires w.pool.Free(f) && f == Draw(w.pool, 0) && Root in w.at && Child(Root, i) !in w.at && i < 512
    ensures var w1 := SeatAsIs(w, i, f);
            && Seated(w, w1, Root, Child(Root, i), f) && w1.Entries(Root) == w.Entries(Root)
            && w1.Entries(Child(Root, i)) == Read(w.mem, f) && w1.Frame(Child(Root, i)) == f
  {
  }

  /** A frame that is still free holds what it held when the copy began. */
  lemma StaleFrame(u: World, w: World, p: Path, f: nat)
    requires p in u.at && !u.pool.Free(u.at[p]) && Writes(u, w, p) && Drew(u.pool, w.pool) && w.pool.Free(f)
    ensures Read(w.mem, f) == Read(u.mem, f)
  {
    assert u.pool.Free(f);
  }

  lemma RootChildReady(u: World, w: World, img: Image, i: nat, f: nat, srcAt: map<Path, nat>)
    requires Copying(u, w, img, Root, i, srcAt) && i < 512 && Child(Root, i) in img
    requires f == Run(w).Offered()
    ensures ChildReady(u, w, SeatAsIs(w, i, f), img, Root, i, f, srcAt)
  {
    var w1 := SeatAsIs(w, i, f);
    OfferedNext(u, w, img, Root, i);
    RootPlace(u, w, img, i, f, srcAt);
    SeatedAsIs(w, i, f);
    SeatIsReady(u, w, w1, img, Root, i, f, srcAt);
    RootChildIsReady(u, w, w1, img, i, f, srcAt);
  }

  lemma RootPlace(u: World, w: World, img: Image, i: nat, f: nat, srcAt: map<Path, nat>)
    requires Copying(u, w, img, Root, i, srcAt) && i < 512 && Child(Root, i) in img && w.pool.Free(f)
    ensures Root in w.at && Child(Root, i) !in w.at && Root in img && Read(w.mem, f) == Read(u.mem, f)
  {
    FreshPlace(u, w, img, Root, i);
    StaleFrame(u, w, Root, f);
  }

  lemma RootChildIsReady(u: World, w: World, w1: World, img: Image, i: nat, f: nat, srcAt: map<Path, nat>)
    requires i < 512 && Root in img && Child(Root, i) in img && Seated(w, w1, Root, Child(Root, i), f)
    requires CanCopy(w1, img, Child(Root, i)) && SourceSafe(w1, srcAt, img)
    requires srcAt[Child(Root, i)] == img[Root][i].frame
    requires w1.Entries(Root) == w.Entries(Root) && w1.Frame(Child(Root, i)) == f
    requires w1.Entries(Child(Root, i)) == Read(w.mem, f) && Read(w.mem, f) == Read(u.mem, f)
    ensures ChildReady(u, w, w1, img, Root, i, f, srcAt)
  {
    assert Depth(Child(Root, i)) == 1;
  }

  /** The end of a turn: the filled table is linked. */
  lemma CopyingLinked(u: World, w: World, w1: World, w2: World, img: Image, i: nat, f: nat, srcAt: map<Path, nat>)
    requires Copying(u, w, img, Root, i, srcAt) && ChildReady(u, w, w1, img, Root, i, f, srcAt)
    requires Copying(w1, w2, img, Child(Root, i), 512, srcAt)
    ensures Root in w2.at && w2.at[Root] == u.Frame(Root) && Root in srcAt && Read(w2.mem, srcAt[Root]) == img[Root]
    ensures Copying(u, w2.Put(Root, i, Entry(f, img[Root][i].flags)), img, Root, i + 1, srcAt)
  {
    ReadyIsDone(u, w, w1, w2, img, Root, i, f, srcAt);
    ProgressLinked(u, w, w1, w2, img, Root, i, f);
    ChildStays(u, w, w1, w2, img, Root, i, f);
    SafeAfterPut(w2, Root, i, Entry(f, img[Root][i].flags), srcAt, img);
  }

  /** What a turn of the code does at the root. */
  lemma RootTurn(w: World, w2: World, i: nat, cr3: nat, e: Entry, f: nat)
    requires i < 512 && Root in w2.at && Read(w.mem, cr3)[i] == e && e.flags.present && f == Run(w).Offered() && f != 0
    requires Run(w).Taken().pool == w.pool.(taken := w.pool.taken + {f})
    requires Run(w2) == CopyTable(Run(SeatAsIs(w, i, f)), 3, e.frame, f, 0) && Read(w2.mem, cr3)[i] == e
    ensures CopyRootEntry(Run(w), w2.at[Root], cr3, i) == Some(Run(w2.Put(Root, i, Entry(f, e.flags))))
  {
    assert Run(SeatAsIs(w, i, f)) == Run(w).Taken();
  }

  lemma RootEntryCopies(u: World, w: World, img: Image, i: nat, srcAt: map<Path, nat>) returns (v: World)
    requires i < 512 && Copying(u, w, img, Root, i, srcAt)
    ensures Copying(u, v, img, Root, i + 1, srcAt)
    ensures CopyRootEntry(Run(w), u.Frame(Root), srcAt[Root], i) == Some(Run(v))
  {
    CopyingFrames(u, w, img, Root, i, srcAt);
    var e := img[Root][i];
    if !e.flags.present {
      v := w;
      CopyingSkip(u, w, img, Root, i, srcAt);
    } else {
      v := RootChildCopies(u, w, img, i, srcAt);
    }
  }

  lemma RootChildCopies(u: World, w: World, img: Image, i: nat, srcAt: map<Path, nat>) returns (v: World)
    requires i < 512 && Copying(u, w, img, Root, i, srcAt) && img[Root][i].flags.present
    ensures Copying(u, v, img, Root, i + 1, srcAt)
    ensures CopyRootEntry(Run(w), u.Frame(Root), srcAt[Root], i) == Some(Run(v))
  {
    var c, f := Child(Root, i), Run(w).Offered();
    var w1 := SeatAsIs(w, i, f);
    RootChildStart(u, w, w1, img, i, f, srcAt);
    var w2 := TableCopies(w1, w1, img, c, 0, srcAt);
    RootLinks(u, w, w2, img, i, f, srcAt);
    v := w2.Put(Root, i, Entry(f, img[Root][i].flags));
  }

  /** That turn up to the copy. */
  lemma RootChildStart(u: World, w: World, w1: World, img: Image, i: nat, f: nat, srcAt: map<Path, nat>)
    requires i < 512 && Copying(u, w, img, Root, i, srcAt) && img[Root][i].flags.present
    requires f == Run(w).Offered() && w1 == SeatAsIs(w, i, f)
    ensures ChildReady(u, w, w1, img, Root, i, f, srcAt) && Copying(w1, w1, img, Child(Root, i), 0, srcAt)
    ensures Level(Child(Root, i)) == 3 && w1.Frame(Child(Root, i)) == f
  {
    assert Child(Root, i) in img && Depth(Child(Root, i)) == 1;
    RootChildReady(u, w, img, i, f, srcAt);
    CopyingStart(w1, img, Child(Root, i), srcAt);
  }

  /** That turn from the filled table on. */
  lemma RootLinks(u: World, w: World, w2: World, img: Image, i: nat, f: nat, srcAt: map<Path, nat>)
    requires i < 512 && Copying(u, w, img, Root, i, srcAt) && img[Root][i].flags.present && f == Run(w).Offered()
    requires ChildReady(u, w, SeatAsIs(w, i, f), img, Root, i, f, srcAt)
    requires Copying(SeatAsIs(w, i, f), w2, img, Child(Root, i), 512, srcAt)
    requires Run(w2) == CopyTable(Run(SeatAsIs(w, i, f)), 3, img[Root][i].frame, f, 0)
    ensures Copying(u, w2.Put(Root, i, Entry(f, img[Root][i].flags)), img, Root, i + 1, srcAt)
    ensures CopyRootEntry(Run(w), u.Frame(Root), srcAt[Root], i) == Some(Run(w2.Put(Root, i, Entry(f, img[Root][i].flags))))
  {
    CopyingLinked(u, w, SeatAsIs(w, i, f), w2, img, i, f, srcAt);
    CopyingFrames(u, w, img, Root, i, srcAt);
    OfferedNext(u, w, img, Root, i);
    RootTurn(w, w2, i, srcAt[Root], img[Root][i], f);
  }

  /** CopyExistingPageTableToNew, from a state between two turns, copies the rest. */
  lemma {:induction false} RootCopies(u: World, w: World, img: Image, i: nat, srcAt: map<Path, nat>) returns (v: World)
    requires i <= 512 && Copying(u, w, img, Root, i, srcAt)
    ensures Copying(u, v, img, Root, 512, srcAt)
    ensures CopyRoot(Run(w), u.Frame(Root), srcAt[Root], i) == Some(Run(v))
    decreases 512 - i
  {
    if i == 512 {
      v := w;
    } else {
      var x := RootEntryCopies(u, w, img, i, srcAt);
      v := RootCopies(u, x, img, i + 1, srcAt);
    }
  }
}

/** The physical frame allocator seen as sets of frame numbers: what a request means,
    and what holds over whole histories of requests. */
module Frames {
  import opened Outcomes

  /** The frames the allocator manages, those it must never hand out, and those handed out. */
  datatype Pool = Pool(count: nat, reserved: set<nat>, taken: set<nat>) {

    predicate Free(p: nat) {
      p < count && p !in reserved && p !in taken
    }

    function FreeSet(): set<nat> {
      set p | 0 <= p < count && Free(p)
    }

    /** Frame 0 is never handed out, so address 0 can stand for failure. */
    ghost predicate Valid() {
      && 0 in reserved
      && reserved !! taken
      && (forall p | p in reserved :: p < count)
      && (forall p | p in taken :: p < count)
    }
  }

  /** The frames start .. start + n. */
  function Span(start: nat, n: nat): set<nat> {
    set p | 0 <= p < start + n && Within(p, start, n)
  }

  predicate Within(p: nat, start: nat, n: nat) {
    start <= p < start + n
  }

  predicate FreeRun(f: Pool, start: nat, n: nat) {
    forall p | start <= p < start + n :: f.Free(p)
  }

  /** The lowest free run of n frames at or above from. */
  function FirstFit(f: Pool, n: nat, from: nat): Option<nat>
    requires n > 0
    decreases f.count - from
  {
    if from >= f.count then None
    else if FreeRun(f, from, n) then Some(from)
    else FirstFit(f, n, from + 1)
  }

  /** The run granted, if any, and the pool afterwards. */
  datatype Allocation = Allocation(run: Option<nat>, after: Pool)

  /** What a request for n contiguous frames does. */
  function Allocate(f: Pool, n: nat): Allocation {
    if n == 0 then Allocation(None, f)
    else match FirstFit(f, n, 0)
         case None => Allocation(None, f)
         case Some(s) => Allocation(Some(s), f.(taken := f.taken + Span(s, n)))
  }

  /** The answer the caller sees: the address of the run, or 0 for a refusal. */
  function Address(run: Option<nat>): nat {
    match run
    case None => 0
    case Some(s) => s * PAGE_SIZE
  }

  function Release(f: Pool, start: nat, n: nat): Pool {
    f.(taken := f.taken - Span(start, n))
  }

  lemma {:induction false} SpanSize(start: nat, n: nat)
    ensures |Span(start, n)| == n
  {
    if n > 0 {
      SpanSize(start, n - 1);
      assert Span(start, n) == Span(start, n - 1) + {start + n - 1};
    } else {
      assert Span(start, n) == {};
    }
  }

  /** First fit is exact: it finds a run if and only if there is one, and then the lowest. */
  lemma {:induction false} FirstFitExact(f: Pool, n: nat, from: nat)
    requires n > 0
    ensures match FirstFit(f, n, from)
            case None => forall s: nat | from <= s :: !FreeRun(f, s, n)
            case Some(s) => from <= s && FreeRun(f, s, n) && forall t | from <= t < s :: !FreeRun(f, t, n)
    decreases f.count - from
  {
    if from >= f.count {
      forall s: nat | from <= s ensures !FreeRun(f, s, n) {
        assert !f.Free(s);
      }
    } else {
      FirstFitExact(f, n, from + 1);
    }
  }

  /** Handing out a run takes exactly its frames from the free set. */
  lemma TakeRun(f: Pool, s: nat, n: nat)
    requires f.Valid() && FreeRun(f, s, n)
    ensures var g := f.(taken := f.taken + Span(s, n));
            g.Valid() && g.FreeSet() == f.FreeSet() - Span(s, n) && |g.FreeSet()| == |f.FreeSet()| - n
  {
    var g := f.(taken := f.taken + Span(s, n));
    assert g.FreeSet() == f.FreeSet() - Span(s, n);
    forall p | p in Span(s, n) ensures p in f.FreeSet() {
      assert f.Free(p);
    }
    SpanSize(s, n);
  }

  /** Giving back a run adds exactly its frames to the free set. */
  lemma GiveRun(f: Pool, s: nat, n: nat)
    requires f.Valid() && Span(s, n) <= f.taken
    ensures var g := Release(f, s, n);
            g.Valid() && g.FreeSet() == f.FreeSet() + Span(s, n) && |g.FreeSet()| == |f.FreeSet()| + n
  {
    var g := Release(f, s, n);
    assert g.FreeSet() == f.FreeSet() + Span(s, n);
    assert Span(s, n) !! f.FreeSet();
    SpanSize(s, n);
  }

  lemma AllocateKeeps(f: Pool, n: nat)
    requires f.Valid()
    ensures var a := Allocate(f, n);
            match a.run
            case None => a.after == f
            case Some(s) =>
              && s != 0 && n > 0 && FreeRun(f, s, n)
              && a.after == f.(taken := f.taken + Span(s, n))
              && a.after.Valid()
              && a.after.FreeSet() == f.FreeSet() - Span(s, n)
              && |a.after.FreeSet()| == |f.FreeSet()| - n
  {
    if n > 0 {
      FirstFitExact(f, n, 0);
      match FirstFit(f, n, 0)
      case None =>
      case Some(s) =>
        assert !f.Free(0) && f.Free(s);
        TakeRun(f, s, n);
    }
  }

  /** The answer is 0 exactly when no free run is long enough; otherwise it is the address
      of the lowest free run of that length. */
  lemma RefusedIffNoRun(f: Pool, n: nat)
    requires f.Valid() && n > 0
    ensures Address(Allocate(f, n).run) == 0 <==> forall s: nat :: !FreeRun(f, s, n)
    ensures forall s: nat | Address(Allocate(f, n).run) == s * PAGE_SIZE && s > 0 ::
              FreeRun(f, s, n) && forall t: nat | t < s :: !FreeRun(f, t, n)
  {
    FirstFitExact(f, n, 0);
    AllocateKeeps(f, n);
  }

  /** A request for one frame is refused only when no frame is free at all. */
  lemma OneFrame(f: Pool)
    requires f.Valid()
    ensures Allocate(f, 1).run.None? <==> f.FreeSet() == {}
    ensures Allocate(f, 1).run.Some? ==>
              var p := Allocate(f, 1).run.value;
              && f.Free(p) && Allocate(f, 1).after == f.(taken := f.taken + {p})
  {
    FirstFitExact(f, 1, 0);
    match FirstFit(f, 1, 0)
    case None =>
      forall p: nat ensures p !in f.FreeSet() {
        assert !FreeRun(f, p, 1);
      }
    case Some(p) =>
      assert f.Free(p);
      assert p in f.FreeSet();
      assert Span(p, 1) == {p};
  }

  // ---- Histories -------------------------------------------------------------------

  /** A block handed out and not yet given back. */
  datatype Block = Block(start: nat, pages: nat) {
    function Frames(): set<nat> { Span(start, pages) }
  }

  datatype Request = Get(pages: nat) | Put(block: Block)

  /** The allocator together with the blocks its callers hold. */
  datatype Ledger = Ledger(frames: Pool, held: multiset<Block>)

  function Covered(bs: multiset<Block>): set<nat> {
    set b, p | b in bs && p in b.Frames() :: p
  }

  /** Callers give back only blocks they hold. */
  predicate Lawful(l: Ledger, r: Request) {
    r.Put? ==> r.block in l.held
  }

  function Serve(l: Ledger, r: Request): Ledger {
    match r
    case Get(n) =>
      var a := Allocate(l.frames, n);
      Ledger(a.after, if a.run.None? then l.held else l.held + multiset{Block(a.run.value, n)})
    case Put(b) =>
      Ledger(Release(l.frames, b.start, b.pages), l.held - multiset{b})
  }

  predicate LawfulRun(l: Ledger, rs: seq<Request>)
    decreases rs
  {
    rs == [] || (Lawful(l, rs[0]) && LawfulRun(Serve(l, rs[0]), rs[1..]))
  }

  function ServeAll(l: Ledger, rs: seq<Request>): Ledger
    decreases rs
  {
    if rs == [] then l else ServeAll(Serve(l, rs[0]), rs[1..])
  }

  /** No block twice, and no two blocks sharing a frame. */
  ghost predicate Apart(bs: multiset<Block>) {
    && (forall b | b in bs :: bs[b] == 1 && b.pages > 0)
    && (forall b, c | b in bs && c in bs && b != c :: b.Frames() !! c.Frames())
  }

  /** What holds of every ledger: base is what was allocated before the history began. */
  ghost predicate Sound(l: Ledger, base: set<nat>) {
    && l.frames.Valid()
    && Apart(l.held)
    && l.frames.taken == base + Covered(l.held)
    && base !! Covered(l.held)
  }

  lemma InCovered(bs: multiset<Block>, b: Block)
    requires b in bs
    ensures b.Frames() <= Covered(bs)
  {
  }

  lemma CoveredAdd(bs: multiset<Block>, b: Block)
    ensures Covered(bs + multiset{b}) == Covered(bs) + b.Frames()
  {
    var cs := bs + multiset{b};
    forall p ensures p in Covered(cs) <==> p in Covered(bs) + b.Frames() {
      if p in Covered(bs) {
        var c :| c in bs && p in c.Frames();
        assert c in cs;
      }
      if p in b.Frames() {
        assert b in cs;
      }
    }
  }

  lemma CoveredRemove(bs: multiset<Block>, b: Block)
    requires Apart(bs) && b in bs
    ensures Apart(bs - multiset{b})
    ensures Covered(bs - multiset{b}) == Covered(bs) - b.Frames()
  {
    var cs := bs - multiset{b};
    forall p ensures p in Covered(cs) <==> p in Covered(bs) - b.Frames() {
      if p in Covered(bs) - b.Frames() {
        var c :| c in bs && p in c.Frames();
        assert c in cs;
      }
      if p in Covered(cs) {
        var c :| c in cs && p in c.Frames();
        assert c in bs && c != b;
      }
    }
  }

  /** A block of free frames joins the blocks held. */
  lemma ApartAdd(bs: multiset<Block>, b: Block)
    requires Apart(bs) && b.pages > 0 && b.Frames() !! Covered(bs)
    ensures Apart(bs + multiset{b})
    ensures Covered(bs + multiset{b}) == Covered(bs) + b.Frames()
  {
    CoveredAdd(bs, b);
    forall c | c in bs ensures c.Frames() !! b.Frames() {
      InCovered(bs, c);
    }
    assert b.start in b.Frames();
  }

  lemma FreeBlock(f: Pool, b: Block)
    requires FreeRun(f, b.start, b.pages)
    ensures b.Frames() <= f.FreeSet()
    ensures b.Frames() !! f.taken
  {
    assert forall p | p in b.Frames() :: f.Free(p);
  }

  lemma GetKeepsSound(l: Ledger, n: nat, base: set<nat>)
    requires Sound(l, base)
    ensures Sound(Serve(l, Get(n)), base)
    ensures Serve(l, Get(n)).frames.reserved == l.frames.reserved
  {
    AllocateKeeps(l.frames, n);
    match Allocate(l.frames, n).run
    case None =>
    case Some(s) =>
      var b := Block(s, n);
      FreeBlock(l.frames, b);
      SetsAfterGet(base, Covered(l.held), b.Frames());
      ApartAdd(l.held, b);
  }

  lemma SetsAfterGet(base: set<nat>, c: set<nat>, b: set<nat>)
    requires base !! c && b !! base + c
    ensures (base + c) + b == base + (c + b) && base !! c + b && b !! c
  {
  }

  lemma SetsAfterPut(base: set<nat>, c: set<nat>, b: set<nat>)
    requires base !! c && b <= c
    ensures (base + c) - b == base + (c - b) && base !! c - b
  {
  }

  lemma PutKeepsSound(l: Ledger, b: Block, base: set<nat>)
    requires Sound(l, base) && b in l.held
    ensures Sound(Serve(l, Put(b)), base)
    ensures b.Frames() <= l.frames.taken
  {
    InCovered(l.held, b);
    CoveredRemove(l.held, b);
    SetsAfterPut(base, Covered(l.held), b.Frames());
    GiveRun(l.frames, b.start, b.pages);
  }

  /** Allocator safety over every history: the blocks outstanding never overlap, hold no
      reserved frame, and account for every allocation; the reserved set never changes. */
  lemma {:induction false} HistorySafe(l: Ledger, rs: seq<Request>, base: set<nat>)
    requires Sound(l, base) && LawfulRun(l, rs)
    ensures Sound(ServeAll(l, rs), base)
    ensures ServeAll(l, rs).frames.reserved == l.frames.reserved
    ensures Covered(ServeAll(l, rs).held) !! l.frames.reserved
    decreases rs
  {
    if rs != [] {
      match rs[0] {
        case Get(n) => GetKeepsSound(l, n, base);
        case Put(b) => PutKeepsSound(l, b, base);
      }
      HistorySafe(Serve(l, rs[0]), rs[1..], base);
    }
  }

  // ---- Replay ----------------------------------------------------------------------

  /** The blocks a list of requests is granted, in order, and the pool afterwards; None
      when one of the requests is refused. */
  function GetAll(f: Pool, sizes: seq<nat>): Option<(seq<Block>, Pool)>
    decreases sizes
  {
    if sizes == [] then Some(([], f))
    else
      var a := Allocate(f, sizes[0]);
      if a.run.None? then None
      else match GetAll(a.after, sizes[1..])
           case None => None
           case Some((blocks, g)) => Some(([Block(a.run.value, sizes[0])] + blocks, g))
  }

  /** Freeing each block in turn; None when one of them is not wholly allocated. */
  function PutAll(f: Pool, order: seq<Block>): Option<Pool>
    decreases order
  {
    if order == [] then Some(f)
    else if order[0].Frames() <= f.taken && order[0].Frames() !! f.reserved
    then PutAll(Release(f, order[0].start, order[0].pages), order[1..])
    else None
  }

  lemma MultisetCons(b: Block, tail: seq<Block>)
    ensures multiset([b] + tail) == multiset(tail) + multiset{b}
  {
  }

  lemma SetsOfGrant(free: set<nat>, c: set<nat>, b: set<nat>, taken: set<nat>)
    requires c <= free - b && b <= free
    ensures b !! c && c + b <= free && (taken + b) + c == taken + (c + b)
  {
  }

  lemma SetsOfReturn(taken: set<nat>, c: set<nat>, b: set<nat>)
    requires b <= c <= taken
    ensures c - b <= taken - b && (taken - b) - (c - b) == taken - c
  {
  }

  lemma {:induction false} GrantedBlocks(f: Pool, sizes: seq<nat>)
    requires f.Valid() && GetAll(f, sizes).Some?
    ensures var (blocks, g) := GetAll(f, sizes).value;
            && Apart(multiset(blocks))
            && Covered(multiset(blocks)) <= f.FreeSet()
            && g == f.(taken := f.taken + Covered(multiset(blocks)))
    decreases sizes
  {
    if sizes == [] {
      assert f.taken + {} == f.taken;
    } else {
      var a := Allocate(f, sizes[0]);
      AllocateKeeps(f, sizes[0]);
      GrantedBlocks(a.after, sizes[1..]);
      var tail := GetAll(a.after, sizes[1..]).value.0;
      var b := Block(a.run.value, sizes[0]);
      MultisetCons(b, tail);
      FreeBlock(f, b);
      SetsOfGrant(f.FreeSet(), Covered(multiset(tail)), b.Frames(), f.taken);
      ApartAdd(multiset(tail), b);
    }
  }

  lemma {:induction false} PutAllFrees(f: Pool, order: seq<Block>)
    requires f.Valid() && Apart(multiset(order)) && Covered(multiset(order)) <= f.taken
    ensures PutAll(f, order) == Some(f.(taken := f.taken - Covered(multiset(order))))
    decreases order
  {
    if order == [] {
      assert Covered(multiset(order)) == {};
      assert f.taken - {} == f.taken;
    } else {
      var b, tail := order[0], order[1..];
      FirstReturned(f, order);
      PutAllFrees(Release(f, b.start, b.pages), tail);
    }
  }

  lemma FirstReturned(f: Pool, order: seq<Block>)
    requires f.Valid() && order != [] && Apart(multiset(order)) && Covered(multiset(order)) <= f.taken
    ensures var b, rest := order[0], multiset(order[1..]);
            var g := Release(f, b.start, b.pages);
            && b.Frames() <= f.taken && g.Valid() && Apart(rest) && Covered(rest) <= g.taken
            && g.taken - Covered(rest) == f.taken - Covered(multiset(order))
  {
    var b, tail := order[0], order[1..];
    assert order == [b] + tail;
    MultisetCons(b, tail);
    CoveredRemove(multiset(order), b);
    InCovered(multiset(order), b);
    assert multiset(order) - multiset{b} == multiset(tail);
    GiveRun(f, b.start, b.pages);
    SetsOfReturn(f.taken, Covered(multiset(order)), b.Frames());
  }

  /** Replay: after any list of granted requests, giving all blocks back in any order
      succeeds and restores the allocator, so the same list is granted the same runs. */
  lemma Replay(f: Pool, sizes: seq<nat>, order: seq<Block>)
    requires f.Valid() && GetAll(f, sizes).Some?
    requires multiset(order) == multiset(GetAll(f, sizes).value.0)
    ensures PutAll(GetAll(f, sizes).value.1, order).Some?
    ensures GetAll(PutAll(GetAll(f, sizes).value.1, order).value, sizes) == GetAll(f, sizes)
    ensures PutAll(GetAll(f, sizes).value.1, order).value == f
  {
    GrantedBlocks(f, sizes);
    var g := GetAll(f, sizes).value.1;
    var c := Covered(multiset(order));
    assert forall p | p in c :: f.Free(p);
    PutAllFrees(g, order);
    assert (f.taken + c) - c == f.taken;
  }

  // ---- Histories of any calls --------------------------------------------------------

  /** One call, whoever makes it: Give returns any run of frames, be it a whole block, part of
      one, or parts of several. */
  datatype Ask = Ask(n: nat) | Give(start: nat, n: nat)

  /** What a call does; None stands for the panic on a frame that is not handed out. */
  function Answer(f: Pool, a: Ask): Option<Pool> {
    match a
    case Ask(n) => Some(Allocate(f, n).after)
    case Give(start, n) => if Span(start, n) <= f.taken then Some(Release(f, start, n)) else None
  }

  function AnswerAll(f: Pool, asks: seq<Ask>): Option<Pool>
    decreases |asks|
  {
    if asks == [] then Some(f)
    else match AnswerAll(f, asks[..|asks| - 1])
         case None => None
         case Some(g) => Answer(g, asks[|asks| - 1])
  }

  /** The frames that a call is granted. */
  function Granted(f: Pool, a: Ask): set<nat> {
    if a.Ask? && Allocate(f, a.n).run.Some? then Span(Allocate(f, a.n).run.value, a.n) else {}
  }

  function Given(a: Ask): set<nat> {
    if a.Give? then Span(a.start, a.n) else {}
  }

  /** What a call that does not panic keeps and changes. */
  ghost predicate Answered(f: Pool, g: Pool, a: Ask) {
    && g.Valid() && g.count == f.count && g.reserved == f.reserved
    && Granted(f, a) <= f.FreeSet() && Given(a) <= f.taken
    && g.taken == f.taken + Granted(f, a) - Given(a)
    && g.FreeSet() == f.FreeSet() - Granted(f, a) + Given(a)
    && |g.FreeSet()| == |f.FreeSet()| - |Granted(f, a)| + |Given(a)|
  }

  lemma AnswerKeeps(f: Pool, a: Ask)
    requires f.Valid() && Answer(f, a).Some?
    ensures Answered(f, Answer(f, a).value, a)
  {
    match a
    case Ask(n) => AskKeeps(f, n);
    case Give(start, n) =>
      GiveRun(f, start, n);
      SpanSize(start, n);
      assert f.taken + {} - Span(start, n) == f.taken - Span(start, n);
  }

  lemma AskKeeps(f: Pool, n: nat)
    requires f.Valid()
    ensures Answered(f, Allocate(f, n).after, Ask(n))
  {
    AllocateKeeps(f, n);
    if Allocate(f, n).run.Some? {
      SpanSize(Allocate(f, n).run.value, n);
      forall p | p in Span(Allocate(f, n).run.value, n) ensures p in f.FreeSet() {
        assert f.Free(p);
      }
    }
  }

  /** Over every history without a panic the pool stays sound, with the same frames and the
      same reserved ones, and no reserved frame is ever granted. */
  lemma {:induction false} AnyHistorySafe(f: Pool, asks: seq<Ask>)
    requires f.Valid() && AnswerAll(f, asks).Some?
    ensures var g := AnswerAll(f, asks).value;
            && g.Valid() && g.count == f.count && g.reserved == f.reserved
            && (forall a :: Granted(g, a) !! f.reserved + g.taken)
    decreases |asks|
  {
    if asks != [] {
      var before := asks[..|asks| - 1];
      AnyHistorySafe(f, before);
      AnswerKeeps(AnswerAll(f, before).value, asks[|asks| - 1]);
    }
    var g := AnswerAll(f, asks).value;
    forall a ensures Granted(g, a) !! f.reserved + g.taken {
      AnswerKeepsGrant(g, a);
    }
  }

  lemma AnswerKeepsGrant(g: Pool, a: Ask)
    requires g.Valid()
    ensures Granted(g, a) <= g.FreeSet()
  {
    if a.Ask? {
      AnswerKeeps(g, a);
    }
  }

  lemma {:induction false} AnswerPrefix(f: Pool, asks: seq<Ask>, i: nat)
    requires i <= |asks| && AnswerAll(f, asks).Some?
    ensures AnswerAll(f, asks[..i]).Some?
    ensures i < |asks| ==> AnswerAll(f, asks[..i + 1]) == Answer(AnswerAll(f, asks[..i]).value, asks[i])
    decreases |asks|
  {
    if i == |asks| {
      assert asks[..i] == asks;
    } else {
      var before := asks[..|asks| - 1];
      assert asks[..i + 1][..i] == asks[..i];
      if i < |asks| - 1 {
        AnswerPrefix(f, before, i + 1);
        assert before[..i + 1] == asks[..i + 1];
        AnswerPrefix(f, before, i);
        assert before[..i] == asks[..i];
      } else {
        assert asks[..i + 1] == asks;
      }
    }
  }

  /** A frame granted stays handed out until it is given back. */
  lemma {:induction false} StaysTaken(f: Pool, asks: seq<Ask>, i: nat, j: nat, p: nat)
    requires f.Valid() && AnswerAll(f, asks).Some? && i < j <= |asks|
    requires AnswerAll(f, asks[..i]).Some? && p in Granted(AnswerAll(f, asks[..i]).value, asks[i])
    requires forall k | i < k < j :: p !in Given(asks[k])
    ensures AnswerAll(f, asks[..j]).Some? && p in AnswerAll(f, asks[..j]).value.taken
    decreases j
  {
    AnswerPrefix(f, asks, j - 1);
    AnswerPrefix(f, asks, j);
    AnyHistorySafe(f, asks[..j - 1]);
    if i < j - 1 {
      StaysTaken(f, asks, i, j - 1, p);
    }
    StaysOneCall(AnswerAll(f, asks[..j - 1]).value, asks[j - 1], p);
  }

  lemma StaysOneCall(g: Pool, a: Ask, p: nat)
    requires g.Valid() && Answer(g, a).Some? && (p in Granted(g, a) || (p in g.taken && p !in Given(a)))
    ensures p in Answer(g, a).value.taken
  {
    AnswerKeeps(g, a);
  }

  /** Between two grants of a frame it was given back. */
  lemma GrantedOnce(f: Pool, asks: seq<Ask>, i: nat, j: nat, p: nat)
    requires f.Valid() && AnswerAll(f, asks).Some? && i < j < |asks|
    requires AnswerAll(f, asks[..i]).Some? && p in Granted(AnswerAll(f, asks[..i]).value, asks[i])
    requires AnswerAll(f, asks[..j]).Some? && p in Granted(AnswerAll(f, asks[..j]).value, asks[j])
    ensures exists k | i < k < j :: p in Given(asks[k])
  {
    AnyHistorySafe(f, asks[..j]);
    if forall k | i < k < j :: p !in Given(asks[k]) {
      StaysTaken(f, asks, i, j, p);
    }
  }
}

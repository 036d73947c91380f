/** Two address spaces over one allocator, such as the kernel's and a process's: their calls
    may be interleaved in any way, and each still behaves like a partial map of its own. */
module PageSpaces {
  import opened Outcomes
  import opened Frames
  import opened PageTables
  import opened PageOps
  import opened PageRuns

  /** Physical memory, the allocator, and the tables of the two spaces. */
  datatype Pair = Pair(mem: Memory, pool: Pool, one: map<Path, nat>, two: map<Path, nat>) {
    function One(): World { World(mem, one, pool) }

    function Two(): World { World(mem, two, pool) }

    /** The same pair, seen from the second space. */
    function Swap(): Pair { Pair(mem, pool, two, one) }
  }

  /** Both trees are sound, their frames are disjoint, and with the frames in base they are
      all that is handed out. */
  ghost predicate GoodPair(p: Pair, root1: nat, root2: nat, base: set<nat>) {
    && Good(p.One(), root1, base + p.two.Values)
    && Good(p.Two(), root2, base + p.one.Values)
  }

  /** A call on one of the two. */
  datatype Turn = First(op: Op) | Second(op: Op)

  function PerformFirst(p: Pair, op: Op): Option<Pair>
    requires op.spot.Valid()
  {
    match Perform(p.One(), op)
    case None => None
    case Some(v) => Some(Pair(v.mem, v.pool, v.at, p.two))
  }

  function Take(p: Pair, t: Turn): Option<Pair>
    requires t.op.spot.Valid()
  {
    match t
    case First(op) => PerformFirst(p, op)
    case Second(op) =>
      match PerformFirst(p.Swap(), op)
      case None => None
      case Some(q) => Some(q.Swap())
  }

  predicate ProperTurn(p: Pair, t: Turn) {
    match t
    case First(op) => Proper(p.One(), op)
    case Second(op) => Proper(p.Two(), op)
  }

  predicate ValidTurns(turns: seq<Turn>) {
    forall i | 0 <= i < |turns| :: turns[i].op.spot.Valid()
  }

  ghost predicate AllProperTurns(p: Pair, turns: seq<Turn>) {
    ValidTurns(turns) && forall i | 0 <= i < |turns| :: ProperTurn(p, turns[i])
  }

  function TakeAll(p: Pair, turns: seq<Turn>): Option<Pair>
    requires ValidTurns(turns)
    decreases turns
  {
    if turns == [] then Some(p)
    else match Take(p, turns[0])
         case None => None
         case Some(q) => TakeAll(q, turns[1..])
  }

  /** The two partial maps after the same calls. */
  ghost function SimpleTurns(m: imap<Spot, Entry>, n: imap<Spot, Entry>, turns: seq<Turn>): Option<(imap<Spot, Entry>, imap<Spot, Entry>)>
    decreases turns
  {
    if turns == [] then Some((m, n))
    else match turns[0]
         case First(op) =>
           (match Simple(m, op)
            case None => None
            case Some(k) => SimpleTurns(k, n, turns[1..]))
         case Second(op) =>
           (match Simple(n, op)
            case None => None
            case Some(k) => SimpleTurns(m, k, turns[1..]))
  }

  /** A page to be mapped lacks more tables than frames are free. */
  predicate Short(p: Pair, t: Turn) {
    t.op.Map? && Missing(if t.First? then p.One() else p.Two(), t.op.spot) > |p.pool.FreeSet()|
  }

  predicate RunsShort(p: Pair, turns: seq<Turn>)
    requires ValidTurns(turns)
    decreases turns
  {
    && turns != []
    && (|| Short(p, turns[0])
        || (Take(p, turns[0]).Some? && RunsShort(Take(p, turns[0]).value, turns[1..])))
  }

  // ---- One call ----------------------------------------------------------------------

  /** The frames of the other space are foreign to a call on this one. */
  lemma OtherUntouched(p: Pair, root1: nat, root2: nat, base: set<nat>, op: Op, q: Path)
    requires GoodPair(p, root1, root2, base) && Proper(p.One(), op) && PerformFirst(p, op).Some?
    ensures PerformFirst(p, op).value.Two().Entries(q) == p.Two().Entries(q)
  {
    var b := base + p.two.Values;
    if q in p.two {
      assert p.two[q] in p.two.Values;
      PerformSparesForeign(p.One(), root1, b, op, p.two[q]);
    } else {
      PerformSparesForeign(p.One(), root1, b, op, 0);
    }
  }

  lemma OtherTree(u: World, v: World, root: nat)
    requires Tree(u, root) && v.at == u.at && forall q :: v.Entries(q) == u.Entries(q)
    ensures Tree(v, root)
  {
    forall q, i | Child(q, i) in v.at ensures q in v.at && i < 512 && PointsTo(v, q, i) {
      assert PointsTo(u, q, i);
    }
    forall q, i: nat | q in v.at && i < 512 ensures Settled(v, q, i) {
      assert Settled(u, q, i);
    }
  }

  lemma OtherOwns(u: World, v: World, base: set<nat>, one: set<nat>, two: set<nat>)
    requires Owns(u, base + two) && one == u.at.Values && two !! one && base !! two
    requires v.pool == u.pool && v.at.Values == two
    ensures Owns(v, base + one)
  {
  }

  lemma SameLookups(u: World, v: World)
    requires v.at == u.at && forall q :: v.Entries(q) == u.Entries(q)
    ensures Pages(v) == Pages(u)
    ensures forall t: Spot | t.Valid() :: ClearPath(v, t) <==> ClearPath(u, t)
  {
    forall t: Spot | t.Valid() ensures Lookup(v, t) == Lookup(u, t) {
      SameWalk(v, u, 0, t, []);
    }
  }

  /** What a call on the first space does: its map changes, the second's does not. */
  ghost predicate FirstStepped(p: Pair, q: Pair, root1: nat, root2: nat, base: set<nat>, op: Op) {
    && GoodPair(q, root1, root2, base)
    && Simple(Pages(p.One()), op) == Some(Pages(q.One())) && Pages(q.Two()) == Pages(p.Two())
    && (forall t: Spot | t.Valid() && ClearPath(p.One(), t) :: ClearPath(q.One(), t))
    && (forall t: Spot | t.Valid() && ClearPath(p.Two(), t) :: ClearPath(q.Two(), t))
  }

  lemma FirstSteps(p: Pair, root1: nat, root2: nat, base: set<nat>, op: Op)
    requires GoodPair(p, root1, root2, base) && Proper(p.One(), op)
    ensures PerformFirst(p, op).None? <==>
            Simple(Pages(p.One()), op).None? || (op.Map? && Missing(p.One(), op.spot) > |p.pool.FreeSet()|)
    ensures PerformFirst(p, op).Some? ==> FirstStepped(p, PerformFirst(p, op).value, root1, root2, base, op)
  {
    PerformRefines(p.One(), root1, base + p.two.Values, op);
    if PerformFirst(p, op).Some? {
      var q := PerformFirst(p, op).value;
      forall r ensures q.Two().Entries(r) == p.Two().Entries(r) {
        OtherUntouched(p, root1, root2, base, op, r);
      }
      OtherTree(p.Two(), q.Two(), root2);
      OtherOwns(q.One(), q.Two(), base, q.one.Values, q.two.Values);
      SameLookups(p.Two(), q.Two());
    }
  }

  // ---- Every interleaving --------------------------------------------------------------

  lemma SwapGood(p: Pair, root1: nat, root2: nat, base: set<nat>)
    requires GoodPair(p, root1, root2, base)
    ensures GoodPair(p.Swap(), root2, root1, base)
  {
  }

  /** What one turn does, whoever's it is. */
  ghost predicate Stepped(p: Pair, q: Pair, root1: nat, root2: nat, base: set<nat>, t: Turn) {
    match t
    case First(op) => FirstStepped(p, q, root1, root2, base, op)
    case Second(op) => FirstStepped(p.Swap(), q.Swap(), root2, root1, base, op)
  }

  lemma TurnSteps(p: Pair, root1: nat, root2: nat, base: set<nat>, t: Turn)
    requires GoodPair(p, root1, root2, base) && ProperTurn(p, t)
    ensures Take(p, t).None? <==>
            Simple(Pages(if t.First? then p.One() else p.Two()), t.op).None? || Short(p, t)
    ensures Take(p, t).Some? ==> Stepped(p, Take(p, t).value, root1, root2, base, t)
  {
    match t
    case First(op) => FirstSteps(p, root1, root2, base, op);
    case Second(op) =>
      SwapGood(p, root1, root2, base);
      FirstSteps(p.Swap(), root2, root1, base, op);
  }

  lemma SteppedGood(p: Pair, q: Pair, root1: nat, root2: nat, base: set<nat>, t: Turn)
    requires Stepped(p, q, root1, root2, base, t)
    ensures GoodPair(q, root1, root2, base)
  {
    if t.Second? {
      SwapGood(q.Swap(), root2, root1, base);
    }
  }

  lemma TurnsStayProper(p: Pair, q: Pair, root1: nat, root2: nat, base: set<nat>, turns: seq<Turn>)
    requires turns != [] && AllProperTurns(p, turns) && Stepped(p, q, root1, root2, base, turns[0])
    ensures AllProperTurns(q, turns[1..])
  {
    forall i | 0 <= i < |turns[1..]| ensures ProperTurn(q, turns[1..][i]) {
      assert ProperTurn(p, turns[i + 1]);
    }
  }

  /** Any interleaving of calls on the two spaces does to each what its own calls do to its
      map of pages. Throughout, both trees are sound, no frame belongs to both, and the frames
      handed out are exactly their tables and whatever was handed out before. It panics exactly
      when one of the maps refuses a call or the frames run out. */
  lemma {:induction false} Interleaved(p: Pair, root1: nat, root2: nat, base: set<nat>, turns: seq<Turn>)
    requires GoodPair(p, root1, root2, base) && AllProperTurns(p, turns)
    ensures TakeAll(p, turns).Some? ==>
              var q := TakeAll(p, turns).value;
              && SimpleTurns(Pages(p.One()), Pages(p.Two()), turns) == Some((Pages(q.One()), Pages(q.Two())))
              && GoodPair(q, root1, root2, base) && q.one.Values !! q.two.Values
              && q.pool.taken == base + q.one.Values + q.two.Values
    ensures TakeAll(p, turns).None? <==>
            SimpleTurns(Pages(p.One()), Pages(p.Two()), turns).None? || RunsShort(p, turns)
    decreases turns
  {
    if turns != [] {
      TurnSteps(p, root1, root2, base, turns[0]);
      if Take(p, turns[0]).Some? {
        var q := Take(p, turns[0]).value;
        SteppedGood(p, q, root1, root2, base, turns[0]);
        TurnsStayProper(p, q, root1, root2, base, turns);
        Interleaved(q, root1, root2, base, turns[1..]);
      }
    }
  }
}

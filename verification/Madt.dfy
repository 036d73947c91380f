/** The interrupt entries of the ACPI MADT, a run of records that each begin with a type
    and a length (section 5.2.12 of the ACPI Specification), and the interrupt routes that
    the I/O APIC manager builds from them. */
module Madt {
  import opened Outcomes

  type Byte = b: int | 0 <= b < 256

  /** A table as the firmware leaves it in memory, header included. */
  type Bytes = seq<Byte>

  const HEADER: nat := 44
  const IOAPIC: Byte := 1
  const OVERRIDE: Byte := 2

  function Read16(t: Bytes, at: nat): nat
    requires at + 2 <= |t|
  {
    var low: int, high: int := t[at], t[at + 1];
    low + 0x100 * high
  }

  function Read32(t: Bytes, at: nat): nat
    requires at + 4 <= |t|
  {
    Read16(t, at) + 0x1_0000 * Read16(t, at + 2)
  }

  /** The table's own length field. */
  function End(t: Bytes): nat
    requires |t| >= HEADER
  {
    Read32(t, 4)
  }

  /** From pos on every record met can be read and has a length. */
  predicate Records(t: Bytes, pos: nat, end: nat)
    decreases end - pos
  {
    pos < end ==> pos + 2 <= |t| && t[pos + 1] > 0 && Records(t, pos + t[pos + 1], end)
  }

  predicate WellFormed(t: Bytes) {
    |t| >= HEADER && Records(t, HEADER, End(t))
  }

  /** Where the records of one type begin, in order. */
  function OfType(t: Bytes, kind: Byte, pos: nat, end: nat): seq<nat>
    requires Records(t, pos, end)
    decreases end - pos
  {
    if pos >= end then []
    else (if t[pos] == kind then [pos] else []) + OfType(t, kind, pos + t[pos + 1], end)
  }

  function Entries(t: Bytes, kind: Byte): seq<nat>
    requires WellFormed(t)
  {
    OfType(t, kind, HEADER, End(t))
  }

  /** One record of a walk. */
  lemma Walks(t: Bytes, kind: Byte, pos: nat, end: nat)
    requires Records(t, pos, end) && pos < end
    ensures pos + 2 <= |t| && t[pos + 1] > 0 && Records(t, pos + t[pos + 1], end)
    ensures OfType(t, kind, pos, end) ==
            (if t[pos] == kind then [pos] else []) + OfType(t, kind, pos + t[pos + 1], end)
  {
  }

  method FindEntryCount(t: Bytes, kind: Byte) returns (count: nat)
    requires WellFormed(t)
    ensures count == |Entries(t, kind)|
  {
    var current: nat, end: nat := HEADER, End(t);
    count := 0;
    while current < end
      invariant Records(t, current, end)
      invariant |Entries(t, kind)| == count + |OfType(t, kind, current, end)|
      decreases end - current
    {
      Walks(t, kind, current, end);
      if t[current] == kind {
        count := count + 1;
      }
      current := current + t[current + 1];
    }
  }

  /** Position k of a list, and the rest, when the list from there on is known. */
  lemma SliceHead(s: seq<nat>, k: nat, x: nat, rest: seq<nat>)
    requires k <= |s| && s[k..] == [x] + rest
    ensures k < |s| && s[k] == x && s[k + 1..] == rest
  {
    assert |s[k..]| == 1 + |rest| && s[k..][0] == x;
    assert s[k + 1..] == s[k..][1..];
  }

  /** The search has come to pos, past the first k entries of all. */
  predicate Past(t: Bytes, kind: Byte, pos: nat, end: nat, all: seq<nat>, k: nat) {
    Records(t, pos, end) && k <= |all| && OfType(t, kind, pos, end) == all[k..]
  }

  lemma PastRecord(t: Bytes, kind: Byte, pos: nat, end: nat, all: seq<nat>, k: nat)
    requires Past(t, kind, pos, end, all, k) && pos < end
    ensures pos + 2 <= |t| && t[pos + 1] > 0 && (t[pos] == kind ==> k < |all| && all[k] == pos)
    ensures Past(t, kind, pos + t[pos + 1], end, all, if t[pos] == kind then k + 1 else k)
  {
    Walks(t, kind, pos, end);
    if t[pos] == kind {
      SliceHead(all, k, pos, OfType(t, kind, pos + t[pos + 1], end));
    }
  }

  lemma PastAll(t: Bytes, kind: Byte, pos: nat, end: nat, all: seq<nat>, k: nat)
    requires Past(t, kind, pos, end, all, k) && pos >= end
    ensures k == |all|
  {
    assert |all[k..]| == 0;
  }

  /** The record of a type with a given index, if there are that many. */
  method FindEntry(t: Bytes, kind: Byte, index: nat) returns (found: Option<nat>)
    requires WellFormed(t)
    ensures found == if index < |Entries(t, kind)| then Some(Entries(t, kind)[index]) else None
  {
    var current: nat, left: nat, end: nat := HEADER, index, End(t);
    ghost var all, k := Entries(t, kind), 0;
    while current < end
      invariant k + left == index && Past(t, kind, current, end, all, k)
      decreases end - current
    {
      PastRecord(t, kind, current, end, all, k);
      k := if t[current] == kind then k + 1 else k;
      if t[current] == kind {
        if left == 0 {
          return Some(current);
        }
        left := left - 1;
      }
      current := current + t[current + 1];
    }
    PastAll(t, kind, current, end, all, k);
    return None;
  }

  // ---- Interrupt routes --------------------------------------------------------------

  /** The global system interrupt and the flags of a legacy interrupt line. */
  datatype Route = Route(gsi: nat, flags: nat)

  const LINES: nat := 16
  const MAX_IOAPICS: nat := 16

  type Routes = r: seq<Route> | |r| == LINES witness seq(LINES, i requires 0 <= i < LINES => Route(i, 0))

  function Identity(): Routes {
    seq(LINES, i requires 0 <= i < LINES => Route(i, 0))
  }

  /** Overrides at these places hold all their ten bytes. */
  predicate Whole(t: Bytes, at: seq<nat>) {
    forall i | 0 <= i < |at| :: at[i] + 10 <= |t|
  }

  function Source(t: Bytes, at: nat): nat
    requires at + 10 <= |t|
  {
    t[at + 3]
  }

  /** One interrupt source override; sources from 16 on are ignored. */
  function Apply(t: Bytes, at: nat, routes: Routes): Routes
    requires at + 10 <= |t|
  {
    if Source(t, at) < LINES then routes[Source(t, at) := Route(Read32(t, at + 4), Read16(t, at + 8))] else routes
  }

  /** One pass over all the records from pos on, applying each override as it is met. */
  function Pass(t: Bytes, pos: nat, end: nat, routes: Routes): Routes
    requires Records(t, pos, end)
    decreases end - pos
  {
    if pos >= end then routes
    else Pass(t, pos + t[pos + 1], end, if t[pos] == OVERRIDE && pos + 10 <= |t| then Apply(t, pos, routes) else routes)
  }

  function ApplyAll(t: Bytes, at: seq<nat>, routes: Routes): Routes
    requires Whole(t, at)
  {
    if at == [] then routes else ApplyAll(t, at[1..], Apply(t, at[0], routes))
  }

  /** Counting and looking up by index is one pass over the table. */
  lemma {:induction false} IndexedIsPass(t: Bytes, pos: nat, end: nat, routes: Routes)
    requires Records(t, pos, end)
    requires Whole(t, OfType(t, OVERRIDE, pos, end))
    ensures ApplyAll(t, OfType(t, OVERRIDE, pos, end), routes) == Pass(t, pos, end, routes)
    decreases end - pos
  {
    if pos < end {
      var all, next := OfType(t, OVERRIDE, pos, end), pos + t[pos + 1];
      var rest := OfType(t, OVERRIDE, next, end);
      if t[pos] == OVERRIDE {
        assert all == [pos] + rest && all[0] == pos && all[1..] == rest;
        forall i | 0 <= i < |rest| ensures rest[i] + 10 <= |t| {
          assert rest[i] == all[i + 1];
        }
        IndexedIsPass(t, next, end, Apply(t, pos, routes));
      } else {
        assert all == rest;
        IndexedIsPass(t, next, end, routes);
      }
    }
  }

  lemma {:induction false} ApplyOneMore(t: Bytes, at: seq<nat>, k: nat, routes: Routes)
    requires k < |at| && Whole(t, at)
    ensures ApplyAll(t, at[..k + 1], routes) == Apply(t, at[k], ApplyAll(t, at[..k], routes))
    decreases k
  {
    assert at[..k + 1][0] == at[0];
    if k > 0 {
      assert at[..k + 1][1..] == at[1..][..k] && at[..k][1..] == at[1..][..k - 1];
      ApplyOneMore(t, at[1..], k - 1, Apply(t, at[0], routes));
    }
  }

  /** The last of some overrides that is for a line. */
  function LastFor(t: Bytes, at: seq<nat>, line: nat): (last: Option<nat>)
    requires Whole(t, at)
    ensures last.Some? ==> last.value + 10 <= |t|
    ensures last.None? <==> forall i | 0 <= i < |at| :: Source(t, at[i]) != line
  {
    if at == [] then None
    else if Source(t, at[|at| - 1]) == line then Some(at[|at| - 1])
    else LastFor(t, at[..|at| - 1], line)
  }

  /** For each line the last override of that line wins; without one it keeps its route. */
  lemma {:induction false} LastWins(t: Bytes, at: seq<nat>, routes: Routes, line: nat)
    requires line < LINES && Whole(t, at)
    ensures ApplyAll(t, at, routes)[line] ==
              match LastFor(t, at, line)
              case None => routes[line]
              case Some(a) => Route(Read32(t, a + 4), Read16(t, a + 8))
    decreases |at|
  {
    if at != [] {
      var n := |at| - 1;
      LastWins(t, at[..n], routes, line);
      ApplyOneMore(t, at, n, routes);
      assert at[..n + 1] == at;
    }
  }

  /** A line's route in the finished table, from the table of records alone. */
  lemma RoutesExact(t: Bytes, line: nat)
    requires WellFormed(t) && Whole(t, Entries(t, OVERRIDE)) && line < LINES
    ensures Pass(t, HEADER, End(t), Identity())[line] ==
              match LastFor(t, Entries(t, OVERRIDE), line)
              case None => Route(line, 0)
              case Some(a) => Route(Read32(t, a + 4), Read16(t, a + 8))
  {
    IndexedIsPass(t, HEADER, End(t), Identity());
    LastWins(t, Entries(t, OVERRIDE), Identity(), line);
  }

  // ---- Tables written out as records -----------------------------------------------

  function Flat(rs: seq<Bytes>): Bytes {
    if rs == [] then [] else Flat(rs[..|rs| - 1]) + rs[|rs| - 1]
  }

  /** Where record j begins. */
  function Start(rs: seq<Bytes>, j: nat): nat
    requires j <= |rs|
  {
    44 + |Flat(rs[..j])|
  }

  /** The table is a header, whose bytes 4 to 7 are the length of the table with the low byte
      first, and then the records, each with its own length as its second byte. */
  predicate Written(t: Bytes, head: Bytes, rs: seq<Bytes>) {
    && |head| == 44 && t == head + Flat(rs)
    && head[4] as int + 0x100 * head[5] as int + 0x1_0000 * head[6] as int + 0x100_0000 * head[7] as int == |t|
    && (forall j | 0 <= j < |rs| :: |rs[j]| >= 2 && rs[j][1] as int == |rs[j]|)
    && (forall j | 0 <= j < |rs| && rs[j][0] == 2 :: |rs[j]| >= 10)
  }

  lemma {:induction false} FlatSlice(rs: seq<Bytes>, j: nat)
    requires j < |rs|
    ensures var a := |Flat(rs[..j])|; |Flat(rs[..j + 1])| == a + |rs[j]| <= |Flat(rs)| && Flat(rs)[a..a + |rs[j]|] == rs[j]
  {
    var front := rs[..|rs| - 1];
    assert rs[..j + 1][..j] == rs[..j];
    if j < |rs| - 1 {
      FlatSlice(front, j);
      assert front[..j] == rs[..j] && front[..j + 1] == rs[..j + 1];
      var a := |Flat(rs[..j])|;
      assert Flat(rs)[a..a + |rs[j]|] == Flat(front)[a..a + |rs[j]|];
    } else {
      assert rs[..j + 1] == rs;
    }
  }

  lemma RecordAt(t: Bytes, head: Bytes, rs: seq<Bytes>, j: nat)
    requires Written(t, head, rs) && j < |rs|
    ensures Start(rs, j + 1) == Start(rs, j) + |rs[j]| <= |t|
    ensures t[Start(rs, j)..Start(rs, j) + |rs[j]|] == rs[j]
  {
    FlatSlice(rs, j);
    AfterHead(head, Flat(rs), |Flat(rs[..j])|, |rs[j]|);
  }

  lemma AfterHead(head: Bytes, body: Bytes, a: nat, n: nat)
    requires |head| == 44 && a + n <= |body|
    ensures (head + body)[44 + a..44 + a + n] == body[a..a + n]
  {
  }

  /** The first bytes of a record, in the table. */
  lemma RecordBytes(t: Bytes, head: Bytes, rs: seq<Bytes>, j: nat, k: nat)
    requires Written(t, head, rs) && j < |rs| && k < |rs[j]|
    ensures Start(rs, j) + k < |t| && t[Start(rs, j) + k] == rs[j][k]
  {
    RecordAt(t, head, rs, j);
    assert t[Start(rs, j)..Start(rs, j) + |rs[j]|][k] == t[Start(rs, j) + k];
  }

  /** What a walk over the records relies on at record j. */
  lemma RecordHead(t: Bytes, head: Bytes, rs: seq<Bytes>, j: nat)
    requires Written(t, head, rs) && j < |rs|
    ensures var a := Start(rs, j);
            a + 2 <= |t| && t[a] == rs[j][0] && t[a + 1] > 0 && a + t[a + 1] == Start(rs, j + 1) <= |t|
    ensures rs[j][0] == 2 ==> Start(rs, j) + 10 <= |t|
  {
    RecordAt(t, head, rs, j);
    RecordBytes(t, head, rs, j, 0);
    RecordBytes(t, head, rs, j, 1);
  }

  lemma WrittenEnds(t: Bytes, head: Bytes, rs: seq<Bytes>)
    requires Written(t, head, rs)
    ensures |t| >= HEADER && End(t) == |t| == Start(rs, |rs|) && Start(rs, 0) == HEADER
  {
    assert rs[..|rs|] == rs && rs[..0] == [];
    assert t[4] == head[4] && t[5] == head[5] && t[6] == head[6] && t[7] == head[7];
  }

  lemma {:induction false} RecordsWritten(t: Bytes, head: Bytes, rs: seq<Bytes>, j: nat)
    requires Written(t, head, rs) && j <= |rs|
    ensures Records(t, Start(rs, j), |t|)
    decreases |rs| - j
  {
    WrittenEnds(t, head, rs);
    if j < |rs| {
      RecordHead(t, head, rs, j);
      RecordsWritten(t, head, rs, j + 1);
    }
  }

  /** Every written table can be read. */
  lemma WrittenReads(t: Bytes, head: Bytes, rs: seq<Bytes>)
    requires Written(t, head, rs)
    ensures WellFormed(t) && Records(t, HEADER, End(t))
  {
    WrittenEnds(t, head, rs);
    RecordsWritten(t, head, rs, 0);
  }

  /** Record j is of that kind and begins at p. */
  predicate OfKindAt(rs: seq<Bytes>, kind: Byte, j: nat, p: nat) {
    j < |rs| && rs[j] != [] && rs[j][0] == kind && p == Start(rs, j)
  }

  /** At p a record of that kind begins, record i or a later one. */
  ghost predicate Begins(rs: seq<Bytes>, kind: Byte, i: nat, p: nat) {
    exists j: nat :: j >= i && OfKindAt(rs, kind, j, p)
  }

  lemma BeginsStep(rs: seq<Bytes>, kind: Byte, i: nat, p: nat)
    requires i < |rs|
    ensures Begins(rs, kind, i, p) <==> Begins(rs, kind, i + 1, p) || OfKindAt(rs, kind, i, p)
  {
  }

  predicate Rising(at: seq<nat>, low: nat) {
    && (forall k | 0 <= k < |at| :: at[k] >= low)
    && (forall k, l | 0 <= k < l < |at| :: at[k] < at[l])
  }

  lemma RisingCons(x: nat, rest: seq<nat>, low: nat)
    requires Rising(rest, low) && x < low
    ensures Rising([x] + rest, x) && Rising(rest, x)
  {
  }

  lemma {:induction false} EntriesFrom(t: Bytes, head: Bytes, rs: seq<Bytes>, kind: Byte, i: nat)
    requires Written(t, head, rs) && i <= |rs|
    requires Records(t, Start(rs, i), |t|)
    ensures forall p: nat :: p in OfType(t, kind, Start(rs, i), |t|) <==> Begins(rs, kind, i, p)
    ensures Rising(OfType(t, kind, Start(rs, i), |t|), Start(rs, i))
    decreases |rs| - i
  {
    if i == |rs| {
      WrittenEnds(t, head, rs);
      return;
    }
    RecordHead(t, head, rs, i);
    EntriesFrom(t, head, rs, kind, i + 1);
    var x, rest := Start(rs, i), OfType(t, kind, Start(rs, i + 1), |t|);
    Walks(t, kind, x, |t|);
    RisingCons(x, rest, Start(rs, i + 1));
    forall p: nat ensures p in OfType(t, kind, x, |t|) <==> Begins(rs, kind, i, p) {
      BeginsStep(rs, kind, i, p);
    }
  }

  /** The entries of a kind are where the records begin whose first byte is that kind, each
      once and in order. */
  lemma EntriesExact(t: Bytes, head: Bytes, rs: seq<Bytes>, kind: Byte)
    requires Written(t, head, rs)
    ensures WellFormed(t)
    ensures forall p: nat :: p in Entries(t, kind) <==> exists j: nat :: OfKindAt(rs, kind, j, p)
    ensures forall k, l | 0 <= k < l < |Entries(t, kind)| :: Entries(t, kind)[k] < Entries(t, kind)[l]
  {
    WrittenReads(t, head, rs);
    WrittenEnds(t, head, rs);
    EntriesFrom(t, head, rs, kind, 0);
    assert forall p: nat :: p in Entries(t, kind) <==> Begins(rs, kind, 0, p);
    assert Rising(Entries(t, kind), HEADER);
  }

  /** The route that an override of a line asks for in its last six bytes: four of the global
      system interrupt and two of flags, low bytes first. */
  function Asked(r: Bytes): Route
    requires |r| >= 10
  {
    Route(r[4] as int + 0x100 * r[5] as int + 0x1_0000 * r[6] as int + 0x100_0000 * r[7] as int,
          r[8] as int + 0x100 * r[9] as int)
  }

  /** A record is an override of the line. */
  predicate Overrides(r: Bytes, line: nat) {
    |r| >= 10 && r[0] == 2 && r[3] as int == line
  }

  /** One record of the pass. */
  function Advanced(r: Bytes, routes: Routes): Routes {
    if |r| >= 10 && r[0] == 2 && r[3] < 16 then routes[r[3] as int := Asked(r)] else routes
  }

  /** What the pass does to the routes where a record begins. */
  predicate Takes(t: Bytes, pos: nat, r: Bytes, routes: Routes) {
    && pos < |t| && r != [] && t[pos] == r[0]
    && if r[0] == 2 then pos + 10 <= |t| && Apply(t, pos, routes) == Advanced(r, routes) else Advanced(r, routes) == routes
  }

  lemma TakesRecord(t: Bytes, head: Bytes, rs: seq<Bytes>, j: nat, routes: Routes)
    requires Written(t, head, rs) && j < |rs|
    ensures Takes(t, Start(rs, j), rs[j], routes)
  {
    RecordHead(t, head, rs, j);
    if rs[j][0] == 2 {
      AppliesRecord(t, head, rs, j, routes);
    }
  }

  lemma AppliesRecord(t: Bytes, head: Bytes, rs: seq<Bytes>, j: nat, routes: Routes)
    requires Written(t, head, rs) && j < |rs| && rs[j][0] == 2
    ensures Start(rs, j) + 10 <= |t|
    ensures Apply(t, Start(rs, j), routes) == Advanced(rs[j], routes)
  {
    RecordHead(t, head, rs, j);
    forall k: nat | k < 10 ensures t[Start(rs, j) + k] == rs[j][k] {
      RecordBytes(t, head, rs, j, k);
    }
    var a := Start(rs, j);
    assert t[a + 3] == rs[j][3] && t[a + 4] == rs[j][4] && t[a + 5] == rs[j][5] && t[a + 6] == rs[j][6];
    assert t[a + 7] == rs[j][7] && t[a + 8] == rs[j][8] && t[a + 9] == rs[j][9];
  }

  /** The pass takes in record j. */
  lemma PassStep(t: Bytes, head: Bytes, rs: seq<Bytes>, j: nat, routes: Routes)
    requires Written(t, head, rs) && j < |rs|
    ensures Records(t, Start(rs, j), |t|) && Records(t, Start(rs, j + 1), |t|)
    ensures Pass(t, Start(rs, j), |t|, routes) == Pass(t, Start(rs, j + 1), |t|, Advanced(rs[j], routes))
  {
    RecordHead(t, head, rs, j);
    RecordsWritten(t, head, rs, j);
    TakesRecord(t, head, rs, j, routes);
    PassAt(t, Start(rs, j), |t|, rs[j], routes);
  }

  lemma PassAt(t: Bytes, pos: nat, end: nat, r: Bytes, routes: Routes)
    requires Records(t, pos, end) && pos < end && Takes(t, pos, r, routes)
    ensures Records(t, pos + t[pos + 1], end)
    ensures Pass(t, pos, end, routes) == Pass(t, pos + t[pos + 1], end, Advanced(r, routes))
  {
  }

  lemma {:induction false} PassLeaves(t: Bytes, head: Bytes, rs: seq<Bytes>, j: nat, routes: Routes, line: nat)
    requires Written(t, head, rs) && j <= |rs| && line < 16
    requires forall k | j <= k < |rs| :: !Overrides(rs[k], line)
    ensures Records(t, Start(rs, j), |t|) && Pass(t, Start(rs, j), |t|, routes)[line] == routes[line]
    decreases |rs| - j
  {
    RecordsWritten(t, head, rs, j);
    if j < |rs| {
      assert !Overrides(rs[j], line);
      PassStep(t, head, rs, j, routes);
      PassLeaves(t, head, rs, j + 1, Advanced(rs[j], routes), line);
    } else {
      WrittenEnds(t, head, rs);
    }
  }

  lemma {:induction false} PassTakes(t: Bytes, head: Bytes, rs: seq<Bytes>, i: nat, j: nat, routes: Routes, line: nat)
    requires Written(t, head, rs) && i <= j < |rs| && line < 16 && Overrides(rs[j], line)
    requires forall k | j < k < |rs| :: !Overrides(rs[k], line)
    ensures Records(t, Start(rs, i), |t|) && Pass(t, Start(rs, i), |t|, routes)[line] == Asked(rs[j])
    decreases j - i
  {
    PassStep(t, head, rs, i, routes);
    if i < j {
      PassTakes(t, head, rs, i + 1, j, Advanced(rs[i], routes), line);
    } else {
      PassLeaves(t, head, rs, j + 1, Advanced(rs[j], routes), line);
    }
  }

  /** Record j is the last override of the line. */
  ghost predicate LastOverride(rs: seq<Bytes>, line: nat, j: nat) {
    j < |rs| && Overrides(rs[j], line) && forall k | j < k < |rs| :: !Overrides(rs[k], line)
  }

  /** The route of a line is the one that the last override of the line asks for, byte by
      byte. */
  lemma LastOverrideDecides(t: Bytes, head: Bytes, rs: seq<Bytes>, line: nat, j: nat)
    requires Written(t, head, rs) && line < 16 && LastOverride(rs, line, j)
    ensures WellFormed(t) && Pass(t, HEADER, End(t), Identity())[line] == Asked(rs[j])
  {
    WrittenReads(t, head, rs);
    WrittenEnds(t, head, rs);
    PassTakes(t, head, rs, 0, j, Identity(), line);
  }

  /** A line without an override keeps its own number, and no flags. */
  lemma OthersKeepTheirLine(t: Bytes, head: Bytes, rs: seq<Bytes>, line: nat)
    requires Written(t, head, rs) && line < 16 && forall k | 0 <= k < |rs| :: !Overrides(rs[k], line)
    ensures WellFormed(t) && Pass(t, HEADER, End(t), Identity())[line] == Route(line, 0)
  {
    WrittenReads(t, head, rs);
    WrittenEnds(t, head, rs);
    PassLeaves(t, head, rs, 0, Identity(), line);
  }

  /** The part of the I/O APIC manager that reads the MADT. */
  class IoApicManager {
    const irqToGsi: array<Route>
    var ioApicCount: nat
    const ioApics: array<Option<nat>>

    ghost predicate Valid() reads this {
      irqToGsi.Length == LINES && ioApics.Length == MAX_IOAPICS
    }

    constructor ()
      ensures Valid() && fresh(irqToGsi) && fresh(ioApics)
      ensures forall i | 0 <= i < MAX_IOAPICS :: ioApics[i] == None
    {
      irqToGsi := new Route[LINES](_ => Route(0, 0));
      ioApics := new Option<nat>[MAX_IOAPICS](_ => None);
      ioApicCount := 0;
    }

    /** Builds the routes, and notes the record of each I/O APIC to be set up. */
    method Initialize(t: Bytes)
      requires Valid() && WellFormed(t) && Whole(t, Entries(t, OVERRIDE))
      modifies this`ioApicCount, irqToGsi, ioApics
      ensures irqToGsi[..] == Pass(t, HEADER, End(t), Identity())
      ensures ioApicCount == if |Entries(t, IOAPIC)| > 16 then 16 else |Entries(t, IOAPIC)|
      ensures forall i | 0 <= i < MAX_IOAPICS ::
                ioApics[i] == if i < ioApicCount then Some(Entries(t, IOAPIC)[i]) else old(ioApics[i])
    {
      for i := 0 to LINES
        invariant forall k | 0 <= k < i :: irqToGsi[k] == Route(k, 0)
        invariant forall k | 0 <= k < MAX_IOAPICS :: ioApics[k] == old(ioApics[k])
      {
        irqToGsi[i] := Route(i, 0);
      }
      assert irqToGsi[..] == Identity();

      var isoCount := FindEntryCount(t, OVERRIDE);
      ghost var overrides := Entries(t, OVERRIDE);
      for i := 0 to isoCount
        invariant irqToGsi[..] == ApplyAll(t, overrides[..i], Identity())
        invariant forall k | 0 <= k < MAX_IOAPICS :: ioApics[k] == old(ioApics[k])
      {
        var entry := FindEntry(t, OVERRIDE, i);
        ApplyOneMore(t, overrides, i, Identity());
        if entry.Some? {
          SetRoute(t, entry.value);
        }
      }
      assert overrides[..isoCount] == overrides;
      IndexedIsPass(t, HEADER, End(t), Identity());

      ioApicCount := FindEntryCount(t, IOAPIC);
      if ioApicCount > MAX_IOAPICS {
        ioApicCount := MAX_IOAPICS;
      }
      NoteIoApics(t);
    }

    method SetRoute(t: Bytes, at: nat)
      requires Valid() && at + 10 <= |t|
      modifies irqToGsi
      ensures irqToGsi[..] == Apply(t, at, old(irqToGsi[..]))
    {
      if Source(t, at) < LINES {
        irqToGsi[Source(t, at)] := Route(Read32(t, at + 4), Read16(t, at + 8));
      }
    }

    /** The last loop of Initialize: the I/O APIC at index i is set up from record i. */
    method NoteIoApics(t: Bytes)
      requires Valid() && WellFormed(t) && ioApicCount <= MAX_IOAPICS && ioApicCount <= |Entries(t, IOAPIC)|
      modifies ioApics
      ensures forall i | 0 <= i < MAX_IOAPICS ::
                ioApics[i] == if i < ioApicCount then Some(Entries(t, IOAPIC)[i]) else old(ioApics[i])
    {
      for i := 0 to ioApicCount
        invariant forall k | 0 <= k < MAX_IOAPICS ::
                    ioApics[k] == if k < i then Some(Entries(t, IOAPIC)[k]) else old(ioApics[k])
      {
        var entry := FindEntry(t, IOAPIC, i);
        if entry.Some? {
          ioApics[i] := entry;
        }
      }
    }
  }
}

/** The 64-bit form of page-table entries and of virtual addresses: what the masks and
    shifts of the source compute on it. */
module PageWords {
  import opened Outcomes
  import opened Bits
  import opened PageTables
  import BootMap

  const POINTER_MASK: nat := 0x000F_FFFF_FFFF_F000
  const FLAGS_MASK: nat := 0xFFF0_0000_0000_0FFF
  const PRESENT: nat := 1
  const HUGE_PAGE: nat := 0x80

  const FRAMES: nat := 0x100_0000_0000

  predicate WellFormed(e: Entry) {
    e.frame < FRAMES && e.flags.low < 64 && e.flags.mid < 16 && e.flags.high < 4096
  }

  /** The low twelve bits of an entry. */
  function LowBits(f: Flags): nat {
    Bit(f.present) + 2 * f.low + 128 * Bit(f.huge) + 256 * f.mid
  }

  function Word(e: Entry): nat {
    LowBits(e.flags) + 4096 * (e.frame + FRAMES * e.flags.high)
  }

  function DecodeLow(r: nat, high: nat): Flags {
    Flags(r % 2 == 1, r / 128 % 2 == 1, r / 2 % 64, r / 256, high)
  }

  function Decode(w: nat): Entry {
    var r, h := w % 4096, w / 4096;
    Entry(h % FRAMES, DecodeLow(r, h / FRAMES))
  }

  lemma LowBitsFaithful(f: Flags)
    requires f.low < 64 && f.mid < 16
    ensures LowBits(f) < 4096 && DecodeLow(LowBits(f), f.high) == f
  {
    var p, h := Bit(f.present), Bit(f.huge);
    Split2(p, f.low + 64 * h + 128 * f.mid, 2);
    Split2(f.low, h + 2 * f.mid, 64);
    Split2(p + 2 * f.low, h + 2 * f.mid, 128);
    Split2(h, f.mid, 2);
    Split2(p + 2 * f.low + 128 * h, f.mid, 256);
  }

  lemma Split2(low: nat, high: nat, n: nat)
    requires low < n
    ensures (low + n * high) / n == high && (low + n * high) % n == low
  {
    var v := low + n * high;
    assert v == n * (v / n) + v % n;
    if v / n < high {
      TimesLess(n, v / n, high);
    } else if v / n > high {
      TimesLess(n, high, v / n);
    }
  }

  lemma {:induction false} TimesLess(n: nat, a: nat, b: nat)
    requires a < b
    ensures n * a + n <= n * b
    decreases b
  {
    OneMoreTime(n, b - 1);
    if a < b - 1 {
      TimesLess(n, a, b - 1);
    }
  }

  lemma OneMoreTime(n: nat, c: nat)
    ensures n * (c + 1) == n * c + n
  {
  }

  lemma LowBitsOnto(r: nat, high: nat)
    requires r < 4096
    ensures LowBits(DecodeLow(r, high)) == r
  {
    assert r == r % 2 + 2 * (r / 2);
    assert r / 2 == r / 2 % 64 + 64 * (r / 128);
    assert r / 128 == r / 128 % 2 + 2 * (r / 256);
  }

  /** Every entry is one 64-bit word, and only the zero entry is the zero word. */
  lemma EntriesAreWords(e: Entry)
    requires WellFormed(e)
    ensures Word(e) < WORD && Decode(Word(e)) == e
    ensures Word(e) == 0 <==> e == ZERO
  {
    LowBitsFaithful(e.flags);
    Parts(LowBits(e.flags), e.frame + FRAMES * e.flags.high);
    FrameParts(e.frame, e.flags.high);
  }

  lemma Parts(b: nat, h: nat)
    requires b < 4096
    ensures (b + 4096 * h) % 4096 == b && (b + 4096 * h) / 4096 == h
  {
  }

  lemma FrameParts(f: nat, h: nat)
    requires f < FRAMES
    ensures (f + FRAMES * h) % FRAMES == f && (f + FRAMES * h) / FRAMES == h
  {
  }

  /** Every 64-bit word is one entry. */
  lemma WordsAreEntries(w: nat)
    requires w < WORD
    ensures WellFormed(Decode(w)) && Word(Decode(w)) == w
  {
    var r, h := w % 4096, w / 4096;
    LowBitsOnto(r, h / FRAMES);
    assert h == h % FRAMES + FRAMES * (h / FRAMES);
    assert w == r + 4096 * h;
  }

  lemma Times16(k: nat)
    ensures Pow2(k + 4) == 16 * Pow2(k)
  {
    assert Pow2(k + 2) == 4 * Pow2(k);
  }

  lemma Powers()
    ensures Pow2(1) == 2 && Pow2(7) == 128 && Pow2(12) == 4096 && Pow2(40) == FRAMES && Pow2(64) == WORD
  {
    Times16(0);
    Times16(3);
    Times16(4);
    Times16(8);
    Times16(12);
    Times16(16);
    Times16(20);
    Times16(24);
    Times16(28);
    Times16(32);
    Times16(36);
    Times16(40);
    Times16(44);
    Times16(48);
    Times16(52);
    Times16(56);
    Times16(60);
    assert Pow2(3) == 8;
  }

  lemma ThreeParts(b: nat, frame: nat, high: nat)
    requires b < 4096 && frame < FRAMES
    ensures b + 4096 * (frame + FRAMES * high) == Join(12, b, Join(40, frame, high))
  {
    Powers();
    JoinValue(40, frame, high);
    JoinValue(12, b, frame + FRAMES * high);
  }

  lemma AndThreeParts(b: nat, f: nat, h: nat, b': nat, f': nat, h': nat)
    requires b < 4096 && f < FRAMES && b' < 4096 && f' < FRAMES
    ensures And(b + 4096 * (f + FRAMES * h), b' + 4096 * (f' + FRAMES * h'))
            == Join(12, And(b, b'), Join(40, And(f, f'), And(h, h')))
  {
    ThreeParts(b, f, h);
    ThreeParts(b', f', h');
    AndJoin(12, b, Join(40, f, h), b', Join(40, f', h'));
    AndJoin(40, f, h, f', h');
  }

  /** entry & PointerMask is the address of the entry's frame. */
  lemma PointerMaskGivesFrame(e: Entry)
    requires WellFormed(e)
    ensures And(Word(e), POINTER_MASK) == e.frame * PAGE_SIZE
  {
    LowBitsFaithful(e.flags);
    MaskPointer(LowBits(e.flags), e.frame, e.flags.high, FRAMES - 1);
  }

  lemma MaskPointer(b: nat, f: nat, h: nat, ones: nat)
    requires b < 4096 && f < FRAMES && ones == FRAMES - 1
    ensures And(b + 4096 * (f + FRAMES * h), 0 + 4096 * (ones + FRAMES * 0)) == 0 + 4096 * (f + FRAMES * 0)
  {
    assert Pow2(40) == ones + 1 by { Powers(); }
    AndThreeParts(b, f, h, 0, ones, 0);
    AndOnes(40, f);
    ThreeParts(0, f, 0);
  }

  /** entry & FlagsMask is the entry with its frame cleared. */
  lemma FlagsMaskGivesFlags(e: Entry)
    requires WellFormed(e)
    ensures And(Word(e), FLAGS_MASK) == Word(e.(frame := 0))
  {
    var b := LowBits(e.flags);
    LowBitsFaithful(e.flags);
    MaskFlags(b, e.frame, e.flags.high, 4095);
  }

  lemma MaskFlags(b: nat, f: nat, h: nat, ones: nat)
    requires b < 4096 && f < FRAMES && h < 4096 && ones == 4095
    ensures And(b + 4096 * (f + FRAMES * h), ones + 4096 * (0 + FRAMES * ones)) == b + 4096 * (0 + FRAMES * h)
  {
    assert Pow2(12) == ones + 1 by { Powers(); }
    AndThreeParts(b, f, h, ones, 0, ones);
    AndOnes(12, b);
    AndOnes(12, h);
    ThreeParts(b, 0, h);
  }

  /** An aligned address or-ed with flag bits is the entry with that frame and those flags. */
  lemma OrBuildsEntry(frame: nat, flags: Flags)
    requires WellFormed(Entry(frame, flags))
    ensures Or(frame * PAGE_SIZE, Word(Entry(0, flags))) == Word(Entry(frame, flags))
  {
    OrThreeParts(0, frame, 0, LowBits(flags), 0, flags.high);
    ThreeParts(LowBits(flags), frame, flags.high);
  }

  lemma OrThreeParts(b: nat, f: nat, h: nat, b': nat, f': nat, h': nat)
    requires b < 4096 && f < FRAMES && b' < 4096 && f' < FRAMES
    ensures Or(b + 4096 * (f + FRAMES * h), b' + 4096 * (f' + FRAMES * h'))
            == Join(12, Or(b, b'), Join(40, Or(f, f'), Or(h, h')))
  {
    ThreeParts(b, f, h);
    ThreeParts(b', f', h');
    OrJoin(12, b, Join(40, f, h), b', Join(40, f', h'));
    OrJoin(40, f, h, f', h');
  }

  lemma AndOneBit(x: nat)
    ensures And(x, 1) == x % 2
  {
    AndStep(x, 1);
  }

  /** The tests entry & Present and entry & HugePage. */
  lemma FlagTests(e: Entry)
    requires WellFormed(e)
    ensures And(Word(e), PRESENT) != 0 <==> e.flags.present
    ensures And(Word(e), HUGE_PAGE) != 0 <==> e.flags.huge
  {
    AndOneBit(Word(e));
    var lo := Bit(e.flags.present) + 2 * e.flags.low;
    var rest := e.flags.mid + 16 * (e.frame + FRAMES * e.flags.high);
    assert Word(e) == Bit(e.flags.present) + 2 * (e.flags.low + 64 * (Bit(e.flags.huge) + 2 * rest));
    BitSeven(lo, Bit(e.flags.huge) + 2 * rest);
  }

  /** And with 0x80 tests bit 7. */
  lemma BitSeven(lo: nat, hi: nat)
    requires lo < 128
    ensures And(lo + 128 * hi, 128) == 128 * (hi % 2)
  {
    Powers();
    JoinValue(7, lo, hi);
    JoinValue(7, 0, 1);
    AndJoin(7, lo, hi, 0, 1);
    AndOneBit(hi);
    JoinValue(7, 0, hi % 2);
  }

  // ---- Virtual addresses -------------------------------------------------------------

  /** ExtractPageTableIndices. */
  function SpotOf(va: nat): (s: Spot)
    ensures s.Valid()
  {
    Spot(va / 0x80_0000_0000 % 512, va / 0x4000_0000 % 512, va / 0x20_0000 % 512, va / 0x1000 % 512)
  }

  /** The 36-bit number of a virtual page. */
  function PageNumber(s: Spot): nat {
    ((s.i4 * 512 + s.i3) * 512 + s.i2) * 512 + s.i1
  }

  lemma NestedQuotients(va: nat)
    ensures va / 0x20_0000 == va / 0x1000 / 512
    ensures va / 0x4000_0000 == va / 0x1000 / 512 / 512
    ensures va / 0x80_0000_0000 == va / 0x1000 / 512 / 512 / 512
  {
  }

  lemma NineBitsAtATime(n: nat)
    ensures ((n / 512 / 512 / 512 % 512 * 512 + n / 512 / 512 % 512) * 512 + n / 512 % 512) * 512 + n % 512
            == n % 0x10_0000_0000
  {
    Nine18(n / 512 / 512);
    Nine27(n / 512);
    Nine36(n);
  }

  // Splitting the lowest nine bits off a remainder of 18, 27 and 36 bits.

  lemma Nine18(n: nat)
    ensures n / 512 % 512 * 512 + n % 512 == n % 0x4_0000
  {
    var q, r := n / 512 / 512, n / 512 % 512 * 512 + n % 512;
    assert n == 0x4_0000 * q + r && 0 <= r < 0x4_0000;
  }

  lemma Nine27(n: nat)
    ensures n / 512 % 0x4_0000 * 512 + n % 512 == n % 0x800_0000
  {
    assert n == 0x800_0000 * (n / 512 / 0x4_0000) + (n / 512 % 0x4_0000 * 512 + n % 512);
  }

  lemma Nine36(n: nat)
    ensures n / 512 % 0x800_0000 * 512 + n % 512 == n % 0x10_0000_0000
  {
    assert n == 0x10_0000_0000 * (n / 512 / 0x800_0000) + (n / 512 % 0x800_0000 * 512 + n % 512);
  }

  /** The four indices are the 36-bit page number, so distinct pages have distinct indices
      and an address is determined by them, its offset and its unused upper bits. */
  lemma SpotsAreFaithful(va: nat)
    ensures PageNumber(SpotOf(va)) == va / PAGE_SIZE % 0x10_0000_0000
  {
    NestedQuotients(va);
    NineBitsAtATime(va / PAGE_SIZE);
  }

  lemma SameNumberSameSpot(s: Spot, t: Spot)
    requires s.Valid() && t.Valid() && PageNumber(s) == PageNumber(t)
    ensures s == t
  {
    PairUnique((s.i4 * 512 + s.i3) * 512 + s.i2, s.i1, (t.i4 * 512 + t.i3) * 512 + t.i2, t.i1);
    PairUnique(s.i4 * 512 + s.i3, s.i2, t.i4 * 512 + t.i3, t.i2);
    PairUnique(s.i4, s.i3, t.i4, t.i3);
  }

  lemma PairUnique(a: nat, b: nat, c: nat, d: nat)
    requires b < 512 && d < 512 && a * 512 + b == c * 512 + d
    ensures a == c && b == d
  {
  }

  /** Two addresses have the same four indices exactly when their page numbers agree in the
      low 36 bits; with the offset, exactly when their low 48 bits agree. */
  lemma SpotInjective(a: nat, b: nat)
    ensures SpotOf(a) == SpotOf(b) <==> a / PAGE_SIZE % 0x10_0000_0000 == b / PAGE_SIZE % 0x10_0000_0000
    ensures SpotOf(a) == SpotOf(b) && a % PAGE_SIZE == b % PAGE_SIZE
            <==> a % 0x1_0000_0000_0000 == b % 0x1_0000_0000_0000
  {
    SpotsAreFaithful(a);
    SpotsAreFaithful(b);
    if PageNumber(SpotOf(a)) == PageNumber(SpotOf(b)) {
      SameNumberSameSpot(SpotOf(a), SpotOf(b));
    }
    Low48(a);
    Low48(b);
  }

  lemma Low48(a: nat)
    ensures a % 0x1_0000_0000_0000 == a / PAGE_SIZE % 0x10_0000_0000 * PAGE_SIZE + a % PAGE_SIZE
  {
  }

  /** The division form of the page roundings used for the memory map is the mask form. */
  lemma RoundingsAgree(v: nat)
    requires v + PAGE_SIZE <= WORD
    ensures Bits.AlignUp(v, 12) == BootMap.AlignUp(v)
    ensures Bits.AlignDown(v, 12) == BootMap.AlignDown(v)
  {
    Powers();
    AlignUpRounds(v, 12);
    AlignDownRounds(v, 12);
    var q :| Bits.AlignUp(v, 12) == 4096 * q;
    var r :| Bits.AlignDown(v, 12) == 4096 * r;
    OnlyMultipleAbove(v, q);
    OnlyMultipleBelow(v, r);
  }

  lemma OnlyMultipleAbove(v: nat, q: nat)
    requires v <= 4096 * q < v + 4096
    ensures BootMap.AlignUp(v) == 4096 * q
  {
    assert (v + 4095) / 4096 == q;
  }

  lemma OnlyMultipleBelow(v: nat, r: nat)
    requires 4096 * r <= v < 4096 * r + 4096
    ensures BootMap.AlignDown(v) == 4096 * r
  {
    assert v / 4096 == r;
  }
}

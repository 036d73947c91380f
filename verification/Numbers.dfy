/** Printing and parsing 64-bit integers. */
module Numbers {
  import opened Outcomes
  import opened Text
  import Bits

  const MAX: nat := WORD - 1
  const SIGN: int := 0x8000_0000_0000_0000

  const DIGITS: string := "0123456789ABCDEF"

  /** The digit of a value below 16. */
  function DigitChar(d: nat): char
    requires d < 16
  {
    ((if d < 10 then '0' as int else 'A' as int - 10) + d) as char
  }

  lemma DigitTable(d: nat)
    requires d < 16
    ensures DIGITS[d] == DigitChar(d)
  {
  }

  function Quot(v: nat, base: nat): (q: nat)
    requires base >= 2
    ensures v < base <==> q == 0
    ensures v > 0 ==> q < v
  {
    v / base
  }

  function Rem(v: nat, base: nat): (r: nat)
    requires base >= 2
    ensures r < base
    ensures v < base ==> r == v
  {
    v % base
  }

  /** The last digit of a number. */
  function LastDigit(v: nat, base: nat): char
    requires 2 <= base <= 16
  {
    DigitChar(Rem(v, base))
  }

  /** The value of a digit in either case, or -1. */
  function DigitValue(c: char): (d: int)
    ensures -1 <= d < 16
    ensures d >= 0 <==> '0' <= c <= '9' || 'a' <= c <= 'f' || 'A' <= c <= 'F'
  {
    if '0' <= c <= '9' then c as int - '0' as int
    else if 'a' <= c <= 'f' then 10 + (c as int - 'a' as int)
    else if 'A' <= c <= 'F' then 10 + (c as int - 'A' as int)
    else -1
  }

  const LOWER_DIGITS: string := "0123456789abcdef"

  /** A character has the value d exactly when it is digit d in one of the two cases. */
  lemma DigitExact(c: char, d: nat)
    requires d < 16
    ensures DigitValue(c) == d <==> c == DIGITS[d] || c == LOWER_DIGITS[d]
  {
  }

  predicate IsNumeral(s: string, base: nat) {
    s != [] && AllDigits(s, base)
  }

  predicate AllDigits(s: string, base: nat) {
    forall i | 0 <= i < |s| :: 0 <= DigitValue(s[i]) < base
  }

  /** The number a digit string stands for. */
  function ValueOf(s: string, base: nat): nat
    requires AllDigits(s, base)
  {
    if s == [] then 0
    else
      var front := s[..|s| - 1];
      assert forall i | 0 <= i < |front| :: front[i] == s[i];
      ValueOf(front, base) * base + DigitValue(s[|s| - 1])
  }

  /** The digits of a number, most significant first. */
  function Numeral(v: nat, base: nat): (s: string)
    requires 2 <= base <= 16
    ensures |s| > 0
  {
    if v < base then [LastDigit(v, base)] else Numeral(Quot(v, base), base) + [LastDigit(v, base)]
  }

  lemma DigitOf(v: nat, base: nat)
    requires 2 <= base <= 16
    ensures DigitValue(LastDigit(v, base)) == Rem(v, base)
    ensures base == 10 ==> '0' <= LastDigit(v, base) <= '9'
    ensures LastDigit(v, base) as int <= 126
  {
  }

  lemma DivideDown(v: nat, base: nat)
    requires base >= 2
    ensures Quot(v, base) <= v / 2 && v == base * Quot(v, base) + Rem(v, base)
  {
    var q := v / base;
    assert v == base * q + v % base;
    AtLeastTwice(base, q);
  }

  lemma AtLeastTwice(base: nat, q: nat)
    requires base >= 2
    ensures base * q >= 2 * q
  {
    assert base * q == 2 * q + (base - 2) * q;
  }

  // ---- Printing ----------------------------------------------------------------------

  /** WriteChar: what appears for one character. */
  function Shown(c: char): char {
    if (c as int % 256) - 32 <= 94 || c == '\n' || c == '\t' || c == '\r' then c else '?'
  }

  lemma Square(m: nat, n: nat, p: nat)
    requires n == 2 * m && Bits.Pow2(m) == p
    ensures Bits.Pow2(n) == p * p
  {
    Bits.Pow2Add(m, m);
  }

  lemma Pow2Word(n: nat)
    requires n == 64
    ensures Bits.Pow2(n) == WORD
  {
    var m := n / 16;
    assert Bits.Pow2(m - 4) == 1 && Bits.Pow2(m - 3) == 2 && Bits.Pow2(m - 2) == 4 && Bits.Pow2(m - 1) == 8;
    Square(m, 2 * m, 16);
    Square(2 * m, 4 * m, 0x100);
    Square(4 * m, 8 * m, 0x1_0000);
    Square(8 * m, 16 * m, 0x1_0000_0000);
  }

  ghost function Reversed(s: string): string {
    if s == [] then [] else [s[|s| - 1]] + Reversed(s[..|s| - 1])
  }

  lemma ReversedAppend(s: string, c: char)
    ensures Reversed(s + [c]) == [c] + Reversed(s)
  {
    assert (s + [c])[..|s|] == s;
  }

  lemma NumeralStep(v: nat, base: nat)
    requires 2 <= base <= 16 && v > 0
    ensures Numeral(v, base) == Remaining(Quot(v, base), base) + [LastDigit(v, base)]
    ensures Remaining(v, base) == Remaining(Quot(v, base), base) + [LastDigit(v, base)]
  {
    DivideDown(v, base);
    if v < base {
    } else {
      assert Quot(v, base) > 0;
    }
  }

  /** The digits still to find, and those found, least significant first. */
  ghost predicate Printing(value: nat, base: nat, v: nat, found: string)
    requires 2 <= base <= 16
  {
    && HasRoom(v, |found|)
    && Numeral(value, base) == Remaining(v, base) + Reversed(found)
    && forall i | 0 <= i < |found| :: found[i] as int <= 126
  }

  /** After n of 64 digits in any base, v is what may be left. */
  predicate HasRoom(v: nat, n: nat) {
    n <= 64 && v < Bits.Pow2(64 - n)
  }

  ghost function Remaining(v: nat, base: nat): string
    requires 2 <= base <= 16
  {
    if v == 0 then [] else Numeral(v, base)
  }

  lemma PrintDigit(value: nat, base: nat, v: nat, found: string)
    requires 2 <= base <= 16 && Printing(value, base, v, found) && v > 0
    ensures |found| < 64 && Printing(value, base, Quot(v, base), found + [LastDigit(v, base)])
  {
    RoomShrinks(v, base, |found|);
    PrintText(v, base, found);
    DigitOf(v, base);
  }

  lemma PrintText(v: nat, base: nat, found: string)
    requires 2 <= base <= 16 && v > 0
    ensures Remaining(v, base) + Reversed(found)
            == Remaining(Quot(v, base), base) + Reversed(found + [LastDigit(v, base)])
  {
    NumeralStep(v, base);
    ReversedAppend(found, LastDigit(v, base));
    Regroup(Remaining(Quot(v, base), base), [LastDigit(v, base)], Reversed(found));
  }

  lemma Regroup(a: string, b: string, c: string)
    ensures (a + b) + c == a + (b + c)
  {
  }

  lemma PrintStart(value: nat, base: nat)
    requires 2 <= base <= 16 && 0 < value < WORD
    ensures Printing(value, base, value, [])
  {
    Pow2Word(64 - |""|);
  }

  lemma ZeroNumeral(base: nat)
    requires 2 <= base <= 16
    ensures Numeral(0, base) == ['0']
  {
  }

  lemma RoomShrinks(v: nat, base: nat, n: nat)
    requires base >= 2 && v > 0 && HasRoom(v, n)
    ensures n < 64 && HasRoom(Quot(v, base), n + 1)
  {
    assert Bits.Pow2(0) == 1;
    HalveRoom(v, base, 64 - n);
  }

  lemma HalveRoom(v: nat, base: nat, n: nat)
    requires base >= 2 && 0 < n && v < Bits.Pow2(n)
    ensures Quot(v, base) < Bits.Pow2(n - 1)
  {
    DivideDown(v, base);
  }

  /** Prints a number. The buffer of 64 digits is large enough for every base. */
  method WriteUnsigned(value: nat, base: nat) returns (out: string)
    requires value < WORD && 2 <= base <= 16
    ensures out == Numeral(value, base)
  {
    if value == 0 {
      ZeroNumeral(base);
      return [Shown('0')];
    }
    var tmp := new char[64];
    var n: nat, v: nat := 0, value;
    PrintStart(value, base);
    assert tmp[..n] == [];
    while v > 0
      invariant 0 <= n <= 64 && Printing(value, base, v, tmp[..n])
    {
      ghost var found := tmp[..n];
      PrintTurn(value, base, v, found);
      tmp[n] := DIGITS[v % base];
      n := n + 1;
      assert tmp[..n] == found + [tmp[n - 1]];
      v := v / base;
    }
    out := WriteBackwards(tmp, n);
    assert Remaining(v, base) == [];
  }

  /** One turn of its first loop. */
  lemma PrintTurn(value: nat, base: nat, v: nat, found: string)
    requires 2 <= base <= 16 && Printing(value, base, v, found) && v > 0
    ensures |found| < 64 && 0 <= v % base < 16 && 0 <= v / base < v
    ensures Printing(value, base, v / base, found + [DIGITS[v % base]])
  {
    PrintDigit(value, base, v, found);
    assert v / base == Quot(v, base) && v % base == Rem(v, base);
    DigitTable(v % base);
  }

  /** The second loop of WriteUnsigned. */
  method WriteBackwards(tmp: array<char>, count: nat) returns (out: string)
    requires count <= tmp.Length && forall i | 0 <= i < count :: tmp[i] as int <= 126
    ensures out == Reversed(tmp[..count])
  {
    var n := count;
    out := [];
    while n > 0
      invariant 0 <= n <= count
      invariant Reversed(tmp[..count]) == out + Reversed(tmp[..n])
    {
      n := n - 1;
      assert tmp[..n + 1][..n] == tmp[..n];
      out := out + [Shown(tmp[n])];
    }
  }

  /** The two's complement word of a signed number, and back. */
  function ToWord(v: int): nat
    requires -SIGN <= v < SIGN
  {
    if v < 0 then v + WORD else v
  }

  function ToSigned(w: nat): int
    requires w < WORD
  {
    if w < SIGN then w else w - WORD
  }

  /** Unsigned negation. */
  function Negate(w: nat): nat
    requires w < WORD
  {
    (WORD - w) % WORD
  }

  function SignedNumeral(v: int): string {
    if v < 0 then "-" + Numeral(-v, 10) else Numeral(v, 10)
  }

  method WriteSigned(value: int) returns (out: string)
    requires -0x8000_0000_0000_0000 <= value < 0x8000_0000_0000_0000
    ensures out == SignedNumeral(value)
    ensures out == if value < 0 then "-" + Numeral(-value, 10) else Numeral(value, 10)
  {
    if value < 0 {
      out := WriteUnsigned(Negate(ToWord(value)), 10);
      return "-" + out;
    }
    out := WriteUnsigned(ToWord(value), 10);
  }

  /** Pointers are printed in hexadecimal. */
  method WritePointer(value: nat) returns (out: string)
    requires value < WORD
    ensures out == "0x" + Numeral(value, 16)
  {
    out := WriteUnsigned(value, 16);
    out := "0x" + out;
  }

  // ---- Parsing -----------------------------------------------------------------------

  /** What a text means in a base: its value, if it is a numeral of at most 64 bits. */
  function Meaning(s: string, base: nat): Option<nat> {
    if IsNumeral(s, base) && ValueOf(s, base) < WORD then Some(ValueOf(s, base)) else None
  }

  lemma PrefixValue(s: string, base: nat, k: nat)
    requires base >= 1 && AllDigits(s, base) && k <= |s|
    ensures AllDigits(s[..k], base) && ValueOf(s[..k], base) <= ValueOf(s, base)
    decreases |s|
  {
    if k < |s| {
      var front := s[..|s| - 1];
      assert front[..k] == s[..k];
      assert AllDigits(front, base);
      PrefixValue(front, base, k);
      AtLeastOnce(ValueOf(front, base), base);
    } else {
      assert s[..k] == s;
    }
  }

  lemma AtLeastOnce(v: nat, base: nat)
    requires base >= 1
    ensures v * base >= v
  {
    assert v * base == v + v * (base - 1);
  }

  /** The overflow test is exact. */
  lemma FitsExactly(result: nat, d: nat, base: nat)
    requires base >= 1 && d <= MAX
    ensures result > (MAX - d) / base <==> result * base + d > MAX
  {
    var q, r := (MAX - d) / base, (MAX - d) % base;
    assert MAX - d == q * base + r;
    if result > q {
      Scaled(q + 1, result, base);
      assert (q + 1) * base == q * base + base;
    } else {
      Scaled(result, q, base);
    }
  }

  lemma Scaled(a: nat, b: nat, base: nat)
    requires a <= b
    ensures a * base <= b * base
  {
    assert b * base == a * base + (b - a) * base;
  }

  lemma ValueStep(s: string, base: nat, i: nat)
    requires i < |s| && AllDigits(s[..i + 1], base)
    ensures AllDigits(s[..i], base)
    ensures ValueOf(s[..i + 1], base) == ValueOf(s[..i], base) * base + DigitValue(s[i])
  {
    assert s[..i + 1][..i] == s[..i];
    forall j | 0 <= j < i ensures 0 <= DigitValue(s[..i][j]) < base {
      assert s[..i + 1][j] == s[j];
    }
  }

  /** Parses all of a text as a number, with an exact overflow check before each digit. */
  method ParseInteger(src: string, base: nat) returns (value: Option<nat>)
    requires 2 <= base < WORD
    ensures value == Meaning(src, base)
  {
    if |src| == 0 {
      return None;
    }
    var result := 0;
    for i := 0 to |src|
      invariant AllDigits(src[..i], base) && result == ValueOf(src[..i], base) && result <= MAX
    {
      var d := DigitValue(src[i]);
      if d < 0 || d >= base {
        return None;
      }
      assert AllDigits(src[..i + 1], base);
      ValueStep(src, base, i);
      FitsExactly(result, d, base);
      if result > (MAX - d) / base {
        if AllDigits(src, base) {
          PrefixValue(src, base, i + 1);
        }
        return None;
      }
      result := result * base + d;
    }
    assert src[..|src|] == src;
    return Some(result);
  }

  /** What the unsigned parser accepts: hexadecimal after 0x or 0X, decimal otherwise. */
  function UnsignedMeaning(s: string): Option<nat> {
    if |s| >= 2 && s[0] == '0' && (s[1] == 'x' || s[1] == 'X') then Meaning(s[2..], 16) else Meaning(s, 10)
  }

  method ParseUnsigned(src: string) returns (value: Option<nat>)
    ensures value == UnsignedMeaning(src)
  {
    if |src| == 0 {
      return None;
    }
    var start, base := 0, 10;
    if |src| >= 2 {
      if Substring(src, 0, 2) == "0x" || Substring(src, 0, 2) == "0X" {
        start := 2;
        base := 16;
      }
      assert Substring(src, 0, 2) == [src[0], src[1]];
    }
    if start >= |src| {
      return None;
    }
    assert src[0..] == src;
    value := ParseInteger(SubstringFrom(src, start), base);
  }

  /** What the signed parser accepts: a decimal numeral within range, after an optional sign. */
  function SignedMeaning(s: string): Option<int> {
    var signed := s != [] && (s[0] == '-' || s[0] == '+');
    var digits := if signed then s[1..] else s;
    if !IsNumeral(digits, 10) then None
    else
      var v := if signed && s[0] == '-' then 0 - ValueOf(digits, 10) else ValueOf(digits, 10);
      if -SIGN <= v < SIGN then Some(v) else None
  }

  method ParseSigned(src: string) returns (value: Option<int>)
    ensures value == SignedMeaning(src)
    ensures value.Some? ==> -0x8000_0000_0000_0000 <= value.value < 0x8000_0000_0000_0000
  {
    if |src| == 0 {
      return None;
    }
    var negative, start := false, 0;
    assert Substring(src, 0, 1) == [src[0]];
    if Substring(src, 0, 1) == "-" || Substring(src, 0, 1) == "+" {
      negative := Substring(src, 0, 1) == "-";
      start := 1;
    }
    if start >= |src| {
      return None;
    }
    assert src[0..] == src;
    SignedParts(src, negative, SubstringFrom(src, start));
    var parsed := ParseInteger(SubstringFrom(src, start), 10);
    if parsed.None? {
      return None;
    }
    var mag := parsed.value;
    var limit := if negative then SIGN else SIGN - 1;
    if mag > limit {
      return None;
    }
    if negative {
      NegateSigned(mag);
    }
    return Some(if negative then ToSigned(Negate(mag)) else mag);
  }

  /** The signed meaning from the magnitude's. */
  lemma SignedParts(s: string, negative: bool, digits: string)
    requires s != [] && negative == (s[0] == '-') && digits == if negative || s[0] == '+' then s[1..] else s
    ensures SignedMeaning(s) ==
              match Meaning(digits, 10)
              case None => None
              case Some(mag) =>
                if mag > (if negative then SIGN else SIGN - 1) then None
                else Some(if negative then 0 - mag else mag)
  {
  }

  lemma NegateSigned(mag: nat)
    requires mag <= SIGN
    ensures ToSigned(Negate(mag)) == 0 - mag
  {
  }

  // ---- Round trips -------------------------------------------------------------------

  lemma {:induction false} NumeralValue(v: nat, base: nat)
    requires 2 <= base <= 16
    ensures IsNumeral(Numeral(v, base), base) && ValueOf(Numeral(v, base), base) == v
  {
    DigitOf(v, base);
    if v < base {
      SingleValue(LastDigit(v, base), base);
    } else {
      var q, front := Quot(v, base), Numeral(Quot(v, base), base);
      NumeralValue(q, base);
      ValueAppend(front, LastDigit(v, base), base);
      Recompose(v, base, q, Rem(v, base));
    }
  }

  lemma SingleValue(c: char, base: nat)
    requires 0 <= DigitValue(c) < base
    ensures AllDigits([c], base) && ValueOf([c], base) == DigitValue(c)
  {
    assert [c][..0] == [];
  }

  lemma Recompose(v: nat, base: nat, q: nat, r: nat)
    requires base >= 2 && q == Quot(v, base) && r == Rem(v, base)
    ensures q * base + r == v
  {
    DivideDown(v, base);
  }

  lemma ValueAppend(s: string, c: char, base: nat)
    requires AllDigits(s, base) && 0 <= DigitValue(c) < base
    ensures AllDigits(s + [c], base) && ValueOf(s + [c], base) == ValueOf(s, base) * base + DigitValue(c)
  {
    assert (s + [c])[..|s|] == s;
  }

  lemma {:induction false} DecimalLetters(v: nat, i: nat)
    requires i < |Numeral(v, 10)|
    ensures '0' <= Numeral(v, 10)[i] <= '9'
  {
    DigitOf(v, 10);
    if v >= 10 && i < |Numeral(v, 10)| - 1 {
      DecimalLetters(v / 10, i);
    }
  }

  /** Every 64-bit number is read back from its decimal print. */
  lemma DecimalRoundTrip(v: nat)
    requires v < WORD
    ensures UnsignedMeaning(Numeral(v, 10)) == Some(v)
  {
    NumeralValue(v, 10);
    if |Numeral(v, 10)| >= 2 {
      DecimalLetters(v, 1);
    }
  }

  /** Every pointer is read back from its hexadecimal print. */
  lemma PointerRoundTrip(v: nat)
    requires v < WORD
    ensures UnsignedMeaning("0x" + Numeral(v, 16)) == Some(v)
  {
    NumeralValue(v, 16);
    assert ("0x" + Numeral(v, 16))[2..] == Numeral(v, 16);
  }

  /** After either prefix the text is a hexadecimal numeral. */
  lemma PrefixesAgree(s: string)
    ensures UnsignedMeaning("0x" + s) == UnsignedMeaning("0X" + s) == Meaning(s, 16)
  {
    assert ("0x" + s)[2..] == s && ("0X" + s)[2..] == s;
  }

  lemma PlainText(m: nat)
    ensures var s := Numeral(m, 10); s[0] != '-' && s[0] != '+'
    ensures ("-" + Numeral(m, 10))[0] == '-' && ("-" + Numeral(m, 10))[1..] == Numeral(m, 10)
  {
    DecimalLetters(m, 0);
  }

  /** Every signed number is read back from its print, the least one included. */
  lemma SignedRoundTrip(v: int)
    requires -0x8000_0000_0000_0000 <= v < 0x8000_0000_0000_0000
    ensures SignedMeaning(SignedNumeral(v)) == Some(v)
  {
    var m := if v < 0 then -v else v;
    NumeralValue(m, 10);
    PlainText(m);
  }

  /** The way the printer writes digits: upper case, no leading zero. */
  predicate Canonical(s: string, base: nat) {
    && IsNumeral(s, base) && (forall i | 0 <= i < |s| :: !('a' <= s[i] <= 'f'))
    && (|s| > 1 ==> s[0] != '0')
  }

  lemma DigitBack(c: char, v: nat, base: nat)
    requires DigitValue(c) >= 0 && !('a' <= c <= 'f') && 2 <= base <= 16 && Rem(v, base) == DigitValue(c)
    ensures LastDigit(v, base) == c
  {
  }

  lemma DivideBack(q: nat, d: nat, base: nat)
    requires base >= 2 && d < base
    ensures Quot(q * base + d, base) == q && Rem(q * base + d, base) == d
  {
    var v := q * base + d;
    DivideDown(v, base);
    var p := Quot(v, base);
    if p < q {
      OneMore(p, base);
      Scaled(p + 1, q, base);
    } else if p > q {
      OneMore(q, base);
      Scaled(q + 1, p, base);
    }
  }

  lemma OneMore(q: nat, base: nat)
    ensures (q + 1) * base == q * base + base
  {
  }

  lemma CanonicalFront(s: string, base: nat)
    requires Canonical(s, base) && |s| > 1
    ensures Canonical(s[..|s| - 1], base) && s[..|s| - 1][0] == s[0]
  {
    var front := s[..|s| - 1];
    assert forall i | 0 <= i < |front| :: front[i] == s[i];
  }

  lemma CanonicalLast(s: string, base: nat)
    requires Canonical(s, base) && |s| > 1
    ensures var n := |s| - 1;
            && s == s[..n] + [s[n]] && 0 <= DigitValue(s[n]) < base && !('a' <= s[n] <= 'f') && s[0] != '0'
            && AllDigits(s[..n], base) && ValueOf(s, base) == ValueOf(s[..n], base) * base + DigitValue(s[n])
  {
    var n := |s| - 1;
    CanonicalFront(s, base);
    assert s == s[..n] + [s[n]];
    ValueAppend(s[..n], s[n], base);
  }

  lemma OneDigit(s: string, base: nat)
    requires 2 <= base <= 16 && Canonical(s, base) && |s| == 1
    ensures ValueOf(s, base) == DigitValue(s[0]) && Numeral(ValueOf(s, base), base) == s
    ensures s[0] != '0' ==> ValueOf(s, base) > 0
  {
    var d := DigitValue(s[0]);
    assert ValueOf(s[..0], base) == 0;
    DigitBack(s[0], d, base);
  }

  /** Printing undoes parsing of every canonical numeral. */
  lemma {:induction false} PrintAfterParse(s: string, base: nat)
    requires 2 <= base <= 16 && Canonical(s, base)
    ensures Numeral(ValueOf(s, base), base) == s
    ensures s[0] != '0' ==> ValueOf(s, base) > 0
    decreases |s|
  {
    var n := |s| - 1;
    if n == 0 {
      OneDigit(s, base);
    } else {
      var front, d := s[..n], DigitValue(s[n]);
      CanonicalFront(s, base);
      CanonicalLast(s, base);
      PrintAfterParse(front, base);
      AppendDigit(ValueOf(front, base), d, s[n], base);
    }
  }

  lemma AppendDigit(q: nat, d: nat, c: char, base: nat)
    requires 2 <= base <= 16 && d == DigitValue(c) && d < base && !('a' <= c <= 'f') && q > 0
    ensures q * base + d > 0 && Numeral(q * base + d, base) == Numeral(q, base) + [c]
  {
    DivideBack(q, d, base);
    AtLeastTwice(base, q);
    NumeralStep(q * base + d, base);
    DigitBack(c, q * base + d, base);
  }
}

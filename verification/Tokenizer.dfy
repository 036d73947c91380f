/** Splitting the kernel's command line at spaces outside quotes. */
module Tokenizer {
  import opened Text

  /** Whether an odd number of quotes comes before position k. */
  predicate InQuotes(s: string, k: nat)
    requires k <= |s|
  {
    k > 0 && (InQuotes(s, k - 1) != (s[k - 1] == '"'))
  }

  ghost function QuotesBefore(s: string, k: nat): set<nat>
    requires k <= |s|
  {
    set i | 0 <= i < k && s[i] == '"'
  }

  lemma {:induction false} QuotesCounted(s: string, k: nat)
    requires k <= |s|
    ensures InQuotes(s, k) <==> |QuotesBefore(s, k)| % 2 == 1
  {
    if k > 0 {
      QuotesCounted(s, k - 1);
      assert QuotesBefore(s, k) == QuotesBefore(s, k - 1) + if s[k - 1] == '"' then {k - 1} else {};
    }
  }

  /** The text is split at position k: the first of a run of spaces outside quotes. */
  predicate SplitAt(s: string, k: nat)
    requires k < |s|
  {
    s[k] == ' ' && !InQuotes(s, k) && (k == 0 || s[k - 1] != ' ')
  }

  /** The pieces from position prev on, of which those ending before k have been dealt with. */
  function Pieces(s: string, prev: nat, k: nat): (r: seq<string>)
    requires prev <= k <= |s|
    ensures |r| > 0
    decreases |s| - k
  {
    if k == |s| then [s[prev..]]
    else if SplitAt(s, k) then [s[prev..k]] + Pieces(s, k + 1, k + 1)
    else Pieces(s, prev, k + 1)
  }

  function Tokens(s: string): seq<string> {
    Pieces(s, 0, 0)
  }

  /** The text ends in a space outside quotes. */
  predicate EndsOpen(s: string) {
    |s| > 0 && s[|s| - 1] == ' ' && !InQuotes(s, |s| - 1)
  }

  lemma {:induction false} NoSplits(s: string, prev: nat, j: nat, k: nat)
    requires prev <= j <= k <= |s| && forall i | j <= i < k :: !SplitAt(s, i)
    ensures Pieces(s, prev, j) == Pieces(s, prev, k)
    decreases k - j
  {
    if j < k {
      assert !SplitAt(s, j);
      NoSplits(s, prev, j + 1, k);
    }
  }

  lemma {:induction false} SpacesKeepQuotes(s: string, j: nat, k: nat)
    requires j <= k <= |s| && forall i | j <= i < k :: s[i] == ' '
    ensures InQuotes(s, k) == InQuotes(s, j)
    decreases k - j
  {
    if j < k {
      SpacesKeepQuotes(s, j, k - 1);
    }
  }

  /** Where the splitter stands: the tokens found, where the next one begins, and whether
      the position lies in quotes; it is never at the second of two open spaces. */
  ghost predicate Scanning(s: string, found: seq<string>, prev: nat, pos: nat, quotes: bool) {
    && prev <= pos <= |s|
    && Tokens(s) == found + Pieces(s, prev, pos)
    && quotes == InQuotes(s, pos)
    && (pos == 0 || quotes || s[pos - 1] != ' ')
  }

  /** The splitter has run past the end, after a last open space. */
  ghost predicate RanPast(s: string, found: seq<string>) {
    |Tokens(s)| == |found| + 1 && found == Tokens(s)[..|found|] && EndsOpen(s)
  }

  /** One turn at a position that is no split. */
  lemma Advance(s: string, found: seq<string>, prev: nat, pos: nat, quotes: bool)
    requires Scanning(s, found, prev, pos, quotes) && pos < |s| && !(s[pos] == ' ' && !quotes)
    ensures Scanning(s, found, prev, pos + 1, quotes != (s[pos] == '"'))
  {
  }

  /** One turn at a split, after which all the spaces that follow have been skipped. */
  lemma AfterSplit(s: string, found: seq<string>, prev: nat, pos: nat, next: nat)
    requires Scanning(s, found, prev, pos, false) && pos < |s| && s[pos] == ' '
    requires pos + 1 <= next <= |s| && (forall i | pos <= i < next :: s[i] == ' ') && (next < |s| ==> s[next] != ' ')
    ensures next < |s| ==> Scanning(s, found + [s[prev..pos]], pos + 1, next + 1, s[next] == '"')
    ensures next == |s| ==> RanPast(s, found + [s[prev..pos]])
  {
    var found' := found + [s[prev..pos]];
    assert SplitAt(s, pos);
    assert Tokens(s) == found' + Pieces(s, pos + 1, pos + 1);
    forall i | pos + 1 <= i < next ensures !SplitAt(s, i) {
      assert s[i - 1] == ' ';
    }
    NoSplits(s, pos + 1, pos + 1, next);
    SpacesKeepQuotes(s, pos, next);
    SpacesKeepQuotes(s, pos, next - 1);
    if next < |s| {
      assert !SplitAt(s, next);
    }
  }

  /** Splits a text. Without an array it only counts; with one, as long as the count, it
      also stores the tokens, except that after a final open space the last one is left as
      it was. */
  method SplitArguments(src: string, out: array?<string>) returns (n: nat)
    requires out != null ==> out.Length == |Tokens(src)|
    modifies if out != null then {out} else {}
    ensures n == |Tokens(src)|
    ensures out != null ==> forall i | 0 <= i < n ::
              out[i] == if i == n - 1 && EndsOpen(src) then old(out[i]) else Tokens(src)[i]
  {
    var count, pos, previouspos, quotes := 0, 0, 0, false;
    ghost var found: seq<string> := [];
    while pos <= |src|
      invariant 0 <= count == |found|
      invariant pos <= |src| ==> Scanning(src, found, previouspos, pos, quotes)
      invariant pos > |src| ==> RanPast(src, found)
      invariant out != null ==> forall i | 0 <= i < count :: out[i] == found[i]
      invariant out != null ==> forall i | count <= i < out.Length :: out[i] == old(out[i])
      decreases |src| + 1 - pos
    {
      if pos == |src| {
        if out != null {
          out[count] := Substring(src, previouspos, pos - previouspos);
        }
        EndsHere(src, found, previouspos, quotes);
        return count + 1;
      }
      if Substring(src, pos, 1) == " " && !quotes {
        ghost var at := pos;
        if out != null {
          out[count] := Substring(src, previouspos, pos - previouspos);
          assert out[count] == src[previouspos..pos];
        }
        pos := pos + 1;
        ghost var prev := previouspos;
        previouspos := pos;
        pos := SkipSpaces(src, pos);
        AfterSplit(src, found, prev, at, pos);
        found := found + [src[prev..at]];
        count := count + 1;
        if Substring(src, pos, 1) == "\"" {
          quotes := !quotes;
        }
      } else {
        Advance(src, found, previouspos, pos, quotes);
        if Substring(src, pos, 1) == "\"" {
          quotes := !quotes;
        }
      }
      pos := pos + 1;
    }
    return count + 1;
  }

  /** The inner loop of SplitArguments. */
  method SkipSpaces(src: string, start: nat) returns (pos: nat)
    requires start <= |src|
    ensures start <= pos <= |src| && forall i | start <= i < pos :: src[i] == ' '
    ensures pos < |src| ==> src[pos] != ' '
  {
    pos := start;
    while Substring(src, pos, 1) == " "
      invariant start <= pos <= |src| && forall i | start <= i < pos :: src[i] == ' '
      decreases |src| - pos
    {
      assert Substring(src, pos, 1)[0] == src[pos];
      pos := pos + 1;
    }
    assert pos < |src| ==> Substring(src, pos, 1) == [src[pos]];
  }

  /** The last turn: the rest of the text is the last token, and no open space ends it. */
  lemma EndsHere(s: string, found: seq<string>, prev: nat, quotes: bool)
    requires Scanning(s, found, prev, |s|, quotes)
    ensures Tokens(s) == found + [s[prev..]] && !EndsOpen(s)
  {
  }

  // ---- What the tokens are -----------------------------------------------------------

  function Join(tokens: seq<string>): string {
    if tokens == [] then ""
    else if |tokens| == 1 then tokens[0]
    else tokens[0] + " " + Join(tokens[1..])
  }

  lemma {:induction false} JoinPieces(s: string, prev: nat, k: nat)
    requires prev <= k <= |s|
    ensures Join(Pieces(s, prev, k)) == s[prev..]
    decreases |s| - k
  {
    if k < |s| {
      if SplitAt(s, k) {
        JoinPieces(s, k + 1, k + 1);
        var rest := Pieces(s, k + 1, k + 1);
        assert ([s[prev..k]] + rest)[1..] == rest;
        assert s[prev..] == s[prev..k] + " " + s[k + 1..];
      } else {
        JoinPieces(s, prev, k + 1);
      }
    }
  }

  /** No character is lost: joined by single spaces the tokens give the text back. */
  lemma JoinTokens(s: string)
    ensures Join(Tokens(s)) == s
  {
    JoinPieces(s, 0, 0);
  }

  /** The tokens as callers see them, in an array of empty views. */
  function Seen(s: string): seq<string> {
    var t := Tokens(s);
    if EndsOpen(s) then t[..|t| - 1] + [""] else t
  }

  /** The two passes of a caller: count, make an array of empty views, and fill it. */
  method Arguments(cmdline: string) returns (args: seq<string>)
    ensures args == Seen(cmdline)
  {
    var argCount := SplitArguments(cmdline, null);
    var views := new string[argCount](_ => "");
    var filled := SplitArguments(cmdline, views);
    args := views[..];
    assert forall i | 0 <= i < argCount :: args[i] == Seen(cmdline)[i];
  }

  lemma {:induction false} JoinLast(front: seq<string>, a: string)
    ensures Join(front + [a]) == (if front == [] then "" else Join(front) + " ") + a
  {
    if |front| == 1 {
      assert (front + [a])[1..] == [a];
    } else if |front| > 1 {
      assert (front + [a])[1..] == front[1..] + [a];
      JoinLast(front[1..], a);
    }
  }

  /** The last token of a text ending in open spaces: the spaces after the split. */
  lemma {:induction false} LastPiece(s: string, prev: nat, k: nat)
    requires prev <= k <= |s| && EndsOpen(s) && k < |s|
    requires exists i | k <= i < |s| :: SplitAt(s, i)
    ensures var p := Pieces(s, prev, k); p[|p| - 1] == "" <==> SplitAt(s, |s| - 1)
    decreases |s| - k
  {
    if SplitAt(s, k) {
      if exists i | k + 1 <= i < |s| :: SplitAt(s, i) {
        LastPiece(s, k + 1, k + 1);
      } else {
        NoSplits(s, k + 1, k + 1, |s|);
      }
    } else {
      LastPiece(s, prev, k + 1);
    }
  }

  /** An open space at k lies in a run of open spaces that begins with a split. */
  lemma {:induction false} SplitBefore(s: string, k: nat)
    requires k < |s| && s[k] == ' ' && !InQuotes(s, k)
    ensures exists i | 0 <= i <= k :: SplitAt(s, i)
    decreases k
  {
    if k == 0 || s[k - 1] != ' ' {
      assert SplitAt(s, k);
    } else {
      SplitBefore(s, k - 1);
    }
  }

  /** What callers see gives the text back exactly when it does not end in two or more open
      spaces. */
  lemma SeenJoinsExactly(s: string)
    ensures Join(Seen(s)) == s <==> !(EndsOpen(s) && |s| >= 2 && s[|s| - 2] == ' ')
  {
    JoinTokens(s);
    if EndsOpen(s) {
      var t := Tokens(s);
      SplitBefore(s, |s| - 1);
      LastPiece(s, 0, 0);
      var front, last := t[..|t| - 1], t[|t| - 1];
      assert t == front + [last];
      JoinLast(front, last);
      JoinLast(front, "");
    }
  }

  /** The second of two trailing spaces is lost. */
  lemma TrailingSpacesExample()
    ensures Seen("a  ") == ["a", ""] && Join(Seen("a  ")) == "a "
  {
    var s := "a  ";
    assert !SplitAt(s, 0) && SplitAt(s, 1) && !SplitAt(s, 2);
    assert Pieces(s, 2, 3) == [s[2..]];
    assert Pieces(s, 2, 2) == [s[2..]];
    assert Pieces(s, 0, 1) == [s[0..1]] + Pieces(s, 2, 2);
    assert Pieces(s, 0, 0) == Pieces(s, 0, 1);
    assert s[0..1] == "a" && s[2..] == " ";
    assert Tokens(s) == ["a", " "];
    assert !InQuotes(s, 2) && EndsOpen(s);
    assert Seen(s) == ["a", ""];
    assert ["a", ""][1..] == [""];
  }

  /** A token has its quotes paired. */
  predicate Paired(t: string) {
    !InQuotes(t, |t|)
  }

  lemma {:induction false} QuotesShift(s: string, prev: nat, k: nat, j: nat)
    requires prev <= j <= k <= |s| && !InQuotes(s, prev)
    ensures InQuotes(s[prev..k], j - prev) == InQuotes(s, j)
    decreases j
  {
    if j > prev {
      QuotesShift(s, prev, k, j - 1);
    }
  }

  /** An open space in a token is one of those it begins with. */
  predicate OnlyLeadingSpaces(t: string) {
    forall k | 0 <= k < |t| && t[k] == ' ' && !InQuotes(t, k) :: forall i | 0 <= i < k :: t[i] == ' '
  }

  /** Up to k, the piece begun at prev has only leading open spaces. */
  ghost predicate LeadingSpaces(s: string, prev: nat, k: nat)
    requires prev <= k <= |s|
  {
    forall j, i | prev <= j < k && s[j] == ' ' && !InQuotes(s, j) && prev <= i < j :: s[i] == ' '
  }

  lemma PieceIsToken(s: string, prev: nat, k: nat)
    requires prev <= k <= |s| && !InQuotes(s, prev) && LeadingSpaces(s, prev, k)
    ensures OnlyLeadingSpaces(s[prev..k])
    ensures Paired(s[prev..k]) <==> !InQuotes(s, k)
  {
    var t := s[prev..k];
    QuotesShift(s, prev, k, k);
    forall j | 0 <= j < |t| && t[j] == ' ' && !InQuotes(t, j) ensures forall i | 0 <= i < j :: t[i] == ' ' {
      QuotesShift(s, prev, k, prev + j);
      forall i | 0 <= i < j ensures t[i] == ' ' {
        assert s[prev + j] == ' ' && prev <= prev + i < prev + j;
      }
    }
  }

  ghost predicate SoundPieces(p: seq<string>, closed: bool) {
    && p != []
    && (forall i | 0 <= i < |p| :: OnlyLeadingSpaces(p[i]))
    && (forall i | 0 <= i < |p| - 1 :: Paired(p[i]))
    && (Paired(p[|p| - 1]) <==> closed)
  }

  lemma SoundCons(x: string, p: seq<string>, closed: bool)
    requires OnlyLeadingSpaces(x) && Paired(x) && SoundPieces(p, closed)
    ensures SoundPieces([x] + p, closed)
  {
  }

  lemma {:induction false} PiecesSound(s: string, prev: nat, k: nat)
    requires prev <= k <= |s| && !InQuotes(s, prev) && LeadingSpaces(s, prev, k)
    requires prev > 0 ==> s[prev - 1] == ' '
    ensures SoundPieces(Pieces(s, prev, k), !InQuotes(s, |s|))
    decreases |s| - k
  {
    PieceIsToken(s, prev, k);
    if k == |s| {
      assert s[prev..k] == s[prev..];
    } else if SplitAt(s, k) {
      PiecesSound(s, k + 1, k + 1);
      SoundCons(s[prev..k], Pieces(s, k + 1, k + 1), !InQuotes(s, |s|));
    } else {
      if s[k] == ' ' && !InQuotes(s, k) && k > prev {
        OpenRun(s, prev, k);
      }
      PiecesSound(s, prev, k + 1);
    }
  }

  /** An open space after a space is open as well. */
  lemma OpenRun(s: string, prev: nat, k: nat)
    requires prev < k < |s| && LeadingSpaces(s, prev, k) && s[k] == ' ' && !InQuotes(s, k) && s[k - 1] == ' '
    ensures forall i | prev <= i < k :: s[i] == ' '
  {
    assert !InQuotes(s, k - 1);
  }

  /** No token boundary lies in quotes: every token but the last has its quotes paired, and
      the last has if the text has; spaces outside quotes occur only in front of a token. */
  lemma TokensSound(s: string)
    ensures var t := Tokens(s);
            && (forall i | 0 <= i < |t| :: OnlyLeadingSpaces(t[i]))
            && (forall i | 0 <= i < |t| - 1 :: Paired(t[i]))
            && (Paired(t[|t| - 1]) <==> Paired(s))
  {
    PiecesSound(s, 0, 0);
  }
}

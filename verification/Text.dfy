/** Views into text, as StringView gives them. */
module Text {

  /** Substring(start, length); the length is not clipped, so callers must stay inside. */
  function Substring(s: string, start: nat, length: nat): (r: string)
    requires start < |s| ==> start + length <= |s|
    ensures |r| == if start < |s| then length else 0
    ensures forall i | 0 <= i < |r| :: r[i] == s[start + i]
  {
    if start >= |s| then [] else s[start..start + length]
  }

  /** Substring(start). */
  function SubstringFrom(s: string, start: nat): (r: string)
    ensures r == if start < |s| then s[start..] else []
  {
    if start >= |s| then [] else Substring(s, start, |s| - start)
  }
}

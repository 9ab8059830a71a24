/** `util::ascii::contains_ignore_ascii_case`: a byte-wise substring search
    that ignores ASCII letter case, written as the source's nested loops and
    proved equal to plain substring search on the ASCII-lowercased bytes. */
module Ascii {
  import opened Ints
  import opened Text

  /** `u8::to_ascii_lowercase`. */
  function LowerByte(b: uint8): (r: uint8)
    ensures 0x41 <= b <= 0x5A ==> r == b + 0x20
    ensures !(0x41 <= b <= 0x5A) ==> r == b
  {
    if 0x41 <= b <= 0x5A then b + 0x20 else b
  }

  function LowerBytes(s: seq<uint8>): (r: seq<uint8>)
    ensures |r| == |s|
    ensures forall i :: 0 <= i < |s| ==> r[i] == LowerByte(s[i])
  {
    seq(|s|, i requires 0 <= i < |s| => LowerByte(s[i]))
  }

  /** The reference definition: `needle` occurs in `hay` once both are
      lower-cased. */
  predicate ContainsIgnoringCase(hay: seq<uint8>, needle: seq<uint8>) {
    Contains(LowerBytes(hay), LowerBytes(needle))
  }

  /** The window of `hay` at `start` equals `needle` up to ASCII case. */
  predicate WindowMatches(hay: seq<uint8>, needle: seq<uint8>, start: nat)
    requires start + |needle| <= |hay|
  {
    forall i :: 0 <= i < |needle| ==> LowerByte(hay[start + i]) == LowerByte(needle[i])
  }

  lemma WindowMatchesIffOccurs(hay: seq<uint8>, needle: seq<uint8>, start: nat)
    requires start + |needle| <= |hay|
    ensures WindowMatches(hay, needle, start) <==> OccursAt(LowerBytes(hay), LowerBytes(needle), start)
  {
    var lh := LowerBytes(hay);
    var ln := LowerBytes(needle);
    if WindowMatches(hay, needle, start) {
      assert lh[start..start + |needle|] == ln;
    }
    if OccursAt(lh, ln, start) {
      forall i | 0 <= i < |needle|
        ensures LowerByte(hay[start + i]) == LowerByte(needle[i])
      {
        assert lh[start..start + |needle|][i] == ln[i];
      }
    }
  }

  /** `contains_ignore_ascii_case`. */
  method ContainsIgnoreAsciiCase(hay: seq<uint8>, needle: seq<uint8>) returns (found: bool)
    ensures found <==> ContainsIgnoringCase(hay, needle)
    ensures |needle| == 0 ==> found
    ensures |needle| > |hay| ==> !found
  {
    if |needle| == 0 {
      assert OccursAt(LowerBytes(hay), LowerBytes(needle), 0);
      return true;
    }
    if |needle| > |hay| {
      return false;
    }
    var start := 0;
    while start <= |hay| - |needle|
      invariant 0 <= start <= |hay| - |needle| + 1
      invariant forall s :: 0 <= s < start ==> !WindowMatches(hay, needle, s)
    {
      var matched := true;
      var i := 0;
      while i < |needle|
        invariant 0 <= i <= |needle|
        invariant matched <==> forall k :: 0 <= k < i ==> LowerByte(hay[start + k]) == LowerByte(needle[k])
      {
        if LowerByte(hay[start + i]) != LowerByte(needle[i]) {
          matched := false;
          break;
        }
        i := i + 1;
      }
      assert matched <==> WindowMatches(hay, needle, start);
      if matched {
        WindowMatchesIffOccurs(hay, needle, start);
        return true;
      }
      start := start + 1;
    }
    found := false;
    forall s | 0 <= s <= |hay| - |needle|
      ensures !OccursAt(LowerBytes(hay), LowerBytes(needle), s)
    {
      WindowMatchesIffOccurs(hay, needle, s);
    }
  }

  /** Every byte string contains itself, whatever the case. */
  lemma ContainsItself(s: seq<uint8>)
    ensures ContainsIgnoringCase(s, s)
  {
    ContainsSelf(LowerBytes(s));
  }

  /** Case of either argument does not matter. */
  lemma CaseOfArgumentsIrrelevant(hay: seq<uint8>, needle: seq<uint8>)
    ensures ContainsIgnoringCase(LowerBytes(hay), needle) == ContainsIgnoringCase(hay, needle)
    ensures ContainsIgnoringCase(hay, LowerBytes(needle)) == ContainsIgnoringCase(hay, needle)
  {
    assert LowerBytes(LowerBytes(hay)) == LowerBytes(hay);
    assert LowerBytes(LowerBytes(needle)) == LowerBytes(needle);
  }
}

/** String helpers with the semantics of the Rust `str` methods the
    modelled code calls: `trim`, `to_ascii_lowercase`, `contains`,
    `ends_with`, `eq_ignore_ascii_case`. A Rust `String` is modelled as the
    sequence of its Unicode scalar values. */
module Text {

  /** `char::is_whitespace`: the Unicode White_Space property. */
  predicate IsWhitespace(c: char) {
    var u := c as int;
    || (0x09 <= u <= 0x0D)
    || u == 0x20
    || u == 0x85
    || u == 0xA0
    || u == 0x1680
    || (0x2000 <= u <= 0x200A)
    || u == 0x2028
    || u == 0x2029
    || u == 0x202F
    || u == 0x205F
    || u == 0x3000
  }

  predicate AllWhitespace(s: string) {
    forall i :: 0 <= i < |s| ==> IsWhitespace(s[i])
  }

  /** `str::trim_start`. */
  function TrimStart(s: string): (r: string)
    ensures |r| <= |s| && r == s[|s| - |r|..]
    ensures |r| > 0 ==> !IsWhitespace(r[0])
    ensures AllWhitespace(s[..|s| - |r|])
    decreases |s|
  {
    if |s| > 0 && IsWhitespace(s[0]) then
      var r := TrimStart(s[1..]);
      WhitespaceHeadExtends(s, r);
      r
    else s
  }

  /** One more leading whitespace character widens the blank prefix. */
  lemma WhitespaceHeadExtends(s: string, r: string)
    requires |s| > 0 && IsWhitespace(s[0]) && |r| <= |s| - 1
    requires r == s[1..][|s| - 1 - |r|..] && AllWhitespace(s[1..][..|s| - 1 - |r|])
    ensures r == s[|s| - |r|..] && AllWhitespace(s[..|s| - |r|])
  {
    var n := |s| - |r|;
    assert s[1..][n - 1..] == s[n..];
    forall k | 0 <= k < n
      ensures IsWhitespace(s[..n][k])
    {
      if k > 0 {
        assert s[..n][k] == s[1..][..n - 1][k - 1];
      }
    }
  }

  /** `str::trim_end`. */
  function TrimEnd(s: string): (r: string)
    ensures |r| <= |s| && r == s[..|r|]
    ensures |r| > 0 ==> !IsWhitespace(r[|r| - 1])
    ensures AllWhitespace(s[|r|..])
    decreases |s|
  {
    if |s| > 0 && IsWhitespace(s[|s| - 1]) then
      var r := TrimEnd(s[..|s| - 1]);
      WhitespaceTailExtends(s, r);
      r
    else s
  }

  /** One more trailing whitespace character widens the blank suffix. */
  lemma WhitespaceTailExtends(s: string, r: string)
    requires |s| > 0 && IsWhitespace(s[|s| - 1]) && |r| <= |s| - 1
    requires r == s[..|s| - 1][..|r|] && AllWhitespace(s[..|s| - 1][|r|..])
    ensures r == s[..|r|] && AllWhitespace(s[|r|..])
  {
    var n := |r|;
    assert s[..|s| - 1][..n] == s[..n];
    forall k | 0 <= k < |s| - n
      ensures IsWhitespace(s[n..][k])
    {
      if k < |s| - 1 - n {
        assert s[n..][k] == s[..|s| - 1][n..][k];
      }
    }
  }

  /** `s[i..j]` is `s` with whitespace, and only whitespace, removed from
      both ends: what is cut off is blank, and what is kept starts and ends
      with a non-whitespace character. */
  predicate StrippedSlice(s: string, i: int, j: int) {
    && 0 <= i <= j <= |s|
    && AllWhitespace(s[..i])
    && AllWhitespace(s[j..])
    && (i < j ==> !IsWhitespace(s[i]) && !IsWhitespace(s[j - 1]))
  }

  /** `str::trim`: both ends stripped of whitespace. */
  function Trim(s: string): (r: string)
    ensures |r| <= |s|
    ensures |r| > 0 ==> !IsWhitespace(r[0]) && !IsWhitespace(r[|r| - 1])
  {
    TrimEnd(TrimStart(s))
  }

  /** The trimmed text is the slice of `s` that is left once the leading and
      the trailing whitespace, and nothing else, are cut off. */
  lemma TrimIsStrippedSlice(s: string)
    ensures exists i, j :: StrippedSlice(s, i, j) && Trim(s) == s[i..j]
  {
    var t := TrimStart(s);
    var r := TrimEnd(t);
    var a := |s| - |t|;
    SliceOfTrimmedStart(s, t, r, a);
  }

  lemma SliceOfTrimmedStart(s: string, t: string, r: string, a: nat)
    requires a <= |s| && t == s[a..] && AllWhitespace(s[..a])
    requires |r| <= |t| && r == t[..|r|] && AllWhitespace(t[|r|..])
    requires |r| > 0 ==> !IsWhitespace(r[0]) && !IsWhitespace(r[|r| - 1])
    ensures StrippedSlice(s, a, a + |r|) && r == s[a..a + |r|]
  {
    assert s[a + |r|..] == t[|r|..];
    if |r| > 0 {
      assert s[a] == r[0];
      assert s[a + |r| - 1] == r[|r| - 1];
    }
  }

  /** Whatever stripped slice one picks, it is the trim: `Trim` is the one
      result the stripping rule allows. */
  lemma TrimUnique(s: string, i: int, j: int)
    requires StrippedSlice(s, i, j)
    ensures Trim(s) == s[i..j]
  {
    StrippedSliceIsTrimmed(s, i, j);
  }

  lemma StrippedSliceIsTrimmed(s: string, i: int, j: int)
    requires StrippedSlice(s, i, j)
    ensures TrimEnd(TrimStart(s)) == s[i..j]
  {
    if i == j {
      forall k | 0 <= k < |s|
        ensures IsWhitespace(s[k])
      {
        if k < i {
          assert s[..i][k] == s[k];
        } else {
          assert s[j..][k - j] == s[k];
        }
      }
      BlankTrimsToEmpty(s);
    } else {
      TrimStartSkips(s, i);
      TrimEndOfStripped(s, i, j);
    }
  }

  lemma TrimEndOfStripped(s: string, i: int, j: int)
    requires StrippedSlice(s, i, j) && i < j
    ensures TrimEnd(s[i..]) == s[i..j]
  {
    var u := s[i..];
    var k := j - i;
    assert u[k..] == s[j..];
    assert u[k - 1] == s[j - 1];
    TrimEndSkips(u, k);
    assert u[..k] == s[i..j];
  }

  lemma BlankTrimsToEmpty(s: string)
    requires AllWhitespace(s)
    ensures TrimStart(s) == []
  {
    TrimStartSkips(s, |s|);
  }

  lemma {:induction false} TrimStartSkips(s: string, i: nat)
    requires i <= |s| && AllWhitespace(s[..i])
    requires i < |s| ==> !IsWhitespace(s[i])
    ensures TrimStart(s) == s[i..]
    decreases i
  {
    if i > 0 {
      var w := s[..i];
      var t := s[1..];
      assert w[0] == s[0];
      assert TrimStart(s) == TrimStart(t);
      assert t[..i - 1] == w[1..];
      BlankTail(w);
      assert i - 1 < |t| ==> t[i - 1] == s[i];
      TrimStartSkips(t, i - 1);
      assert t[i - 1..] == s[i..];
    }
  }

  lemma BlankTail(w: string)
    requires |w| > 0 && AllWhitespace(w)
    ensures AllWhitespace(w[1..])
  {
    forall k | 0 <= k < |w| - 1
      ensures IsWhitespace(w[1..][k])
    {
      assert w[1..][k] == w[k + 1];
    }
  }

  lemma {:induction false} TrimEndSkips(s: string, k: nat)
    requires k <= |s| && AllWhitespace(s[k..])
    requires k > 0 ==> !IsWhitespace(s[k - 1])
    ensures TrimEnd(s) == s[..k]
    decreases |s| - k
  {
    if k < |s| {
      var w := s[k..];
      var t := s[..|s| - 1];
      assert w[|w| - 1] == s[|s| - 1];
      assert TrimEnd(s) == TrimEnd(t);
      forall m | 0 <= m < |t| - k
        ensures IsWhitespace(t[k..][m])
      {
        assert t[k..][m] == w[m];
      }
      assert k > 0 ==> t[k - 1] == s[k - 1];
      TrimEndSkips(t, k);
      assert t[..k] == s[..k];
    }
  }

  /** Trimming yields the empty string exactly for blank input. */
  lemma TrimEmptyIffBlank(s: string)
    ensures |Trim(s)| == 0 <==> AllWhitespace(s)
  {
    var t := TrimStart(s);
    assert s == s[..|s| - |t|] + t;
    if |t| == 0 {
      assert s[..|s|] == s;
    } else {
      assert s[|s| - |t|] == t[0];
      assert !IsWhitespace(s[|s| - |t|]);
    }
  }

  /** Text without whitespace at either end is its own trim. */
  lemma TrimOfTrimmed(s: string)
    requires |s| > 0 ==> !IsWhitespace(s[0]) && !IsWhitespace(s[|s| - 1])
    ensures Trim(s) == s
  {
    assert TrimStart(s) == s;
  }

  /** `u8::to_ascii_lowercase` / `char::to_ascii_lowercase`. */
  function AsciiLowerChar(c: char): (r: char)
    ensures ('A' <= c <= 'Z') ==> r as int == c as int + 32
    ensures !('A' <= c <= 'Z') ==> r == c
  {
    if 'A' <= c <= 'Z' then (c as int + 32) as char else c
  }

  /** `str::to_ascii_lowercase`. */
  function AsciiLower(s: string): (r: string)
    ensures |r| == |s|
    ensures forall i :: 0 <= i < |s| ==> r[i] == AsciiLowerChar(s[i])
  {
    seq(|s|, i requires 0 <= i < |s| => AsciiLowerChar(s[i]))
  }

  lemma LowerKeepsWhitespace(c: char)
    ensures IsWhitespace(AsciiLowerChar(c)) == IsWhitespace(c)
  {
  }

  /** Lower-casing ASCII letters leaves whitespace alone, so trimming and
      lower-casing commute. */
  lemma {:induction false} TrimStartCommutesWithLower(s: string)
    ensures TrimStart(AsciiLower(s)) == AsciiLower(TrimStart(s))
    decreases |s|
  {
    if |s| > 0 {
      var l := AsciiLower(s);
      LowerKeepsWhitespace(s[0]);
      assert l[0] == AsciiLowerChar(s[0]);
      if IsWhitespace(s[0]) {
        assert l[1..] == AsciiLower(s[1..]);
        TrimStartCommutesWithLower(s[1..]);
      }
    }
  }

  lemma {:induction false} TrimEndCommutesWithLower(s: string)
    ensures TrimEnd(AsciiLower(s)) == AsciiLower(TrimEnd(s))
    decreases |s|
  {
    if |s| > 0 {
      var l := AsciiLower(s);
      LowerKeepsWhitespace(s[|s| - 1]);
      assert l[|s| - 1] == AsciiLowerChar(s[|s| - 1]);
      if IsWhitespace(s[|s| - 1]) {
        assert l[..|s| - 1] == AsciiLower(s[..|s| - 1]);
        TrimEndCommutesWithLower(s[..|s| - 1]);
      }
    }
  }

  lemma TrimCommutesWithLower(s: string)
    ensures Trim(AsciiLower(s)) == AsciiLower(Trim(s))
  {
    TrimStartCommutesWithLower(s);
    TrimEndCommutesWithLower(TrimStart(s));
  }

  lemma AsciiLowerIdempotent(s: string)
    ensures AsciiLower(AsciiLower(s)) == AsciiLower(s)
  {
  }

  /** `needle` occurs in `hay` starting at index `i`. */
  predicate OccursAt<T(==)>(hay: seq<T>, needle: seq<T>, i: int) {
    0 <= i && i + |needle| <= |hay| && hay[i..i + |needle|] == needle
  }

  /** `str::contains` with a string pattern. */
  predicate Contains<T(==)>(hay: seq<T>, needle: seq<T>) {
    exists i :: 0 <= i <= |hay| - |needle| && OccursAt(hay, needle, i)
  }

  /** `str::ends_with`. */
  predicate EndsWith(s: string, suffix: string) {
    |suffix| <= |s| && s[|s| - |suffix|..] == suffix
  }

  /** `str::starts_with`. */
  predicate StartsWith(s: string, prefix: string) {
    |prefix| <= |s| && s[..|prefix|] == prefix
  }

  /** `str::eq_ignore_ascii_case`. */
  predicate EqIgnoreAsciiCase(a: string, b: string) {
    AsciiLower(a) == AsciiLower(b)
  }

  lemma ContainsSelf<T>(s: seq<T>)
    ensures Contains(s, s)
  {
    assert OccursAt(s, s, 0);
  }

  lemma EndsWithConcat(a: string, b: string)
    ensures EndsWith(a + b, b)
  {
    assert (a + b)[|a + b| - |b|..] == b;
  }

  lemma ContainsConcatLeft(a: string, b: string, needle: string)
    requires Contains(a, needle)
    ensures Contains(a + b, needle)
  {
    var i :| 0 <= i <= |a| - |needle| && OccursAt(a, needle, i);
    assert (a + b)[i..i + |needle|] == a[i..i + |needle|];
    assert OccursAt(a + b, needle, i);
  }

  lemma StartsWithConcat(a: string, b: string)
    ensures StartsWith(a + b, a)
  {
    assert (a + b)[..|a|] == a;
  }

  /** Two adjacent pieces of a text occur in it together. */
  lemma ContainsJoined(prefix: string, left: string, right: string, suffix: string)
    ensures Contains(prefix + left + right + suffix, left + right)
  {
    var s := prefix + left + right + suffix;
    assert s[|prefix|..|prefix| + |left + right|] == left + right;
    assert OccursAt(s, left + right, |prefix|);
  }

  /** A text built from four pieces starts with the first, contains the
      middle two side by side, and ends with the last three. */
  lemma FramedText(head: string, left: string, right: string, tail: string)
    ensures var s := head + left + right + tail;
            && StartsWith(s, head)
            && Contains(s, left + right)
            && EndsWith(s, left + right + tail)
            && EndsWith(s, tail)
  {
    var s := head + left + right + tail;
    assert s[..|head|] == head;
    ContainsJoined(head, left, right, tail);
    assert s[|s| - |left + right + tail|..] == left + right + tail;
    assert s[|s| - |tail|..] == tail;
  }
}

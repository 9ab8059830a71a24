/** Decimal digit strings: rendering a number (`{}` and `{:0N}` formatting)
    and reading one back (`str::parse::<u32>`). */
module Decimal {
  import opened Ints
  import opened Wrappers

  predicate IsDigit(c: char) {
    '0' <= c <= '9'
  }

  predicate AllDigits(s: string) {
    forall i :: 0 <= i < |s| ==> IsDigit(s[i])
  }

  function DigitChar(d: nat): (c: char)
    requires d < 10
    ensures IsDigit(c) && c as int - '0' as int == d
  {
    ('0' as int + d) as char
  }

  /** The number a string of decimal digits denotes (leading zeros allowed). */
  function Value(s: string): nat
    requires AllDigits(s)
    decreases |s|
  {
    if |s| == 0 then 0
    else Value(s[..|s| - 1]) * 10 + (s[|s| - 1] as int - '0' as int)
  }

  /** `format!("{n}")`: the shortest decimal rendering. */
  function ToDecimal(n: nat): (s: string)
    ensures |s| > 0 && AllDigits(s)
    decreases n
  {
    if n < 10 then [DigitChar(n)] else ToDecimal(n / 10) + [DigitChar(n % 10)]
  }

  /** Rendering and reading back are inverse. */
  lemma {:induction false} ValueOfToDecimal(n: nat)
    ensures Value(ToDecimal(n)) == n
    decreases n
  {
    if n >= 10 {
      var s := ToDecimal(n);
      assert s[..|s| - 1] == ToDecimal(n / 10);
      ValueOfToDecimal(n / 10);
    }
  }

  function Pow10(k: nat): (p: nat)
    ensures p >= 1
  {
    if k == 0 then 1 else 10 * Pow10(k - 1)
  }

  /** `format!("{n:0w$}")` for `n < 10^w`: exactly `w` digits, zero-padded. */
  function FixedDigits(n: nat, width: nat): (s: string)
    requires n < Pow10(width)
    ensures |s| == width && AllDigits(s)
    ensures Value(s) == n
    decreases width
  {
    if width == 0 then ""
    else
      var s := FixedDigits(n / 10, width - 1) + [DigitChar(n % 10)];
      assert s[..|s| - 1] == FixedDigits(n / 10, width - 1);
      s
  }

  /** The text after an optional leading `+`. */
  function SignStripped(s: string): string {
    if |s| > 0 && s[0] == '+' then s[1..] else s
  }

  /** Text that `str::parse::<u32>` accepts. */
  predicate IsU32Literal(s: string) {
    var digits := SignStripped(s);
    |digits| > 0 && AllDigits(digits) && Value(digits) <= U32_MAX
  }

  /** `str::parse::<u32>`: an optional leading `+`, then one or more ASCII
      digits whose value fits in 32 bits. Empty text, a lone sign, any other
      character (including `-`) and overflow are errors. */
  function ParseU32(s: string): (r: Option<uint32>)
    ensures r.Some? <==> IsU32Literal(s)
    ensures r.Some? ==> r.value == Value(SignStripped(s))
  {
    if |s| == 0 || s == "+" || s == "-" then None
    else
      var digits := if s[0] == '+' then s[1..] else s;
      if !AllDigits(digits) then None
      else if Value(digits) > U32_MAX then None
      else Some(Value(digits))
  }

  /** A number rendered in decimal parses back to itself. */
  lemma ParseU32OfToDecimal(n: uint32)
    ensures ParseU32(ToDecimal(n)) == Some(n)
  {
    ValueOfToDecimal(n);
  }
}

/** 32-bit integers as the source stores `SequenceCounter.CurrentValue`, their
    decimal rendering (string interpolation of an `int`) and `int.TryParse`. */
module Decimal {
  import opened Results

  const MinInt32: int := -0x8000_0000
  const MaxInt32: int := 0x7FFF_FFFF

  /** C# `int`. */
  newtype int32 = x: int | -0x8000_0000 <= x < 0x8000_0000

  predicate IsDigit(c: char) { '0' <= c <= '9' }

  predicate AllDigits(s: string) {
    forall i :: 0 <= i < |s| ==> IsDigit(s[i])
  }

  function DigitChar(d: nat): (c: char)
    requires d < 10
    ensures IsDigit(c) && c as int - '0' as int == d
  {
    ('0' as int + d) as char
  }

  /** Decimal digits of a natural number, most significant first, without
      leading zeros. */
  function NatDigits(n: nat): (s: string)
    ensures |s| >= 1 && AllDigits(s)
    ensures (s[0] == '0') <==> n == 0
    decreases n
  {
    if n < 10 then [DigitChar(n)] else NatDigits(n / 10) + [DigitChar(n % 10)]
  }

  /** `i.ToString()`: an optional minus sign followed by the digits of |i|. */
  function FormatInt(i: int): (s: string)
    ensures |s| >= 1
    ensures (s[0] == '-') <==> i < 0
  {
    if i < 0 then "-" + NatDigits(-i) else NatDigits(i)
  }

  /** The value of a string of decimal digits. */
  function DigitsValue(s: string): nat
    requires AllDigits(s)
  {
    if s == [] then 0 else DigitsValue(s[..|s| - 1]) * 10 + (s[|s| - 1] as int - '0' as int)
  }

  /** `int.TryParse(s, out v)` on an optional sign and ASCII digits: `None` when
      the text is not a number or the number does not fit in an `int`. */
  function ParseInt32(s: string): (r: Option<int32>)
    ensures r.Some? ==> |s| >= 1
    ensures s == [] ==> r.None?
  {
    var negative := |s| >= 1 && s[0] == '-';
    var digits := if |s| >= 1 && (s[0] == '-' || s[0] == '+') then s[1..] else s;
    if digits == [] || !AllDigits(digits) then None
    else
      var magnitude: int := DigitsValue(digits);
      var v := if negative then -magnitude else magnitude;
      if MinInt32 <= v <= MaxInt32 then Some(v as int32) else None
  }

  lemma {:induction false} NatDigitsRoundTrip(n: nat)
    ensures DigitsValue(NatDigits(n)) == n
    decreases n
  {
    var s := NatDigits(n);
    if n >= 10 {
      NatDigitsRoundTrip(n / 10);
      assert s[..|s| - 1] == NatDigits(n / 10);
    }
  }

  /** Parsing what `FormatInt` printed gives the number back, for every `int`. */
  lemma FormatParseRoundTrip(i: int32)
    ensures ParseInt32(FormatInt(i as int)) == Some(i)
  {
    var s := FormatInt(i as int);
    if i < 0 {
      NatDigitsRoundTrip(-(i as int));
      assert s[1..] == NatDigits(-(i as int));
    } else {
      NatDigitsRoundTrip(i as int);
    }
  }

  /** Different numbers print differently. */
  lemma FormatInjective(a: int32, b: int32)
    requires FormatInt(a as int) == FormatInt(b as int)
    ensures a == b
  {
    FormatParseRoundTrip(a);
    FormatParseRoundTrip(b);
  }
}

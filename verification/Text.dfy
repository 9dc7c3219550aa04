/** The few string operations of the standard library that the modelled code rests on. */
module Text {
  import opened Prelude

  const U32_MAX := 0xFFFF_FFFF

  predicate IsDigit(c: char) {
    '0' <= c <= '9'
  }

  /** The code points of Unicode's White_Space property, as `char::is_whitespace` has them. */
  predicate IsWhitespace(c: char) {
    || '\t' <= c <= '\r' || c == ' ' || c == '\U{85}' || c == '\U{A0}' || c == '\U{1680}'
    || '\U{2000}' <= c <= '\U{200A}' || c == '\U{2028}' || c == '\U{2029}' || c == '\U{202F}'
    || c == '\U{205F}' || c == '\U{3000}'
  }

  function DigitValue(c: char): nat
    requires IsDigit(c)
  {
    (c - '0') as nat
  }

  function DigitChar(d: nat): (c: char)
    requires d < 10
    ensures IsDigit(c) && DigitValue(c) == d
  {
    '0' + d as char
  }

  /** `n` in decimal, without padding. */
  function Decimal(n: nat): (s: string)
    ensures s != "" && forall c :: c in s ==> IsDigit(c)
  {
    if n < 10 then [DigitChar(n)] else Decimal(n / 10) + [DigitChar(n % 10)]
  }

  function DigitsValue(s: string): nat
    requires forall c :: c in s ==> IsDigit(c)
  {
    if s == "" then 0 else DigitsValue(s[..|s| - 1]) * 10 + DigitValue(s[|s| - 1])
  }

  /** The format `{:02}`. */
  function PadTwo(n: nat): (s: string)
    ensures s != "" && forall c :: c in s ==> IsDigit(c)
  {
    if n < 10 then "0" + Decimal(n) else Decimal(n)
  }

  /** `str::parse::<u32>`: an optional plus sign, then at least one digit, in range. */
  function ParseU32(s: string): Option<nat> {
    var digits := if s != "" && s[0] == '+' then s[1..] else s;
    if digits != "" && (forall c :: c in digits ==> IsDigit(c)) && DigitsValue(digits) <= U32_MAX
    then Some(DigitsValue(digits))
    else None
  }

  lemma {:induction false} DecimalValue(n: nat)
    ensures DigitsValue(Decimal(n)) == n
  {
    if n >= 10 {
      DecimalValue(n / 10);
      assert Decimal(n)[..|Decimal(n)| - 1] == Decimal(n / 10);
    }
  }

  lemma PadTwoParses(n: nat)
    requires n <= U32_MAX
    ensures ParseU32(PadTwo(n)) == Some(n)
  {
    DecimalValue(n);
    var s := PadTwo(n);
    assert s[0] in s;
    if n < 10 {
      assert s == ['0', DigitChar(n)] && s[..1] == ['0'] && ['0'][..0] == "";
      assert DigitsValue(['0']) == 0;
      assert DigitsValue(s) == DigitsValue(s[..1]) * 10 + DigitValue(s[1]);
    }
    assert DigitsValue(s) == n;
  }

  function TrimStart(s: string): string {
    if s != "" && IsWhitespace(s[0]) then TrimStart(s[1..]) else s
  }

  function TrimEnd(s: string): string {
    if s != "" && IsWhitespace(s[|s| - 1]) then TrimEnd(s[..|s| - 1]) else s
  }

  function Trim(s: string): string {
    TrimEnd(TrimStart(s))
  }

  /** `split_once('.')`. */
  function SplitAtDot(s: string): Option<(string, string)> {
    if s == "" then None
    else if s[0] == '.' then Some(("", s[1..]))
    else match SplitAtDot(s[1..])
      case None => None
      case Some((base, suffix)) => Some(([s[0]] + base, suffix))
  }

  /** `split('.')`. */
  function SplitDots(s: string): seq<string>
    decreases |s|
  {
    match SplitAtDot(s)
    case None => [s]
    case Some((base, suffix)) =>
      SplitShortens(s);
      [base] + SplitDots(suffix)
  }

  lemma SplitShortens(s: string)
    requires SplitAtDot(s).Some?
    ensures |SplitAtDot(s).value.1| < |s|
  {}
}

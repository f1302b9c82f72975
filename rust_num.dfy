/**
 * Rust's fixed-width unsigned integers and the decimal parser behind
 * `str::parse::<u8>()`, as the standard library defines them. The command
 * line front end reaches this parser through `VersionMode::from_str`.
 */
module RustNum {
  import opened Wrappers

  const U8_LIMIT: nat := 0x100
  const U16_LIMIT: nat := 0x1_0000
  const U64_LIMIT: nat := 0x1_0000_0000_0000_0000

  type u8 = x: int | 0 <= x < 0x100
  type u16 = x: int | 0 <= x < 0x1_0000
  type u64 = x: int | 0 <= x < 0x1_0000_0000_0000_0000

  /** The three ways a `u8` parse can fail (`IntErrorKind`). */
  datatype IntErrorKind = Empty | InvalidDigit | PosOverflow

  /** The `Display` text of a `ParseIntError` of the given kind. */
  function IntErrorMessage(kind: IntErrorKind): (msg: string)
    ensures |msg| > 0
  {
    match kind
    case Empty => "cannot parse integer from empty string"
    case InvalidDigit => "invalid digit found in string"
    case PosOverflow => "number too large to fit in target type"
  }

  predicate IsDecimalDigit(c: char) {
    '0' <= c <= '9'
  }

  predicate AllDigits(ds: string) {
    forall i :: 0 <= i < |ds| ==> IsDecimalDigit(ds[i])
  }

  function DigitValue(c: char): (d: nat)
    requires IsDecimalDigit(c)
    ensures d < 10
  {
    c as int - '0' as int
  }

  function DigitChar(d: nat): (c: char)
    requires d < 10
    ensures IsDecimalDigit(c) && DigitValue(c) == d
  {
    ('0' as int + d) as char
  }

  function Pow10(k: nat): (p: nat)
    ensures p >= 1
  {
    if k == 0 then 1 else 10 * Pow10(k - 1)
  }

  /** Positional value of a digit string: the sum of d_i * 10^(n-1-i). */
  function DecimalValue(ds: string): (n: nat)
    requires AllDigits(ds)
  {
    if ds == [] then 0 else DigitValue(ds[0]) * Pow10(|ds| - 1) + DecimalValue(ds[1..])
  }

  /** The shortest decimal rendering of `n` (Rust's `Display` for integers). */
  function DecimalString(n: nat): (s: string)
    ensures |s| >= 1 && AllDigits(s)
    ensures DecimalValue(s) == n
  {
    if n < 10 then
      [DigitChar(n)]
    else
      var s := DecimalString(n / 10) + [DigitChar(n % 10)];
      DecimalValueSnoc(DecimalString(n / 10), DigitChar(n % 10));
      s
  }

  lemma {:induction false} DecimalValueSnoc(ds: string, c: char)
    requires AllDigits(ds) && IsDecimalDigit(c)
    ensures AllDigits(ds + [c])
    ensures DecimalValue(ds + [c]) == DecimalValue(ds) * 10 + DigitValue(c)
  {
    var s := ds + [c];
    assert AllDigits(s);
    if ds != [] {
      assert s[1..] == ds[1..] + [c];
      DecimalValueSnoc(ds[1..], c);
      var a, p, r := DigitValue(ds[0]), Pow10(|ds| - 1), DecimalValue(ds[1..]);
      assert Pow10(|s| - 1) == 10 * p;
      assert DecimalValue(s[1..]) == r * 10 + DigitValue(c);
      assert DecimalValue(s) == a * (10 * p) + (r * 10 + DigitValue(c));
      assert DecimalValue(ds) == a * p + r;
      ShiftLeading(a, p, r, DigitValue(c));
    }
  }

  lemma ShiftLeading(a: nat, p: nat, r: nat, d: nat)
    ensures a * (10 * p) + (r * 10 + d) == (a * p + r) * 10 + d
  {
  }

  /**
   * The checked accumulation loop of `from_str_radix` for `u8`, one
   * character at a time: a non-digit is reported before an overflow of
   * the same step.
   */
  function AccumulateU8(acc: u8, ds: string): (r: Result<u8, IntErrorKind>)
    decreases |ds|
  {
    if ds == [] then Ok(acc)
    else if !IsDecimalDigit(ds[0]) then Err(InvalidDigit)
    else if acc * 10 + DigitValue(ds[0]) >= U8_LIMIT then Err(PosOverflow)
    else AccumulateU8(acc * 10 + DigitValue(ds[0]), ds[1..])
  }

  /** The digits `u8::from_str` reads: an optional leading `+` is skipped. */
  function UnsignedDigits(s: string): string {
    if |s| > 0 && s[0] == '+' then s[1..] else s
  }

  /** `s.parse::<u8>()`. */
  function ParseU8(s: string): (r: Result<u8, IntErrorKind>) {
    if s == [] then Err(Empty)
    else if |s| == 1 && (s[0] == '+' || s[0] == '-') then Err(InvalidDigit)
    else AccumulateU8(0, UnsignedDigits(s))
  }

  lemma {:induction false} AccumulateU8Spec(acc: u8, ds: string)
    ensures AccumulateU8(acc, ds).Ok? <==>
      AllDigits(ds) && acc * Pow10(|ds|) + DecimalValue(ds) < U8_LIMIT
    ensures AccumulateU8(acc, ds).Ok? ==>
      AllDigits(ds) && AccumulateU8(acc, ds).value == acc * Pow10(|ds|) + DecimalValue(ds)
    decreases |ds|
  {
    if ds != [] && IsDecimalDigit(ds[0]) {
      var next := acc * 10 + DigitValue(ds[0]);
      AllDigitsTail(ds);
      if AllDigits(ds) {
        ShiftDigit(acc, ds);
        MulAtLeast(next, Pow10(|ds| - 1));
      }
      if next < U8_LIMIT {
        AccumulateU8Spec(next, ds[1..]);
      }
    }
  }

  lemma AllDigitsTail(ds: string)
    requires ds != [] && IsDecimalDigit(ds[0])
    ensures AllDigits(ds) <==> AllDigits(ds[1..])
  {
    if AllDigits(ds[1..]) {
      forall i | 0 <= i < |ds| ensures IsDecimalDigit(ds[i]) {
        if i > 0 { assert ds[i] == ds[1..][i - 1]; }
      }
    }
  }

  /** Moving the leading digit into the accumulator keeps the total. */
  lemma ShiftDigit(acc: nat, ds: string)
    requires ds != [] && AllDigits(ds)
    ensures AllDigits(ds[1..])
    ensures acc * Pow10(|ds|) + DecimalValue(ds) ==
      (acc * 10 + DigitValue(ds[0])) * Pow10(|ds| - 1) + DecimalValue(ds[1..])
  {
    AllDigitsTail(ds);
    var p := Pow10(|ds| - 1);
    var d := DigitValue(ds[0]);
    assert Pow10(|ds|) == 10 * p;
    assert acc * (10 * p) + d * p == (acc * 10 + d) * p;
  }

  lemma MulAtLeast(x: nat, p: nat)
    requires p >= 1
    ensures x * p >= x
  {
    assert x * p == x * (p - 1) + x;
  }

  /**
   * `s.parse::<u8>()` accepts exactly an optional `+` followed by one or
   * more decimal digits whose value is below 256, and yields that value.
   */
  lemma ParseU8Spec(s: string)
    ensures ParseU8(s) == Err(Empty) <==> s == []
    ensures ParseU8(s).Ok? <==>
      var ds := UnsignedDigits(s);
      |ds| > 0 && AllDigits(ds) && DecimalValue(ds) < U8_LIMIT
    ensures ParseU8(s).Ok? ==>
      var ds := UnsignedDigits(s);
      AllDigits(ds) && ParseU8(s).value == DecimalValue(ds)
  {
    var ds := UnsignedDigits(s);
    if s != [] {
      AccumulateU8Spec(0, ds);
      if ds == [] {
        assert |s| == 1 && s[0] == '+';
      }
      if |s| == 1 && (s[0] == '+' || s[0] == '-') {
        assert s[0] == '-' ==> !AllDigits(ds);
      }
      assert AccumulateU8(0, ds) != Err(Empty) by { AccumulateNeverEmpty(0, ds); }
    }
  }

  lemma {:induction false} AccumulateNeverEmpty(acc: u8, ds: string)
    ensures AccumulateU8(acc, ds) != Err(Empty)
    decreases |ds|
  {
    if ds != [] && IsDecimalDigit(ds[0]) && acc * 10 + DigitValue(ds[0]) < U8_LIMIT {
      AccumulateNeverEmpty(acc * 10 + DigitValue(ds[0]), ds[1..]);
    }
  }

  /** Rendering a byte in decimal and parsing it back gives the byte. */
  lemma ParseU8DecimalString(n: u8)
    ensures ParseU8(DecimalString(n)) == Ok(n)
  {
    var s := DecimalString(n);
    assert s[0] != '+';
    assert UnsignedDigits(s) == s;
    ParseU8Spec(s);
  }
}

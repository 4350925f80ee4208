/**
 * The two Rust standard-library conversions between `usize` and decimal text
 * that the protocol code uses: `str::parse::<usize>()` (the length and count
 * fields in src/protocol/strategy.rs) and `format!("{}", n)` (the length
 * header in src/protocol/value.rs). A 64-bit target is assumed.
 */
module Decimal {
  import opened Wrappers
  import opened Constants

  const PLUS: byte := 43
  const MINUS: byte := 45
  const ZERO: byte := 48

  /** `usize::MAX` on a 64-bit target. */
  const USIZE_MAX: nat := 0xFFFF_FFFF_FFFF_FFFF

  predicate IsDigit(b: byte)
  {
    ZERO <= b <= ZERO + 9
  }

  /** Every byte of `s` is a digit. */
  predicate AllDigits(s: Bytes)
  {
    forall i :: 0 <= i < |s| ==> IsDigit(s[i])
  }

  /** The number a run of decimal digits denotes, most significant first. */
  function DigitsValue(s: Bytes): nat
    requires AllDigits(s)
  {
    if |s| == 0 then 0 else DigitsValue(s[..|s| - 1]) * 10 + (s[|s| - 1] - ZERO)
  }

  /**
   * `str::parse::<usize>()`: one optional leading `+`, then one or more
   * ASCII digits whose value fits in a `usize`; anything else is an error.
   */
  function ParseUsize(s: Bytes): (r: Option<nat>)
    ensures r.Some? <==> 0 < |Unsigned(s)| && AllDigits(Unsigned(s)) && DigitsValue(Unsigned(s)) <= USIZE_MAX
    ensures r.Some? ==> r.value == DigitsValue(Unsigned(s)) && r.value <= USIZE_MAX
    ensures (exists i :: 0 <= i < |Unsigned(s)| && !IsDigit(Unsigned(s)[i])) ==> r.None?
  {
    var digits := Unsigned(s);
    if |digits| == 0 || !AllDigits(digits) then None
    else if DigitsValue(digits) > USIZE_MAX then None
    else Some(DigitsValue(digits))
  }

  /** The field without its one optional leading `+`. */
  function Unsigned(s: Bytes): (r: Bytes)
    ensures |s| > 0 && s[0] == PLUS ==> r == s[1..]
    ensures !(|s| > 0 && s[0] == PLUS) ==> r == s
  {
    if |s| > 0 && s[0] == PLUS then s[1..] else s
  }

  /** `format!("{}", n)`: the shortest decimal spelling of `n`. */
  function Format(n: nat): (r: Bytes)
    ensures 0 < |r| && AllDigits(r) && IsDigit(r[0])
    ensures r[0] == ZERO ==> n == 0
  {
    if n < 10 then [ZERO + n] else Format(n / 10) + [ZERO + n % 10]
  }

  lemma {:induction false} FormatValue(n: nat)
    ensures DigitsValue(Format(n)) == n
  {
    if n >= 10 {
      FormatValue(n / 10);
      assert Format(n)[..|Format(n)| - 1] == Format(n / 10);
    }
  }

  /** Parsing what `format!` printed gives the number back. */
  lemma ParseFormat(n: nat)
    requires n <= USIZE_MAX
    ensures ParseUsize(Format(n)) == Some(n)
  {
    FormatValue(n);
  }

  /** Rust's edge cases: a `+` sign is accepted, a `-` sign, a bare `+` and the empty field are not. */
  lemma ParseUsizeSigns()
    ensures ParseUsize([PLUS, ZERO + 7]) == Some(7)
    ensures ParseUsize([MINUS, ZERO + 1]) == None
    ensures ParseUsize([PLUS]) == None
    ensures ParseUsize([]) == None
  {
    assert [PLUS, ZERO + 7][1..] == [ZERO + 7];
    assert [ZERO + 7][..0] == [];
    assert AllDigits([ZERO + 7]);
    assert DigitsValue([ZERO + 7]) == 7;
    assert !IsDigit([MINUS, ZERO + 1][0]);
  }

  /**
   * A length or count header, a tag byte other than CR, then `format!` of
   * `n`, then CR LF: its first CR LF is the one after the digits, and the
   * field before it is the digits.
   */
  lemma FormatHeader(tag: byte, n: nat, rest: Bytes)
    requires tag != CR
    ensures FirstCrlfAt([tag] + Format(n) + CRLF + rest, 1 + |Format(n)|)
    ensures ([tag] + Format(n) + CRLF + rest)[1..1 + |Format(n)|] == Format(n)
  {
    var value := [tag] + Format(n) + CRLF + rest;
    var digits := Format(n);
    var h := 1 + |digits|;
    assert value[h] == CR && value[h + 1] == LF;
    forall j | 0 <= j < h
      ensures !CrlfAt(value, j)
    {
      if j > 0 {
        assert value[j] == digits[j - 1];
      }
    }
    assert value[1..h] == digits;
  }
}

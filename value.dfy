/**
 * src/protocol/value.rs: the `Value` a decoded frame stands for and its
 * encoding `to_response_string`. The `Float(f32)` variant is not modelled.
 */
module Values {
  import opened Wrappers
  import opened Constants
  import opened Decimal
  import opened Strategy
  import Identifiers

  /** A Rust `i32`. */
  type i32 = x: int | -0x8000_0000 <= x < 0x8000_0000

  /** The `$` tag of a bulk string. */
  const DOLLAR: byte := 36

  datatype Value = Int(n: i32) | String(s: Bytes) | List(items: seq<Value>)

  /** The bulk-string encoding of `s`: `$`, the decimal byte length, CR LF, `s`, CR LF. */
  function EncodeBulk(s: Bytes): (r: Bytes)
    ensures |r| == |Format(|s|)| + |s| + 5
  {
    [DOLLAR] + Format(|s|) + CRLF + s + CRLF
  }

  /**
   * `Value::to_response_string`: a string becomes its bulk-string encoding,
   * every other value the bare terminator.
   */
  function ToResponseString(v: Value): (r: Bytes)
    ensures v.String? ==> r == EncodeBulk(v.s)
    ensures !v.String? ==> r == CRLF
  {
    match v
    case String(s) => EncodeBulk(s)
    case _ => CRLF
  }

  /** The test in value.rs: `"abc"` encodes as `$3\r\nabc\r\n`. */
  lemma EncodeAbc()
    ensures ToResponseString(String(FromString("abc"))) == FromString("$3\r\nabc\r\n")
  {
    assert Format(3) == [ZERO + 3];
  }

  /** In an encoded bulk string the first CR LF is the one that ends the header. */
  lemma EncodeBulkHeader(s: Bytes, rest: Bytes)
    ensures FirstCrlfAt(EncodeBulk(s) + rest, 1 + |Format(|s|)|)
    ensures (EncodeBulk(s) + rest)[1..1 + |Format(|s|)|] == Format(|s|)
  {
    FormatHeader(DOLLAR, |s|, s + CRLF + rest);
    assert EncodeBulk(s) + rest == [DOLLAR] + Format(|s|) + CRLF + (s + CRLF + rest);
  }

  /** Past the header of an encoded bulk string: the payload, then a CR LF. */
  lemma EncodeBulkPayload(s: Bytes, rest: Bytes)
    ensures var h := 1 + |Format(|s|)|;
      && (EncodeBulk(s) + rest)[..h + 4 + |s|] == EncodeBulk(s)
      && (EncodeBulk(s) + rest)[h + 2..h + 2 + |s|] == s
      && HasCrlf((EncodeBulk(s) + rest)[h + 2..])
  {
    var enc := EncodeBulk(s);
    var value := enc + rest;
    var h := 1 + |Format(|s|)|;
    assert CrlfAt(value[h + 2..], |s|) by {
      assert value[h + 2 + |s|..h + 4 + |s|] == enc[|enc| - 2..];
    }
    assert value[..h + 4 + |s|] == enc;
  }

  /** Everything the bulk decoder checks holds of an encoded string, whatever follows it. */
  lemma EncodedBulkFields(s: Bytes, rest: Bytes, value: Bytes, h: nat)
    requires |s| <= USIZE_MAX && value == EncodeBulk(s) + rest && h == 1 + |Format(|s|)|
    ensures FirstCrlfAt(value, h) && 1 <= h && ParseUsize(value[1..h]) == Some(|s|)
    ensures HasCrlf(value[h + 2..]) && h + 4 + |s| <= |value|
    ensures value[..h + 4 + |s|] == EncodeBulk(s) && value[h + 2..h + 2 + |s|] == s
  {
    EncodeBulkHeader(s, rest);
    EncodeBulkPayload(s, rest);
    ParseFormat(|s|);
  }

  /**
   * The round trip of value.rs against strategy.rs: the bulk decoder reads an
   * encoded string back whole, whatever follows it, and stops right after it.
   */
  lemma BulkRoundTrip(s: Bytes, rest: Bytes)
    requires |s| <= USIZE_MAX
    ensures BulkStringApply(EncodeBulk(s) + rest)
      == Some(Resp(Identifiers.BulkString, EncodeBulk(s), s, [], |EncodeBulk(s)|))
  {
    var value := EncodeBulk(s) + rest;
    var h := 1 + |Format(|s|)|;
    EncodedBulkFields(s, rest, value, h);
    BulkStringDecodes(value, h, |s|, EncodeBulk(s), s);
  }

  /** A string value's reply is exactly what the bulk decoder accepts back as that string. */
  lemma ResponseRoundTrip(v: Value)
    requires v.String? && |v.s| <= USIZE_MAX
    ensures BulkStringApply(ToResponseString(v)).Some?
    ensures BulkStringApply(ToResponseString(v)).value.data == v.s
    ensures BulkStringApply(ToResponseString(v)).value.endAt == |ToResponseString(v)|
  {
    BulkRoundTrip(v.s, []);
    assert ToResponseString(v) + [] == ToResponseString(v);
  }
}

/**
 * src/protocol/resp.rs: `Resp::parse`, the entry point of the frame decoder,
 * and a reference encoder for requests: an array of bulk strings, the form
 * in which a client sends a command. The encoder is not part of the
 * repository; it gives the decoder something to be the inverse of.
 */
module RespFrame {
  import opened Wrappers
  import opened Constants
  import opened Decimal
  import opened Strategy
  import opened Values
  import Identifiers

  /** The `*` tag of an array. */
  const STAR: byte := 42

  /**
   * `Resp::parse`: empty input fails, anything else is dispatched on its first
   * byte; only `+`, `$` and `*` have a decoder.
   */
  function Parse(input: Bytes): (r: Option<Resp>)
    ensures |input| == 0 ==> r.None?
    ensures |input| > 0 && input[0] !in {43, 36, 42} ==> r.None?
    ensures r.Some? ==> r.value.identifier == Identifiers.From(input[0] as char) && r.value.endAt <= |input|
  {
    if |input| == 0 then None
    else IdentifierApply(Identifiers.From(input[0] as char), input)
  }

  /** The bulk-string encodings of `items`, one after another. */
  function EncodeBulks(items: seq<Bytes>): Bytes
  {
    if |items| == 0 then [] else EncodeBulk(items[0]) + EncodeBulks(items[1..])
  }

  /** A request: an array header with the item count, then every item as a bulk string. */
  function EncodeArray(items: seq<Bytes>): Bytes
  {
    [STAR] + Format(|items|) + CRLF + EncodeBulks(items)
  }

  /** The frame the bulk decoder makes of one encoded item. */
  function BulkFrame(s: Bytes): Resp
  {
    Resp(Identifiers.BulkString, EncodeBulk(s), s, [], |EncodeBulk(s)|)
  }

  function BulkFrames(items: seq<Bytes>): (r: seq<Resp>)
    ensures |r| == |items|
    ensures forall i :: 0 <= i < |items| ==> r[i] == BulkFrame(items[i])
  {
    if |items| == 0 then [] else [BulkFrame(items[0])] + BulkFrames(items[1..])
  }

  /** Every item fits the length field of a bulk string. */
  predicate Encodable(items: seq<Bytes>)
  {
    forall i :: 0 <= i < |items| ==> |items[i]| <= USIZE_MAX
  }

  /** An encoded bulk string inside an array is decoded by the element dispatch. */
  lemma ElementOfBulk(value: Bytes, cursor: nat, s: Bytes, rest: Bytes)
    requires 1 <= cursor < |value| && value[cursor..] == EncodeBulk(s) + rest && |s| <= USIZE_MAX
    ensures Element(value, cursor) == Some(BulkFrame(s))
  {
    assert value[cursor] == DOLLAR;
    BulkRoundTrip(s, rest);
  }

  /** Past a prefix `a` of the suffix from `cursor`, what is left is `b`. */
  lemma DropAppend(value: Bytes, cursor: nat, a: Bytes, b: Bytes)
    requires cursor <= |value| && value[cursor..] == a + b
    ensures value[cursor + |a|..] == b
  {
    assert value[cursor + |a|..] == (a + b)[|a|..];
  }

  /** The first of a run of encoded bulk strings decodes, and the rest of the run follows it. */
  lemma BulkStep(value: Bytes, cursor: nat, items: seq<Bytes>)
    requires 1 <= cursor <= |value| && value[cursor..] == EncodeBulks(items) && Encodable(items) && 0 < |items|
    ensures DecodesAt(value, cursor, BulkFrame(items[0]))
    ensures cursor + |EncodeBulk(items[0])| <= |value|
    ensures value[cursor + |EncodeBulk(items[0])|..] == EncodeBulks(items[1..]) && Encodable(items[1..])
  {
    var tail := EncodeBulks(items[1..]);
    DropAppend(value, cursor, EncodeBulk(items[0]), tail);
    ElementOfBulk(value, cursor, items[0], tail);
  }

  /** A run of encoded bulk strings decodes to their frames and ends right after the last one. */
  lemma {:induction false} BulksSequential(value: Bytes, cursor: nat, items: seq<Bytes>)
    requires 1 <= cursor <= |value| && value[cursor..] == EncodeBulks(items) && Encodable(items)
    ensures Sequential(value, cursor, BulkFrames(items), |value|)
    decreases |items|
  {
    if |items| > 0 {
      BulkStep(value, cursor, items);
      BulksSequential(value, cursor + |EncodeBulk(items[0])|, items[1..]);
      assert BulkFrames(items)[1..] == BulkFrames(items[1..]);
    }
  }

  /**
   * The array round trip: a request decodes to an array frame holding one
   * bulk-string frame per item, in order, ending exactly at the end of the input.
   */
  lemma ArrayRoundTrip(items: seq<Bytes>)
    requires |items| <= USIZE_MAX && Encodable(items)
    ensures ArrayApply(EncodeArray(items))
      == Some(Resp(Identifiers.Arrays, EncodeArray(items), [], BulkFrames(items), |EncodeArray(items)|))
  {
    var value := EncodeArray(items);
    var h := 1 + |Format(|items|)|;
    FormatHeader(STAR, |items|, EncodeBulks(items));
    ParseFormat(|items|);
    BulksSequential(value, h + 2, items);
    SequentialElements(value, h + 2, BulkFrames(items), |value|);
    ArrayDecodes(value, h, |items|);
  }

  /** A request parses through `Resp::parse` as that array frame. */
  lemma ParseRequest(items: seq<Bytes>)
    requires |items| <= USIZE_MAX && Encodable(items)
    ensures Parse(EncodeArray(items))
      == Some(Resp(Identifiers.Arrays, EncodeArray(items), [], BulkFrames(items), |EncodeArray(items)|))
  {
    ArrayRoundTrip(items);
  }

  /** The decimal digit for `n`, as text. */
  function DigitText(n: nat): string
    requires n < 10
  {
    [('0' as int + n) as char]
  }

  /** A short item as text: every item of the tests is shorter than ten bytes. */
  predicate ShortText(s: string)
  {
    |s| < 10 && IsByteText(s)
  }

  /** The bulk-string encoding of a short item, written as text the way the tests write it. */
  function BulkText(s: string): string
    requires ShortText(s)
  {
    "$" + DigitText(|s|) + "\r\n" + s + "\r\n"
  }

  function BulksText(ss: seq<string>): string
    requires forall i :: 0 <= i < |ss| ==> ShortText(ss[i])
  {
    if |ss| == 0 then "" else BulkText(ss[0]) + BulksText(ss[1..])
  }

  /** A request of fewer than ten short items, written as text. */
  function ArrayText(ss: seq<string>): string
    requires |ss| < 10 && forall i :: 0 <= i < |ss| ==> ShortText(ss[i])
  {
    "*" + DigitText(|ss|) + "\r\n" + BulksText(ss)
  }

  function ItemBytes(ss: seq<string>): (r: seq<Bytes>)
    requires forall i :: 0 <= i < |ss| ==> IsByteText(ss[i])
    ensures |r| == |ss| && forall i :: 0 <= i < |ss| ==> r[i] == FromString(ss[i])
  {
    seq(|ss|, i requires 0 <= i < |ss| => FromString(ss[i]))
  }

  lemma DigitBytes(n: nat)
    requires n < 10
    ensures IsByteText(DigitText(n)) && FromString(DigitText(n)) == Format(n)
  {
  }

  /** The text of a bulk string is its encoding. */
  lemma BulkTextBytes(s: string)
    requires ShortText(s)
    ensures IsByteText(BulkText(s)) && FromString(BulkText(s)) == EncodeBulk(FromString(s))
  {
    DigitBytes(|s|);
    FromStringAppend("$", DigitText(|s|));
    FromStringAppend("$" + DigitText(|s|), "\r\n");
    FromStringAppend("$" + DigitText(|s|) + "\r\n", s);
    FromStringAppend("$" + DigitText(|s|) + "\r\n" + s, "\r\n");
    assert FromString("\r\n") == CRLF && FromString("$") == [DOLLAR];
  }

  lemma {:induction false} BulksTextBytes(ss: seq<string>)
    requires forall i :: 0 <= i < |ss| ==> ShortText(ss[i])
    ensures IsByteText(BulksText(ss)) && FromString(BulksText(ss)) == EncodeBulks(ItemBytes(ss))
    decreases |ss|
  {
    if |ss| > 0 {
      BulkTextBytes(ss[0]);
      BulksTextBytes(ss[1..]);
      FromStringAppend(BulkText(ss[0]), BulksText(ss[1..]));
      assert ItemBytes(ss)[1..] == ItemBytes(ss[1..]);
    } else {
      assert FromString("") == [];
    }
  }

  /** The text of a request is its encoding. */
  lemma ArrayTextBytes(ss: seq<string>)
    requires |ss| < 10 && forall i :: 0 <= i < |ss| ==> ShortText(ss[i])
    ensures IsByteText(ArrayText(ss)) && FromString(ArrayText(ss)) == EncodeArray(ItemBytes(ss))
  {
    DigitBytes(|ss|);
    BulksTextBytes(ss);
    FromStringAppend("*", DigitText(|ss|));
    FromStringAppend("*" + DigitText(|ss|), "\r\n");
    FromStringAppend("*" + DigitText(|ss|) + "\r\n", BulksText(ss));
    assert FromString("\r\n") == CRLF && FromString("*") == [STAR];
  }

  /*
   * The literal-text lemmas below (ArrayText2 to EchoBananaText) state nothing
   * about the server: they only spell out the test inputs item by item, so that
   * `ArrayTextBytes` can turn each one into `EncodeArray` of its items.
   */

  /** A two-item request as text. */
  lemma ArrayText2(a: string, b: string)
    requires ShortText(a) && ShortText(b)
    ensures ArrayText([a, b]) == "*2\r\n" + BulkText(a) + BulkText(b)
  {
    var ss := [a, b];
    assert ss[1..] == [b] && [b][1..] == [];
    assert BulksText([b]) == BulkText(b) + "" == BulkText(b);
    assert BulksText(ss) == BulkText(a) + BulkText(b);
    assert "*" + DigitText(2) + "\r\n" == "*2\r\n";
  }

  lemma EchoText()
    ensures BulkText("ECHO") == "$4\r\nECHO\r\n"
  {
  }

  lemma BananaText()
    ensures BulkText("banana") == "$6\r\nbanana\r\n"
  {
  }

  lemma EchoBananaText()
    ensures ArrayText(["ECHO", "banana"]) == "*2\r\n$4\r\nECHO\r\n$6\r\nbanana\r\n"
  {
    ArrayText2("ECHO", "banana");
    EchoText();
    BananaText();
    assert "*2\r\n" + "$4\r\nECHO\r\n" + "$6\r\nbanana\r\n" == "*2\r\n$4\r\nECHO\r\n$6\r\nbanana\r\n";
  }

  /** The test `parse_1`: `$3\r\nHey\r\n` parses as a bulk string holding `Hey`. */
  lemma ParseHey(input: Bytes, hey: Bytes)
    requires input == FromString("$3\r\nHey\r\n") && hey == FromString("Hey")
    ensures Parse(input) == Some(Resp(Identifiers.BulkString, input, hey, [], |input|))
  {
    BulkTextBytes("Hey");
    assert BulkText("Hey") == "$3\r\nHey\r\n";
    assert input + [] == input;
    BulkRoundTrip(hey, []);
  }

  /** The test `bulk_strategy`: `$5\r\nhello\r\n` decodes to `hello`. */
  lemma BulkStrategyHello(input: Bytes, hello: Bytes)
    requires input == FromString("$5\r\nhello\r\n") && hello == FromString("hello")
    ensures BulkStringApply(input) == Some(Resp(Identifiers.BulkString, input, hello, [], |input|))
  {
    BulkTextBytes("hello");
    assert BulkText("hello") == "$5\r\nhello\r\n";
    assert input + [] == input;
    BulkRoundTrip(hello, []);
  }

  /**
   * The test `array_command_strategy`: `*2\r\n$4\r\nECHO\r\n$6\r\nbanana\r\n`
   * decodes to an array of the two bulk strings `ECHO` and `banana`.
   */
  lemma ArrayStrategyEcho(input: Bytes, echo: Bytes, banana: Bytes)
    requires input == FromString("*2\r\n$4\r\nECHO\r\n$6\r\nbanana\r\n")
    requires echo == FromString("ECHO") && banana == FromString("banana")
    ensures ArrayApply(input) == Some(Resp(Identifiers.Arrays, input, [], BulkFrames([echo, banana]), |input|))
  {
    EchoBananaBytes(input, echo, banana);
    ArrayRoundTrip([echo, banana]);
  }

  /** The request of `array_command_strategy` is the encoding of its two items. */
  lemma EchoBananaBytes(input: Bytes, echo: Bytes, banana: Bytes)
    requires input == FromString("*2\r\n$4\r\nECHO\r\n$6\r\nbanana\r\n")
    requires echo == FromString("ECHO") && banana == FromString("banana")
    ensures input == EncodeArray([echo, banana]) && Encodable([echo, banana])
  {
    ArrayTextBytes(["ECHO", "banana"]);
    EchoBananaText();
    assert ItemBytes(["ECHO", "banana"]) == [echo, banana];
  }
}

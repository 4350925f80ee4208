/**
 * src/protocol/parser.rs: from request bytes to a command. `Parser::parse`
 * asks the tag of the first byte to turn the input into a `Value`; the
 * repository has no such method on `Identifier`, so `IdentifierParse` is a
 * bridge stated here: the frame decoder of src/protocol/identifier.rs, then
 * `ToValue`, which makes simple and bulk strings `String` values and arrays
 * `List` values of their converted elements.
 */
module Parser {
  import opened Wrappers
  import opened Constants
  import opened Strategy
  import opened Values
  import opened Commands
  import opened CommandTypes
  import opened Decimal
  import opened RespFrame
  import Identifiers

  /** ASCII lower case of one byte; every other byte is left alone. */
  function LowerByte(b: byte): (r: byte)
  {
    if 65 <= b <= 90 then b + 32 else b
  }

  /** `to_lowercase`, restricted to ASCII. */
  function Lowercase(s: Bytes): (r: Bytes)
    ensures |r| == |s| && forall i :: 0 <= i < |s| ==> r[i] == LowerByte(s[i])
  {
    seq(|s|, i requires 0 <= i < |s| => LowerByte(s[i]))
  }

  const PING: Bytes := FromString("ping")
  const ECHO: Bytes := FromString("echo")
  const SET: Bytes := FromString("set")
  const GET: Bytes := FromString("get")

  /** `s` lowercases to `name`. */
  predicate NameIs(s: Bytes, name: Bytes)
  {
    Lowercase(s) == name
  }

  /** Only letters change case: a name matches when every byte matches after folding. */
  lemma NameIsBytes(s: Bytes, name: Bytes)
    requires forall i :: 0 <= i < |name| ==> 97 <= name[i] <= 122
    ensures NameIs(s, name) <==>
      |s| == |name| && forall i :: 0 <= i < |s| ==> s[i] == name[i] || s[i] == name[i] - 32
  {
    if |s| == |name| && forall i :: 0 <= i < |s| ==> s[i] == name[i] || s[i] == name[i] - 32 {
      assert Lowercase(s) == name;
    }
  }

  /** The four command names are told apart by their folded bytes. */
  lemma NamesDistinct(s: Bytes)
    ensures NameIs(s, PING) ==> !NameIs(s, ECHO) && !NameIs(s, SET) && !NameIs(s, GET)
    ensures NameIs(s, ECHO) ==> !NameIs(s, SET) && !NameIs(s, GET)
    ensures NameIs(s, SET) ==> !NameIs(s, GET)
  {
    assert PING[0] != ECHO[0] && SET[0] != GET[0];
  }

  /** The bridge from a decoded frame to the `Value` it stands for. */
  function ToValue(r: Resp): (v: Value)
    requires WellFormed(r)
    ensures r.identifier != Identifiers.Arrays ==> v == String(r.data)
    ensures r.identifier == Identifiers.Arrays ==> v.List? && |v.items| == |r.values|
    decreases r
  {
    if r.identifier == Identifiers.Arrays then
      List(seq(|r.values|, i requires 0 <= i < |r.values| => ToValue(r.values[i])))
    else String(r.data)
  }

  /** `Identifier::parse`, the bridge: decode a frame, then convert it. */
  function IdentifierParse(id: Identifiers.Identifier, input: Bytes): (r: Option<Value>)
    ensures r.Some? <==> IdentifierApply(id, input).Some?
  {
    match IdentifierApply(id, input)
    case None => None
    case Some(frame) =>
      FrameWellFormed(id, input);
      Some(ToValue(frame))
  }

  /** `parse_string`: a bare string is a command only when it is `ping`, in any case. */
  function ParseString(s: Bytes): (r: Option<CommandType>)
    ensures r.Some? <==> NameIs(s, PING)
    ensures r.Some? ==> r.value == Ping(PingCommand)
  {
    if Lowercase(s) == PING then Some(Ping(PingCommand)) else None
  }

  /**
   * `parse_list`: the head must be a string naming a command; `echo` takes
   * the second value and ignores the rest, `set` and `get` build their
   * command from everything after the head.
   */
  function ParseList(values: seq<Value>): (r: Option<CommandType>)
    ensures |values| == 0 || !values[0].String? ==> r.None?
    ensures r.Some? ==>
      (NameIs(values[0].s, ECHO) || NameIs(values[0].s, PING) || NameIs(values[0].s, SET) || NameIs(values[0].s, GET))
  {
    if |values| == 0 then None
    else match values[0]
      case String(command) =>
        var name := Lowercase(command);
        if name == ECHO then
          (if |values| < 2 then None else Some(Echo(EchoCommand(values[1]))))
        else if name == PING then Some(Ping(PingCommand))
        else if name == SET then
          (match SetFrom(values[1..]) case None => None case Some(c) => Some(Set(c)))
        else if name == GET then
          (match GetFrom(values[1..]) case None => None case Some(c) => Some(Get(c)))
        else None
      case _ => None
  }

  /** What `parse_list` makes of each command name, in terms of the values that follow it. */
  lemma ParseListCases(values: seq<Value>)
    requires 0 < |values| && values[0].String?
    ensures NameIs(values[0].s, ECHO) ==>
      ParseList(values) == if |values| < 2 then None else Some(Echo(EchoCommand(values[1])))
    ensures NameIs(values[0].s, PING) ==> ParseList(values) == Some(Ping(PingCommand))
    ensures NameIs(values[0].s, SET) ==>
      ParseList(values) == if 3 <= |values| && values[1].String?
        then Some(Set(SetCommand(values[1].s, values[2], None))) else None
    ensures NameIs(values[0].s, GET) ==>
      ParseList(values) == if 2 <= |values| && values[1].String?
        then Some(Get(GetCommand(values[1].s))) else None
    ensures (!NameIs(values[0].s, ECHO) && !NameIs(values[0].s, PING) && !NameIs(values[0].s, SET)
             && !NameIs(values[0].s, GET)) ==> ParseList(values) == None
  {
    NamesDistinct(values[0].s);
    var rest := values[1..];
    assert |values| >= 2 ==> rest[0] == values[1];
    assert |values| >= 3 ==> rest[1] == values[2];
  }

  /**
   * `Parser::parse`: empty input is no command; otherwise the value the
   * first byte's tag makes of the input is read as a bare string or a list.
   */
  function Parse(input: Bytes): (r: Option<CommandType>)
    ensures |input| == 0 ==> r.None?
    ensures r.Some? ==> IdentifierApply(Identifiers.From(input[0] as char), input).Some?
  {
    if |input| == 0 then None
    else match IdentifierParse(Identifiers.From(input[0] as char), input)
      case None => None
      case Some(String(s)) => ParseString(s)
      case Some(List(values)) => ParseList(values)
      case Some(_) => None
  }

  /** The `String` values of a request's items. */
  function Strings(items: seq<Bytes>): (r: seq<Value>)
    ensures |r| == |items| && forall i :: 0 <= i < |items| ==> r[i] == String(items[i])
  {
    seq(|items|, i requires 0 <= i < |items| => String(items[i]))
  }

  /** An encoded request is read as the list of its items as strings. */
  lemma ParseEncodedRequest(items: seq<Bytes>)
    requires |items| <= USIZE_MAX && Encodable(items)
    ensures Parse(EncodeArray(items)) == ParseList(Strings(items))
  {
    var input := EncodeArray(items);
    assert input[0] == STAR;
    ArrayRoundTrip(items);
    var frame := Resp(Identifiers.Arrays, input, [], BulkFrames(items), |input|);
    FrameWellFormed(Identifiers.Arrays, input);
    assert ToValue(frame).items == Strings(items) by {
      forall i | 0 <= i < |items| ensures ToValue(frame).items[i] == String(items[i]) {
        assert frame.values[i] == BulkFrame(items[i]);
      }
    }
  }

  /** A bulk string on its own is read as a bare string. */
  lemma ParseEncodedBulk(s: Bytes)
    requires |s| <= USIZE_MAX
    ensures Parse(EncodeBulk(s)) == ParseString(s)
  {
    assert EncodeBulk(s)[0] == DOLLAR;
    assert EncodeBulk(s) + [] == EncodeBulk(s);
    BulkRoundTrip(s, []);
  }
}

/**
 * src/protocol/commands.rs: the four commands, the constructors of `SET`
 * and `GET` from their argument values, and what each command does to the
 * store and answers. `SET` always leaves `args` empty and `GET` never
 * looks at expiry: neither is implemented in this version.
 */
module Commands {
  import opened Wrappers
  import opened Constants
  import opened Decimal
  import opened Strategy
  import opened Values
  import opened Stores
  import Identifiers

  datatype PingCommand = PingCommand
  datatype EchoCommand = EchoCommand(value: Value)
  datatype SetCommand = SetCommand(key: Bytes, value: Value, args: Option<seq<Bytes>>)
  datatype GetCommand = GetCommand(key: Bytes)

  /** The reply of `SET`. */
  const OK: Bytes := FromString("+OK\r\n")
  /** The reply of `PING`. */
  const PONG: Bytes := FromString("+PONG\r\n")
  /** The reply of `GET` for a missing key. */
  const NIL: Bytes := FromString("$-1\r\n")

  /**
   * `SetCommand::from`: at least a key and a value, the key a string; any
   * further values are dropped and `args` stays empty.
   */
  function SetFrom(values: seq<Value>): (r: Option<SetCommand>)
    ensures r.Some? <==> 2 <= |values| && values[0].String?
    ensures r.Some? ==> r.value == SetCommand(values[0].s, values[1], None)
  {
    if |values| == 0 then None
    else if |values| < 2 then None
    else match values[0]
      case String(key) => Some(SetCommand(key, values[1], None))
      case _ => None
  }

  /** `GetCommand::from`: the first value is the key and must be a string; the rest is dropped. */
  function GetFrom(values: seq<Value>): (r: Option<GetCommand>)
    ensures r.Some? <==> 1 <= |values| && values[0].String?
    ensures r.Some? ==> r.value == GetCommand(values[0].s)
  {
    if |values| == 0 then None
    else match values[0]
      case String(key) => Some(GetCommand(key))
      case _ => None
  }

  /** The test `test_set_command`: `[foo, bar]` makes the command that sets `foo` to `bar`. */
  lemma SetFromFooBar()
    ensures SetFrom([String(FromString("foo")), String(FromString("bar"))])
      == Some(SetCommand(FromString("foo"), String(FromString("bar")), None))
  {
  }

  /** `EchoCommand::execute`: a string is answered with its bulk encoding, anything else with nothing. */
  function EchoExecute(c: EchoCommand): (r: Option<Bytes>)
    ensures c.value.String? <==> r.Some?
    ensures c.value.String? ==> r == Some(EncodeBulk(c.value.s))
  {
    if c.value.String? then Some(ToResponseString(c.value)) else None
  }

  /** The echo reply reads back, through the bulk decoder, as the very string echoed. */
  lemma EchoRoundTrip(c: EchoCommand)
    requires c.value.String? && |c.value.s| <= USIZE_MAX
    ensures EchoExecute(c).Some?
    ensures BulkStringApply(EchoExecute(c).value)
      == Some(Resp(Identifiers.BulkString, EchoExecute(c).value, c.value.s, [], |EchoExecute(c).value|))
  {
    assert EchoExecute(c).value == EncodeBulk(c.value.s) + [];
    BulkRoundTrip(c.value.s, []);
  }

  /** `PingCommand::execute`: always `+PONG\r\n`. */
  function PingExecute(c: PingCommand): (r: Option<Bytes>)
    ensures r == Some(PONG)
  {
    Some(PONG)
  }

  /**
   * The reply of `PING` is not something `SimpleStringStrategy::apply`
   * accepts: that decoder wants a second CR LF after the content.
   */
  lemma PongIsNotDecodable()
    ensures SimpleStringApply(PingExecute(PingCommand).value) == None
  {
    var v := PONG;
    assert v[5] == CR && v[6] == LF;
    FindIsFirst(v, 5);
    FindNone(v[7..]);
  }

  /** `SetCommand::execute`: store the value under the key and answer `+OK\r\n`. */
  method SetExecute(c: SetCommand, store: Store) returns (r: Option<Bytes>)
    modifies store
    ensures r == Some(OK)
    ensures store.valueMap == old(store.valueMap)[c.key := c.value]
    ensures store.expiryMap == old(store.expiryMap)
  {
    store.Put(c.key, c.value);
    r := Some(OK);
  }

  /**
   * `GetCommand::execute`: a present key is answered with its value's
   * encoding, a missing one with `$-1\r\n`; the store is not changed.
   */
  method GetExecute(c: GetCommand, store: Store) returns (r: Option<Bytes>)
    ensures c.key in store.valueMap ==> r == Some(ToResponseString(store.valueMap[c.key]))
    ensures c.key !in store.valueMap ==> r == Some(NIL)
  {
    var value := store.Get(c.key);
    match value {
      case Some(v) => r := Some(ToResponseString(v));
      case None => r := Some(NIL);
    }
  }
}

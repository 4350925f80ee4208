/**
 * src/protocol/executor.rs: parse a request, then run the command against
 * the store, and the three end-to-end tests of that file.
 */
module Executors {
  import opened Wrappers
  import opened Constants
  import opened Values
  import opened Stores
  import opened Commands
  import opened CommandTypes
  import RespFrame
  import opened Parser

  /** The answer to `input` and the value map after it, starting from the value map `m`. */
  function Serve(input: Bytes, m: map<Bytes, Value>): (Option<Bytes>, map<Bytes, Value>)
  {
    match Parse(input)
    case None => (None, m)
    case Some(c) => (Reply(c, m), After(c, m))
  }

  /** `Executor::execute`: no command, no answer; otherwise the command's answer. */
  method Execute(store: Store, input: Bytes) returns (r: Option<Bytes>)
    modifies store
    ensures (r, store.valueMap) == Serve(input, old(store.valueMap))
    ensures store.expiryMap == old(store.expiryMap)
  {
    var command := Parse(input);
    match command {
      case None => r := None;
      case Some(c) => r := CommandTypes.Execute(c, store);
    }
  }

  /** A request that does not parse is not answered and changes nothing. */
  lemma ServeUnparsed(input: Bytes, m: map<Bytes, Value>)
    requires Parse(input).None?
    ensures Serve(input, m) == (None, m)
  {
  }

  /** Only a request that parses as `SET` changes the value map. */
  lemma ServeOnlySetChanges(input: Bytes, m: map<Bytes, Value>)
    ensures Serve(input, m).1 != m ==> Parse(input).Some? && Parse(input).value.Set?
    ensures Serve(input, m).0.None? ==> Serve(input, m).1 == m
  {
  }

  /*
   * The literal-text lemmas below (PingText to BarText) state nothing about
   * the server: they only spell out the test requests item by item, so that
   * `RespFrame.ArrayTextBytes` can turn each one into `EncodeArray` of its items.
   */

  lemma PingText()
    ensures RespFrame.ArrayText(["PING"]) == "*1\r\n$4\r\nPING\r\n"
  {
    assert ["PING"][1..] == [];
  }

  lemma SetFooBarText()
    ensures RespFrame.ArrayText(["SET", "foo", "bar"]) == "*3\r\n$3\r\nSET\r\n$3\r\nfoo\r\n$3\r\nbar\r\n"
  {
    ArrayText3("SET", "foo", "bar");
    SetText();
    FooText();
    BarText();
    assert "*3\r\n" + "$3\r\nSET\r\n" + "$3\r\nfoo\r\n" + "$3\r\nbar\r\n"
      == "*3\r\n$3\r\nSET\r\n$3\r\nfoo\r\n$3\r\nbar\r\n";
  }

  /** A three-item request as text. */
  lemma ArrayText3(a: string, b: string, c: string)
    requires RespFrame.ShortText(a) && RespFrame.ShortText(b) && RespFrame.ShortText(c)
    ensures RespFrame.ArrayText([a, b, c])
      == "*3\r\n" + RespFrame.BulkText(a) + RespFrame.BulkText(b) + RespFrame.BulkText(c)
  {
    var ss := [a, b, c];
    assert ss[1..] == [b, c] && [b, c][1..] == [c] && [c][1..] == [];
    assert RespFrame.BulksText([c]) == RespFrame.BulkText(c) + "" == RespFrame.BulkText(c);
    assert RespFrame.BulksText([b, c]) == RespFrame.BulkText(b) + RespFrame.BulkText(c);
    assert RespFrame.BulksText(ss) == RespFrame.BulkText(a) + (RespFrame.BulkText(b) + RespFrame.BulkText(c));
    assert "*" + RespFrame.DigitText(3) + "\r\n" == "*3\r\n";
  }

  lemma SetText()
    ensures RespFrame.BulkText("SET") == "$3\r\nSET\r\n"
  {
  }

  lemma FooText()
    ensures RespFrame.BulkText("foo") == "$3\r\nfoo\r\n"
  {
  }

  lemma GetFooText()
    ensures RespFrame.ArrayText(["GET", "foo"]) == "*2\r\n$3\r\nGET\r\n$3\r\nfoo\r\n"
  {
    RespFrame.ArrayText2("GET", "foo");
  }

  lemma BarText()
    ensures RespFrame.BulkText("bar") == "$3\r\nbar\r\n"
  {
  }

  /** The request of `test_echo` parses as `ECHO banana`. */
  lemma EchoRequest(input: Bytes)
    requires input == FromString("*2\r\n$4\r\nECHO\r\n$6\r\nbanana\r\n")
    ensures Parse(input) == Some(Echo(EchoCommand(String(FromString("banana")))))
  {
    var items := RespFrame.ItemBytes(["ECHO", "banana"]);
    RespFrame.ArrayTextBytes(["ECHO", "banana"]);
    RespFrame.EchoBananaText();
    ParseEncodedRequest(items);
    assert NameIs(items[0], ECHO);
    ParseListCases(Strings(items));
  }

  /** The request of `test_ping` parses as `PING`. */
  lemma PingRequest(input: Bytes)
    requires input == FromString("*1\r\n$4\r\nPING\r\n")
    ensures Parse(input) == Some(Ping(PingCommand))
  {
    var items := RespFrame.ItemBytes(["PING"]);
    RespFrame.ArrayTextBytes(["PING"]);
    PingText();
    ParseEncodedRequest(items);
    assert NameIs(items[0], PING);
    ParseListCases(Strings(items));
  }

  /** The first request of `test_set_and_get` parses as `SET foo bar`. */
  lemma SetRequest(input: Bytes)
    requires input == FromString("*3\r\n$3\r\nSET\r\n$3\r\nfoo\r\n$3\r\nbar\r\n")
    ensures Parse(input) == Some(Set(SetCommand(FromString("foo"), String(FromString("bar")), None)))
  {
    var items := RespFrame.ItemBytes(["SET", "foo", "bar"]);
    RespFrame.ArrayTextBytes(["SET", "foo", "bar"]);
    SetFooBarText();
    ParseEncodedRequest(items);
    assert NameIs(items[0], SET);
    ParseListCases(Strings(items));
  }

  /** The second request of `test_set_and_get` parses as `GET foo`. */
  lemma GetRequest(input: Bytes)
    requires input == FromString("*2\r\n$3\r\nGET\r\n$3\r\nfoo\r\n")
    ensures Parse(input) == Some(Get(GetCommand(FromString("foo"))))
  {
    var items := RespFrame.ItemBytes(["GET", "foo"]);
    RespFrame.ArrayTextBytes(["GET", "foo"]);
    GetFooText();
    ParseEncodedRequest(items);
    assert NameIs(items[0], GET);
    ParseListCases(Strings(items));
  }

  /** The test `test_echo`: `ECHO banana` is answered `$6\r\nbanana\r\n`. */
  method TestEcho() returns (out: Option<Bytes>)
    ensures out == Some(FromString("$6\r\nbanana\r\n"))
  {
    var store := new Store();
    var input := FromString("*2\r\n$4\r\nECHO\r\n$6\r\nbanana\r\n");
    EchoRequest(input);
    RespFrame.BulkTextBytes("banana");
    RespFrame.BananaText();
    out := Execute(store, input);
  }

  /** The test `test_ping`: `PING` is answered `+PONG\r\n`. */
  method TestPing() returns (out: Option<Bytes>)
    ensures out == Some(FromString("+PONG\r\n"))
  {
    var store := new Store();
    var input := FromString("*1\r\n$4\r\nPING\r\n");
    PingRequest(input);
    out := Execute(store, input);
  }

  /** The first half of `test_set_and_get`: `SET foo bar` answers `+OK\r\n` and stores `bar` under `foo`. */
  method SetFooBar(store: Store) returns (out: Option<Bytes>)
    modifies store
    ensures out == Some(FromString("+OK\r\n"))
    ensures store.valueMap == old(store.valueMap)[FromString("foo") := String(FromString("bar"))]
  {
    var setRequest := FromString("*3\r\n$3\r\nSET\r\n$3\r\nfoo\r\n$3\r\nbar\r\n");
    SetRequest(setRequest);
    out := Execute(store, setRequest);
  }

  /** The second half of `test_set_and_get`: `GET foo` answers with the encoding of what `foo` holds. */
  method GetFoo(store: Store) returns (out: Option<Bytes>)
    modifies store
    requires FromString("foo") in store.valueMap && store.valueMap[FromString("foo")] == String(FromString("bar"))
    ensures out == Some(FromString("$3\r\nbar\r\n"))
    ensures store.valueMap == old(store.valueMap) && store.expiryMap == old(store.expiryMap)
  {
    var getRequest := FromString("*2\r\n$3\r\nGET\r\n$3\r\nfoo\r\n");
    GetRequest(getRequest);
    RespFrame.BulkTextBytes("bar");
    BarText();
    out := Execute(store, getRequest);
  }

  /** The test `test_set_and_get`: `SET foo bar` answers `+OK\r\n`, then `GET foo` answers `$3\r\nbar\r\n`. */
  method TestSetAndGet() returns (out: Option<Bytes>, getOutput: Option<Bytes>)
    ensures out == Some(FromString("+OK\r\n"))
    ensures getOutput == Some(FromString("$3\r\nbar\r\n"))
  {
    var store := new Store();
    out := SetFooBar(store);
    getOutput := GetFoo(store);
  }
}

# redis-rust: a verified model of the RESP request path

This project models the request path of a small Redis-compatible server
written in Rust. A request arrives as bytes and is turned into a RESP frame:
a simple string `+…`, a bulk string `$n\r\n…\r\n`, or an array `*n\r\n…` of
frames. The frame becomes a `Value`. The value becomes one of four commands:
`PING`, `ECHO`, `SET` and `GET`. The command runs against a key-value store,
and its reply is the RESP text that goes back to the client.

Modules, one per source file:

- `Constants` (constants.rs): bytes, CR LF, and the first-CR-LF search `find`.
- `Decimal`: the two standard-library conversions the protocol code uses.
  These are `str::parse::<usize>` for length and count fields, and
  `format!("{}")` for the length header of a reply.
- `Identifiers` (identifier.rs): the tag byte of a frame.
- `Strategy` (strategy.rs, together with `Identifier::apply`): the three frame
  decoders. The array decoder calls back into the dispatch for each element,
  so the decoders and the dispatch form one mutually recursive group. The
  array decoder's `for` loop is also modelled as a method with its loop
  invariant, proved equal to the recursive definition.
- `Values` (value.rs): values and their reply encoding `to_response_string`.
- `RespFrame` (resp.rs): `Resp::parse`, plus a reference encoder for requests
  (an array of bulk strings). The decoder is proved to be its inverse.
- `Stores` (store.rs): the store, a class whose two maps are updated in place.
- `Commands` (commands.rs), `CommandTypes` (command_type.rs): the commands,
  their constructors and what each one does.
- `Parser` (parser.rs) and `Executors` (executor.rs): from request bytes to a
  command, and from a command to a reply.
- `Wrappers`: the `Option` type.

The repository's unit tests are stated as lemmas and methods with exact
results. So are the places where the decoders behave differently from
standard RESP:

- the simple-string decoder wants a second CR LF, so `+OK\r\n` does not decode;
- its `end_at` counts from the start of the content, not from the start of the frame;
- the bulk decoder does not check that the payload ends in CR LF.

All three are modelled as the code behaves.

Where the source would panic (a slice out of range, `value[1..0]`, or indexing
past the end), the model returns `None`. Each such place is marked in the code.

`Parser::parse` calls `Identifier::parse`, which the repository does not
define. The model supplies a bridge, `Parser.IdentifierParse`. It decodes the
frame with `Identifier::apply` and then converts it with `Parser.ToValue`:
simple and bulk strings become `String`, arrays become `List` of their
converted elements. This is the reading the rest of the code and the tests
of executor.rs require.

## Model

| member | source | states |
|---|---|---|
| Constants.FindFrom | src/protocol/constants.rs:13 | a result is at or after the start window and is a CR LF window |
| Constants.Find | src/protocol/constants.rs:9-14 | inputs shorter than 2 give None; a result is a CR LF position |
| Constants.FindFromSkips | src/protocol/constants.rs:13 | the windows the search skips hold no CR LF; a failed search saw none |
| Constants.FindSpec | src/protocol/constants.rs:9-14 | `find` succeeds exactly when a CR LF exists, and then returns the first one |
| Constants.FindIsFirst | src/protocol/constants.rs:9-14 | whichever position is the first CR LF is the one `find` returns |
| Constants.FindNone | src/protocol/constants.rs:9-14 | no CR LF pair means None |
| Constants.FindCrlfOnly | src/protocol/constants.rs:22 | the test: `find([CR, LF])` is `Some(0)` |
| Constants.FindLoneBytes | src/protocol/constants.rs:13 | a lone CR, a lone LF or LF CR is not a terminator; in CR CR LF it is at 1 |
| Decimal.ParseUsize | src/protocol/strategy.rs:54-56 | the field parses exactly when it holds, after one optional leading `+`, one or more bytes that are all digits and whose value fits a 64-bit `usize`; the result is that value, and a field with any non-digit byte fails |
| Decimal.Format | src/protocol/value.rs:15 | the decimal spelling is non-empty, all digits, with no leading zero unless it is 0 |
| Decimal.FormatValue | src/protocol/value.rs:15 | the digits `format!` prints denote the number |
| Decimal.ParseFormat | src/protocol/value.rs:15 | parsing what `format!` printed gives the number back |
| Decimal.ParseUsizeSigns | src/protocol/strategy.rs:56 | `+7` parses as 7; `-1`, a bare `+` and the empty field do not parse |
| Decimal.FormatHeader | src/protocol/strategy.rs:88-92 | in a header written as tag, decimal count, CR LF, the first CR LF follows the digits and the field before it is the digits |
| Identifiers.From | src/protocol/identifier.rs:16-26 | each of `+ - : $ *` maps to its variant and back; every other character maps to `None` |
| Identifiers.TagOfByte36 | src/protocol/resp.rs:41-43 | the test: byte 36 is the bulk-string tag |
| Strategy.SimpleStringApply | src/protocol/strategy.rs:18-40 | empty input fails; a result is a simple-string frame over the whole input whose `end_at` is between 2 and the input length |
| Strategy.BulkStringApply | src/protocol/strategy.rs:42-76 | empty input fails; a result is a bulk-string frame whose raw bytes are the input up to `end_at` |
| Strategy.IdentifierApply | src/protocol/identifier.rs:29-39 | only the `+`, `$` and `*` tags decode; the frame carries the tag it was dispatched on and ends within the input |
| Strategy.Elements | src/protocol/strategy.rs:97-109 | a decoded run has exactly the declared count of elements and ends between its start and the end of the input |
| Strategy.Element | src/protocol/strategy.rs:102-103 | an element decoded at a cursor ends within the input |
| Strategy.ArrayApply | src/protocol/strategy.rs:78-118 | empty input fails; a result is an array frame over the whole input that ends within it |
| Strategy.ArrayStrategyApply | src/protocol/strategy.rs:78-118 | the imperative decoder returns exactly what the recursive definition `ArrayApply` gives |
| Strategy.DecodeElements | src/protocol/strategy.rs:97-109 | the `for` loop that advances the cursor by each element's `end_at` computes exactly the run `Elements` defines |
| Strategy.ElementsStep | src/protocol/strategy.rs:101-105 | one turn of the loop (push the element, advance the cursor) keeps the eventual result |
| Strategy.ElementsStepAt | src/protocol/strategy.rs:101-105 | the same step, with the next cursor and the pushed elements written out |
| Strategy.SimpleStringSpec | src/protocol/strategy.rs:25-37 | with no second CR LF the decoder fails; otherwise the content lies between the two CR LFs and `end_at` is the content length plus 2 |
| Strategy.BulkStringSpec | src/protocol/strategy.rs:52-74 | a bad length field, or a CR LF at 0, fails; with a good length the decoder succeeds exactly when some CR LF follows the header and the payload plus 2 fits, and the frame is then the header, the payload and 2 more bytes |
| Strategy.BulkStringDecodes | src/protocol/strategy.rs:52-74 | the success case of the bulk decoder, as one step |
| Strategy.ElementsHead | src/protocol/strategy.rs:101-105 | the first element of a decoded run is the frame at the cursor, and the rest of the run starts where it ends |
| Strategy.ElementsCons | src/protocol/strategy.rs:101-105 | a frame at the cursor followed by a decoded run is a decoded run |
| Strategy.ElementsConsAt | src/protocol/strategy.rs:101-105 | the same, with the element and the rest of the run named |
| Strategy.ArrayDecodes | src/protocol/strategy.rs:88-116 | with a good count field and a decoded run after the header, the array frame is that run |
| Strategy.SequentialAt | src/protocol/strategy.rs:101-105 | element i of a decoded run is the frame at the cursor plus the sum of the earlier elements' `end_at` |
| Strategy.SequentialEnd | src/protocol/strategy.rs:104-115 | a run ends at its cursor plus the sum of its elements' `end_at` |
| Strategy.SequentialLayout | src/protocol/strategy.rs:101-115 | both facts above, for every element |
| Strategy.ElementsSequential | src/protocol/strategy.rs:101-109 | what `Elements` decodes is a sequential run |
| Strategy.SequentialElements | src/protocol/strategy.rs:101-109 | a sequential run is what `Elements` decodes, so the two agree in both directions |
| Strategy.ArrayIsSequential | src/protocol/strategy.rs:88-116 | a decoded array's count field is its number of elements, its raw bytes are the input, its data is empty, and its elements are the sequential run after the header |
| Strategy.NoCrlfFails | src/protocol/strategy.rs:25-88 | input without any CR LF is rejected by all three decoders |
| Strategy.EmptyArray | src/protocol/strategy.rs:92-116 | a count of 0 gives no elements and ends right after the header |
| Strategy.FrameWellFormed | src/protocol/identifier.rs:30-38 | every decoded frame is one of the three kinds, and arrays nest only decoded frames |
| Strategy.SequentialWellFormed | src/protocol/strategy.rs:101-105 | every frame of a sequential run is well formed |
| Strategy.SimpleStrategyRejects | src/protocol/strategy.rs:127-131 | the test: the three inputs without two CR LFs fail |
| Strategy.SimpleStrategyHello | src/protocol/strategy.rs:133-136 | the test: `+\r\nhello\r\n` decodes to `hello`, with `end_at` 7 |
| Strategy.SimpleStringNeedsTwoTerminators | src/protocol/strategy.rs:25-29 | standard `+OK\r\n` does not decode |
| Strategy.BulkTerminatorUnchecked | src/protocol/strategy.rs:60-73 | `$1\r\nab\r\n` decodes to `a`, and its raw bytes and `end_at` stop between the CR and the LF |
| Strategy.ArrayMissingElement | src/protocol/strategy.rs:101-102 | `*1\r\n` fails, because the element it declares is missing |
| Values.EncodeBulk | src/protocol/value.rs:15 | the encoding is the length digits, the payload and 5 bytes of framing |
| Values.ToResponseString | src/protocol/value.rs:12-18 | a string becomes its bulk encoding; every other value becomes a bare CR LF |
| Values.EncodeAbc | src/protocol/value.rs:27-32 | the test: `abc` encodes as `$3\r\nabc\r\n` |
| Values.EncodeBulkHeader | src/protocol/value.rs:15 | in an encoded string the first CR LF ends the header, and the length field holds the digits |
| Values.EncodeBulkPayload | src/protocol/value.rs:15 | after the header of an encoded string come the payload and a CR LF |
| Values.EncodedBulkFields | src/protocol/value.rs:15 | an encoded string, whatever follows it, meets every check of the bulk decoder |
| Values.BulkRoundTrip | src/protocol/value.rs:15 | the bulk decoder reads an encoded string back whole, whatever follows it, and stops right after it |
| Values.ResponseRoundTrip | src/protocol/value.rs:12-18 | the reply for a string value decodes back to that string and spans the whole reply |
| RespFrame.Parse | src/protocol/resp.rs:13-19 | empty input and untagged input fail; a frame carries the tag of the first byte and ends within the input |
| RespFrame.BulkFrames | src/protocol/strategy.rs:68-74 | one bulk frame per item, in order |
| RespFrame.ElementOfBulk | src/protocol/strategy.rs:102-103 | an encoded string inside an array decodes as its bulk frame |
| RespFrame.BulkStep | src/protocol/strategy.rs:101-105 | the first of a run of encoded strings decodes, and the rest of the run follows it |
| RespFrame.BulksSequential | src/protocol/strategy.rs:101-109 | a run of encoded strings is a sequential run of their frames that ends at the end of the input |
| RespFrame.ArrayRoundTrip | src/protocol/strategy.rs:78-118 | an encoded request decodes to an array of one bulk frame per item, in order, that ends at the end of the input |
| RespFrame.ParseRequest | src/protocol/resp.rs:13-19 | `Resp::parse` of an encoded request is that array frame |
| RespFrame.ParseHey | src/protocol/resp.rs:31-37 | the test: `$3\r\nHey\r\n` parses as a bulk string holding `Hey` |
| RespFrame.BulkStrategyHello | src/protocol/strategy.rs:142-148 | the test: `$5\r\nhello\r\n` decodes to `hello` |
| RespFrame.ArrayStrategyEcho | src/protocol/strategy.rs:151-158 | the test: the ECHO request decodes to the two bulk frames `ECHO` and `banana`, and ends at the end of the input |
| RespFrame.EchoBananaBytes | src/protocol/strategy.rs:153 | the test's input is the encoding of its two items |
| Stores.Store.constructor | src/protocol/store.rs:13-18 | both maps start empty |
| Stores.Store.Put | src/protocol/store.rs:20-23 | inserts or overwrites the key; the expiry map is unchanged |
| Stores.Store.Get | src/protocol/store.rs:25-28 | the stored value if the key is present, None otherwise; the store does not change |
| Stores.Store.SetExpiry | src/protocol/store.rs:30-32 | records the expiry for the key; the value map is unchanged |
| Stores.Store.GetExpiry | src/protocol/store.rs:34-36 | returns a timestamp exactly when one is recorded, and it is the recorded one |
| Stores.ReadWrite | src/protocol/store.rs:45-67 | the test: an integer and a string read back as written, and `zya` reads as absent |
| Stores.ExpiryReadBack | src/protocol/store.rs:30-36 | an expiry that was set reads back, and the value map is unchanged |
| Commands.SetFrom | src/protocol/commands.rs:21-43 | succeeds exactly when there are at least two values and the first is a string; the key is that string, the value is the second, `args` is empty |
| Commands.GetFrom | src/protocol/commands.rs:58-68 | succeeds exactly when the first value is a string; that string is the key |
| Commands.SetFromFooBar | src/protocol/commands.rs:114-123 | the test: `[foo, bar]` sets `foo` to `bar` |
| Commands.EchoExecute | src/protocol/commands.rs:86-99 | there is a reply exactly when the echoed value is a string, and it is the bulk encoding of that string |
| Commands.EchoRoundTrip | src/protocol/commands.rs:94-96 | the echo reply decodes, through the bulk decoder, back to the very string echoed |
| Commands.PingExecute | src/protocol/commands.rs:101-105 | always answers `+PONG\r\n` |
| Commands.PongIsNotDecodable | src/protocol/commands.rs:103 | `+PONG\r\n` is not accepted by the repository's own simple-string decoder |
| Commands.SetExecute | src/protocol/commands.rs:45-50 | answers `+OK\r\n`, stores the value under the key and leaves the expiry map alone |
| Commands.GetExecute | src/protocol/commands.rs:70-79 | a present key is answered with its value's encoding, a missing one with `$-1\r\n` |
| CommandTypes.Execute | src/protocol/command_type.rs:11-21 | the answer and the new value map are those of the command dispatched to; the expiry map is unchanged |
| CommandTypes.OnlySetMutates | src/protocol/command_type.rs:11-21 | only `Set` changes the value map; it writes its key and keeps every other key |
| CommandTypes.ReplyDefined | src/protocol/command_type.rs:11-21 | a command fails to answer exactly when it is an `Echo` of a non-string |
| CommandTypes.SetThenGet | src/protocol/commands.rs:45-79 | a `Get` after a `Set` of the same key answers the encoding of the value set |
| CommandTypes.GetMissing | src/protocol/commands.rs:73-77 | a `Get` of an absent key answers `$-1\r\n` |
| Parser.Lowercase | src/protocol/parser.rs:32 | same length, every byte folded |
| Parser.NameIsBytes | src/protocol/parser.rs:46 | a name matches exactly when each byte equals the name's letter in lower or upper case |
| Parser.NamesDistinct | src/protocol/parser.rs:46-53 | no input matches two of the four command names |
| Parser.ToValue | src/protocol/parser.rs:20 | a string frame becomes its data; an array frame becomes a list of the same length |
| Parser.IdentifierParse | src/protocol/parser.rs:20 | gives a value exactly when the frame decodes |
| Parser.ParseString | src/protocol/parser.rs:31-36 | a bare string is a command exactly when it is `ping` in any case, and then it is `Ping` |
| Parser.ParseList | src/protocol/parser.rs:38-55 | an empty list or a non-string head is no command; a command means the head names one of the four |
| Parser.ParseListCases | src/protocol/parser.rs:38-55 | for each name, the command built from the values after the head: `echo` needs a second value, `set` a string key and a value, `get` a string key; any other name is no command |
| Parser.Parse | src/protocol/parser.rs:12-28 | empty input is no command; a command means the input decodes as a frame |
| Parser.ParseEncodedRequest | src/protocol/parser.rs:12-28 | an encoded request is read as the list of its items as strings |
| Parser.ParseEncodedBulk | src/protocol/parser.rs:12-36 | a bulk string on its own is read as a bare string |
| Executors.Execute | src/protocol/executor.rs:12-16 | no command means no answer and no change; otherwise the command's answer and effect |
| Executors.ServeUnparsed | src/protocol/executor.rs:14 | a request that does not parse is not answered and changes nothing |
| Executors.ServeOnlySetChanges | src/protocol/executor.rs:12-16 | only a request that parses as `SET` changes the value map |
| Executors.EchoRequest | src/protocol/executor.rs:28 | the request of `test_echo` parses as `ECHO banana` |
| Executors.PingRequest | src/protocol/executor.rs:37 | the request of `test_ping` parses as `PING` |
| Executors.SetRequest | src/protocol/executor.rs:46 | the first request of `test_set_and_get` parses as `SET foo bar` |
| Executors.GetRequest | src/protocol/executor.rs:50 | the second request of `test_set_and_get` parses as `GET foo` |
| Executors.TestEcho | src/protocol/executor.rs:26-32 | the test: the answer is `$6\r\nbanana\r\n` |
| Executors.TestPing | src/protocol/executor.rs:35-41 | the test: the answer is `+PONG\r\n` |
| Executors.SetFooBar | src/protocol/executor.rs:46-48 | `SET foo bar` answers `+OK\r\n` and stores `bar` under `foo` |
| Executors.GetFoo | src/protocol/executor.rs:50-52 | with `bar` under `foo`, `GET foo` answers `$3\r\nbar\r\n` and leaves both maps unchanged |
| Executors.TestSetAndGet | src/protocol/executor.rs:44-53 | the test: `+OK\r\n`, then `$3\r\nbar\r\n` |

## Left out

- src/main.rs is not part of this model: the TCP listener, threads and socket I/O.
- The `Arc<RwLock<…>>` around the value map: locking and sharing between threads are not modelled, and the map is a plain field.
- `Value::Float(f32)`: floating point is not modelled.
- UTF-8 validation: strings are byte sequences. So the bulk decoder's `String::from_utf8(…).ok()?` and the simple-string decoder's `unwrap` (a panic on invalid UTF-8) are not modelled. The length and count fields need no such check, because only ASCII digits parse.
- Parser.Lowercase: `to_lowercase` is modelled as ASCII folding. For the four names compared this gives the same matches as `to_lowercase`. Outside ASCII, only the Kelvin sign lowercases to an ASCII letter (`k`, which is in none of the names), and the dotted capital I lowercases to `i` plus a combining dot, which cannot match.
- `end_at` is a Rust `i32`, and `value_index` goes through `i32` and back. The model uses unbounded naturals, so wrap-around for inputs of 2^31 bytes or more is not modelled.
- `SetCommand.args` and expiry: the source always leaves `args` empty, and `GET` never reads the expiry map. Both are modelled that way, so no expiry semantics (PX, EX) is modelled.
- Parser.ToValue and Parser.IdentifierParse: the repository does not define `Identifier::parse`. These members are the bridge stated in the introduction, and not a model of source code.
- Parser.Parse: its own contract states only the empty-input and decoded-frame facts. What it makes of a request is stated by Parser.ParseEncodedRequest and Parser.ParseEncodedBulk.
- Strategy.SimpleStringApply: its contract gives bounds only. The full behaviour is Strategy.SimpleStringSpec when the input has a CR LF, and Strategy.NoCrlfFails when it has none.
- Strategy.BulkStringApply: likewise; the full behaviour is Strategy.BulkStringSpec when the input has a CR LF, and Strategy.NoCrlfFails when it has none.
- Panics are modelled as failures (`None`), so a panicking input and a rejected input are not told apart.
- `ECHO` with more than one argument echoes the first and ignores the rest, as the source does.
- Requests are encoded for the round-trip lemmas only as arrays of bulk strings. Arrays holding simple strings or nested arrays decode by the same definitions, but no encoder for them is modelled.

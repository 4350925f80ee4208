/**
 * src/protocol/strategy.rs and the dispatch of src/protocol/identifier.rs:
 * the three frame decoders and the `Resp` record they produce
 * (src/protocol/resp.rs). They form one recursive unit, because the array
 * decoder dispatches every element back through `Identifier::apply`.
 *
 * Where the source would panic on an out-of-range index or slice, the model
 * returns None; each such place is marked "panics in the source".
 */
module Strategy {
  import opened Wrappers
  import opened Constants
  import opened Decimal
  import Identifiers

  /** The `Resp` record; `endAt` is the source's `end_at`. */
  datatype Resp = Resp(
    identifier: Identifiers.Identifier,
    raw: Bytes,
    data: Bytes,
    values: seq<Resp>,
    endAt: nat)

  /** What the decoders can produce: one of the three decoded kinds, nested only under an array. */
  predicate WellFormed(r: Resp)
  {
    match r.identifier
    case SimpleString => r.values == []
    case BulkString => r.values == []
    case Arrays => forall i :: 0 <= i < |r.values| ==> WellFormed(r.values[i])
    case _ => false
  }

  /**
   * `SimpleStringStrategy::apply`: the content is whatever lies between the
   * first and the second CR LF. `endAt` counts from the content start, not
   * from the start of `value`.
   */
  function SimpleStringApply(value: Bytes): (r: Option<Resp>)
    ensures |value| == 0 ==> r.None?
    ensures r.Some? ==> r.value.identifier == Identifiers.SimpleString && r.value.raw == value
    ensures r.Some? ==> 2 <= r.value.endAt <= |value|
  {
    if |value| == 0 then None
    else match Find(value)
      case None => None
      case Some(index) =>
        var start := index + |CRLF|;
        match Find(value[start..])
        case None => None
        case Some(next) =>
          Some(Resp(Identifiers.SimpleString, value, value[start..start + next], [], next + |CRLF|))
  }

  /**
   * `BulkStringStrategy::apply`: a decimal length between the tag and the
   * first CR LF, then that many bytes. All it asks of what follows the
   * header is that SOME CR LF occurs there, not that one ends the payload.
   */
  function BulkStringApply(value: Bytes): (r: Option<Resp>)
    ensures |value| == 0 ==> r.None?
    ensures r.Some? ==> r.value.identifier == Identifiers.BulkString
    ensures r.Some? ==> 2 <= r.value.endAt <= |value| && r.value.raw == value[..r.value.endAt]
  {
    if |value| == 0 then None
    else match Find(value)
      case None => None
      case Some(lengthEnd) =>
        // `value[1..0]` panics in the source when the first CR LF is at 0
        if lengthEnd < 1 then None
        else match ParseUsize(value[1..lengthEnd])
          case None => None
          case Some(length) =>
            var start := lengthEnd + |CRLF|;
            if Find(value[start..]).None? then None
            // the payload slice panics in the source when it runs past the end
            else if start + length > |value| then None
            else
              var endIndex := start + length + |CRLF|;
              // `value[..end_index]` panics in the source when it runs past the end
              if endIndex > |value| then None
              else Some(Resp(Identifiers.BulkString, value[..endIndex], value[start..start + length], [], endIndex))
  }

  /**
   * `Identifier::apply`: the three frame kinds that have a strategy decode,
   * every other tag fails.
   */
  function IdentifierApply(id: Identifiers.Identifier, value: Bytes): (r: Option<Resp>)
    ensures r.Some? ==> id in {Identifiers.SimpleString, Identifiers.BulkString, Identifiers.Arrays}
    ensures r.Some? ==> r.value.identifier == id && r.value.endAt <= |value|
    decreases |value|, 2, 0
  {
    match id
    case SimpleString => SimpleStringApply(value)
    case BulkString => BulkStringApply(value)
    case Arrays => ArrayApply(value)
    case _ => None
  }

  /**
   * The recursive meaning of the loop in `ArrayStrategy::apply`: decode
   * `remaining` elements from `cursor` on, each at the cursor the previous
   * one left; the result pairs the elements with the final cursor.
   */
  function Elements(value: Bytes, cursor: nat, remaining: nat): (r: Option<(seq<Resp>, nat)>)
    requires 1 <= cursor <= |value|
    ensures r.Some? ==> cursor <= r.value.1 <= |value| && |r.value.0| == remaining
    decreases |value|, 0, remaining
  {
    if remaining == 0 then Some(([], cursor))
    // `value[value_index]` panics in the source past the end
    else if cursor >= |value| then None
    else match Element(value, cursor)
      case None => None
      case Some(element) =>
        match Elements(value, cursor + element.endAt, remaining - 1)
        case None => None
        case Some((rest, last)) => Some(([element] + rest, last))
  }

  /** One element of an array: the frame at `cursor`, dispatched on its tag. */
  function Element(value: Bytes, cursor: nat): (r: Option<Resp>)
    requires 1 <= cursor < |value|
    ensures r.Some? ==> cursor + r.value.endAt <= |value|
    decreases |value|, 0, 0
  {
    IdentifierApply(Identifiers.From(value[cursor] as char), value[cursor..])
  }

  /**
   * `ArrayStrategy::apply` as a function: a decimal count between the tag
   * and the first CR LF, then that many frames decoded one after another.
   */
  function ArrayApply(value: Bytes): (r: Option<Resp>)
    ensures |value| == 0 ==> r.None?
    ensures r.Some? ==> r.value.identifier == Identifiers.Arrays && r.value.raw == value
    ensures r.Some? ==> r.value.endAt <= |value|
    decreases |value|, 1, 0
  {
    if |value| == 0 then None
    else match Find(value)
      case None => None
      case Some(lengthEnd) =>
        // `value[1..0]` panics in the source when the first CR LF is at 0
        if lengthEnd < 1 then None
        else match ParseUsize(value[1..lengthEnd])
          case None => None
          case Some(count) =>
            match Elements(value, lengthEnd + |CRLF|, count)
            case None => None
            case Some((values, cursor)) => Some(Resp(Identifiers.Arrays, value, [], values, cursor))
  }

  /**
   * `ArrayStrategy::apply` as the source writes it: the header, then a `for`
   * loop over the declared count that advances the cursor `value_index` by
   * each element's `end_at` and pushes the element.
   */
  method ArrayStrategyApply(value: Bytes) returns (r: Option<Resp>)
    ensures r == ArrayApply(value)
  {
    if |value| == 0 {
      return None;
    }
    var found := Find(value);
    if found.None? {
      return None;
    }
    var lengthEnd := found.value;
    if lengthEnd < 1 {
      // `value[1..0]` panics in the source
      return None;
    }
    var parsed := ParseUsize(value[1..lengthEnd]);
    if parsed.None? {
      return None;
    }
    var elements := DecodeElements(value, lengthEnd + |CRLF|, parsed.value);
    if elements.None? {
      return None;
    }
    return Some(Resp(Identifiers.Arrays, value, [], elements.value.0, elements.value.1));
  }

  /** Elements already pushed, in front of what a run of `Elements` decodes. */
  function Prepend(values: seq<Resp>, r: Option<(seq<Resp>, nat)>): Option<(seq<Resp>, nat)>
  {
    match r
    case None => None
    case Some((rest, last)) => Some((values + rest, last))
  }

  /** One turn of the loop: pushing the element at `cursor` and moving past it keeps the overall result. */
  lemma ElementsStep(value: Bytes, cursor: nat, remaining: nat, values: seq<Resp>, element: Resp,
                     nextCursor: nat, nextRemaining: nat, nextValues: seq<Resp>)
    requires 1 <= cursor < |value| && remaining == nextRemaining + 1
    requires Element(value, cursor) == Some(element)
    requires nextCursor == cursor + element.endAt && nextValues == values + [element]
    ensures 1 <= nextCursor <= |value|
    ensures Prepend(values, Elements(value, cursor, remaining)) == Prepend(nextValues, Elements(value, nextCursor, nextRemaining))
  {
    ElementsStepAt(value, cursor, remaining, values, element);
  }

  /** `ElementsStep` with the next cursor, count and pushed elements written out. */
  lemma ElementsStepAt(value: Bytes, cursor: nat, remaining: nat, values: seq<Resp>, element: Resp)
    requires 1 <= cursor < |value| && 0 < remaining
    requires Element(value, cursor) == Some(element)
    ensures 1 <= cursor + element.endAt <= |value|
    ensures Prepend(values, Elements(value, cursor, remaining))
      == Prepend(values + [element], Elements(value, cursor + element.endAt, remaining - 1))
  {
    var next := Elements(value, cursor + element.endAt, remaining - 1);
    if next.Some? {
      assert values + ([element] + next.value.0) == (values + [element]) + next.value.0;
    }
  }

  /** The `for` loop of `ArrayStrategy::apply`, from the cursor after the header. */
  method DecodeElements(value: Bytes, start: nat, count: nat) returns (r: Option<(seq<Resp>, nat)>)
    requires 1 <= start <= |value|
    ensures r == Elements(value, start, count)
  {
    var valueIndex := start;
    var values: seq<Resp> := [];
    ghost var all := Elements(value, start, count);
    ghost var remaining := count;
    if all.Some? {
      assert [] + all.value.0 == all.value.0;
    }
    for i := 0 to count
      invariant 1 <= valueIndex <= |value| && remaining == count - i
      invariant all == Prepend(values, Elements(value, valueIndex, remaining))
    {
      if valueIndex >= |value| {
        // `value[value_index]` panics in the source
        return None;
      }
      var element := Element(value, valueIndex);
      if element.None? {
        return None;
      }
      var next := valueIndex + element.value.endAt;
      ElementsStep(value, valueIndex, remaining, values, element.value, next, remaining - 1, values + [element.value]);
      remaining := remaining - 1;
      valueIndex := next;
      values := values + [element.value];
    }
    assert values + [] == values;
    return Some((values, valueIndex));
  }

  /** The bytes a run of decoded elements spans, by their `endAt`. */
  function SumEndAt(values: seq<Resp>): nat
  {
    if |values| == 0 then 0 else values[0].endAt + SumEndAt(values[1..])
  }

  /**
   * A simple string decodes exactly when a second CR LF follows the first;
   * the content is what lies between them.
   */
  lemma SimpleStringSpec(value: Bytes, h: nat, n: nat)
    requires FirstCrlfAt(value, h)
    ensures !HasCrlf(value[h + 2..]) ==> SimpleStringApply(value) == None
    ensures FirstCrlfAt(value[h + 2..], n) ==>
      SimpleStringApply(value) == Some(Resp(Identifiers.SimpleString, value, value[h + 2..h + 2 + n], [], n + 2))
  {
    FindIsFirst(value, h);
    FindSpec(value[h + 2..]);
    if FirstCrlfAt(value[h + 2..], n) {
      FindIsFirst(value[h + 2..], n);
    }
  }

  /**
   * A bulk string with a well-formed length field decodes exactly when some
   * CR LF follows the header and the payload plus two bytes fit in the
   * input; a bad length field, or a header CR LF at 0, fails.
   */
  lemma BulkStringSpec(value: Bytes, h: nat)
    requires FirstCrlfAt(value, h)
    ensures (h == 0 || ParseUsize(value[1..h]).None?) ==> BulkStringApply(value) == None
    ensures h >= 1 && ParseUsize(value[1..h]).Some? ==>
      var length := ParseUsize(value[1..h]).value;
      var endIndex := h + 2 + length + 2;
      && (BulkStringApply(value).Some? <==> HasCrlf(value[h + 2..]) && endIndex <= |value|)
      && (BulkStringApply(value).Some? ==>
            BulkStringApply(value).value
            == Resp(Identifiers.BulkString, value[..endIndex], value[h + 2..h + 2 + length], [], endIndex))
  {
    FindIsFirst(value, h);
    FindSpec(value[h + 2..]);
  }

  /** The success case of `BulkStringSpec`, as one step. */
  lemma BulkStringDecodes(value: Bytes, h: nat, length: nat, raw: Bytes, data: Bytes)
    requires FirstCrlfAt(value, h) && 1 <= h && ParseUsize(value[1..h]) == Some(length)
    requires HasCrlf(value[h + 2..]) && h + 4 + length <= |value|
    requires raw == value[..h + 4 + length] && data == value[h + 2..h + 2 + length]
    ensures BulkStringApply(value) == Some(Resp(Identifiers.BulkString, raw, data, [], h + 4 + length))
  {
    BulkStringSpec(value, h);
  }

  /** The first of the elements `Elements` decodes is the frame at the cursor. */
  lemma ElementsHead(value: Bytes, cursor: nat, remaining: nat, values: seq<Resp>, last: nat)
    requires 1 <= cursor <= |value| && 0 < remaining
    requires Elements(value, cursor, remaining) == Some((values, last))
    ensures cursor < |value| && 0 < |values|
    ensures Element(value, cursor) == Some(values[0])
    ensures 1 <= cursor + values[0].endAt <= |value|
    ensures Elements(value, cursor + values[0].endAt, remaining - 1) == Some((values[1..], last))
  {
  }

  /** The converse of `ElementsHead`: a frame at the cursor followed by a decoded run. */
  lemma ElementsCons(value: Bytes, cursor: nat, remaining: nat)
    requires 1 <= cursor < |value| && 0 < remaining
    ensures Element(value, cursor).Some? ==>
      var element := Element(value, cursor).value;
      var next := Elements(value, cursor + element.endAt, remaining - 1);
      next.Some? ==> Elements(value, cursor, remaining) == Some(([element] + next.value.0, next.value.1))
  {
  }

  /** `ElementsCons` with the element and the rest of the run named. */
  lemma ElementsConsAt(value: Bytes, cursor: nat, remaining: nat, element: Resp, rest: seq<Resp>, last: nat)
    requires 1 <= cursor < |value| && 0 < remaining
    requires Element(value, cursor) == Some(element)
    requires Elements(value, cursor + element.endAt, remaining - 1) == Some((rest, last))
    ensures Elements(value, cursor, remaining) == Some(([element] + rest, last))
  {
    ElementsCons(value, cursor, remaining);
  }

  /** The success path of `ArrayApply`: a well-formed count and a decoded run of that many frames. */
  lemma ArrayDecodes(value: Bytes, h: nat, count: nat)
    requires FirstCrlfAt(value, h) && 1 <= h && ParseUsize(value[1..h]) == Some(count) && h + 2 <= |value|
    ensures Elements(value, h + 2, count).Some? ==>
      ArrayApply(value)
      == Some(Resp(Identifiers.Arrays, value, [], Elements(value, h + 2, count).value.0, Elements(value, h + 2, count).value.1))
  {
    FindIsFirst(value, h);
  }

  /** `r` is the frame that decodes at `at`. */
  predicate DecodesAt(value: Bytes, at: nat, r: Resp)
  {
    1 <= at < |value| && Element(value, at) == Some(r)
  }

  /**
   * Decoding `values` one after another from `cursor` ends at `last`: the
   * first is the frame at `cursor`, the rest follow from where it ends.
   */
  predicate Sequential(value: Bytes, cursor: nat, values: seq<Resp>, last: nat)
    decreases |values|
  {
    if |values| == 0 then last == cursor
    else DecodesAt(value, cursor, values[0]) && Sequential(value, cursor + values[0].endAt, values[1..], last)
  }

  /** Element i of a sequential run is the frame at the cursor the earlier elements' `endAt` reach. */
  lemma {:induction false} SequentialAt(value: Bytes, cursor: nat, values: seq<Resp>, last: nat, i: nat)
    requires Sequential(value, cursor, values, last) && i < |values|
    ensures DecodesAt(value, cursor + SumEndAt(values[..i]), values[i])
    decreases i
  {
    if i == 0 {
      assert values[..i] == [];
    } else {
      SequentialAt(value, cursor + values[0].endAt, values[1..], last, i - 1);
      assert values[..i][1..] == values[1..][..i - 1];
    }
  }

  /** A sequential run ends at its cursor plus the sum of its elements' `endAt`. */
  lemma {:induction false} SequentialEnd(value: Bytes, cursor: nat, values: seq<Resp>, last: nat)
    requires Sequential(value, cursor, values, last)
    ensures last == cursor + SumEndAt(values)
    decreases |values|
  {
    if |values| > 0 {
      SequentialEnd(value, cursor + values[0].endAt, values[1..], last);
    }
  }

  /** The layout of a sequential run, element by element. */
  lemma SequentialLayout(value: Bytes, cursor: nat, values: seq<Resp>, last: nat)
    requires Sequential(value, cursor, values, last)
    ensures last == cursor + SumEndAt(values)
    ensures forall i :: 0 <= i < |values| ==> DecodesAt(value, cursor + SumEndAt(values[..i]), values[i])
  {
    SequentialEnd(value, cursor, values, last);
    forall i | 0 <= i < |values|
      ensures DecodesAt(value, cursor + SumEndAt(values[..i]), values[i])
    {
      SequentialAt(value, cursor, values, last, i);
    }
  }

  /** What `Elements` decodes is a sequential run. */
  lemma {:induction false} ElementsSequential(value: Bytes, cursor: nat, remaining: nat)
    requires 1 <= cursor <= |value|
    ensures Elements(value, cursor, remaining).Some? ==>
      Sequential(value, cursor, Elements(value, cursor, remaining).value.0, Elements(value, cursor, remaining).value.1)
    decreases remaining
  {
    var e := Elements(value, cursor, remaining);
    if e.Some? && remaining > 0 {
      var (values, last) := e.value;
      ElementsHead(value, cursor, remaining, values, last);
      ElementsSequential(value, cursor + values[0].endAt, remaining - 1);
    }
  }

  /** The converse of `ElementsSequential`: a sequential run is what `Elements` decodes. */
  lemma {:induction false} SequentialElements(value: Bytes, cursor: nat, values: seq<Resp>, last: nat)
    requires 1 <= cursor <= |value| && Sequential(value, cursor, values, last)
    ensures Elements(value, cursor, |values|) == Some((values, last))
    decreases |values|
  {
    if |values| > 0 {
      SequentialElements(value, cursor + values[0].endAt, values[1..], last);
      ElementsConsAt(value, cursor, |values|, values[0], values[1..], last);
      assert [values[0]] + values[1..] == values;
    }
  }

  /** A decoded array's elements are the sequential run after its header. */
  lemma ArrayIsSequential(value: Bytes, h: nat, r: Resp)
    requires FirstCrlfAt(value, h)
    requires ArrayApply(value) == Some(r)
    ensures 1 <= h && ParseUsize(value[1..h]) == Some(|r.values|)
    ensures r.raw == value && r.data == [] && h + 2 <= |value|
    ensures Sequential(value, h + 2, r.values, r.endAt)
  {
    FindIsFirst(value, h);
    ElementsSequential(value, h + 2, |r.values|);
  }

  /** Without any CR LF, none of the three decoders accepts the input. */
  lemma NoCrlfFails(value: Bytes)
    requires !HasCrlf(value)
    ensures SimpleStringApply(value) == None
    ensures BulkStringApply(value) == None
    ensures ArrayApply(value) == None
  {
  }

  /** A declared count of 0 gives no elements and stops right after the header. */
  lemma EmptyArray(value: Bytes, h: nat)
    requires FirstCrlfAt(value, h) && 1 <= h && ParseUsize(value[1..h]) == Some(0)
    ensures ArrayApply(value) == Some(Resp(Identifiers.Arrays, value, [], [], h + 2))
  {
    FindIsFirst(value, h);
  }

  /** Every frame a decoder produces is `WellFormed`: arrays nest only decoded frames. */
  lemma {:induction false} FrameWellFormed(id: Identifiers.Identifier, value: Bytes)
    ensures IdentifierApply(id, value).Some? ==> WellFormed(IdentifierApply(id, value).value)
    decreases |value|, 1, 0
  {
    var r := IdentifierApply(id, value);
    if r.Some? && id == Identifiers.Arrays {
      assert ArrayApply(value) == r;
      assert Find(value).Some?;
      var h := Find(value).value;
      FindSpec(value);
      ArrayIsSequential(value, h, r.value);
      SequentialWellFormed(value, h + 2, r.value.values, r.value.endAt);
    }
  }

  /** The frames of a sequential run are `WellFormed`. */
  lemma {:induction false} SequentialWellFormed(value: Bytes, cursor: nat, values: seq<Resp>, last: nat)
    requires 1 <= cursor && Sequential(value, cursor, values, last)
    ensures forall i :: 0 <= i < |values| ==> WellFormed(values[i])
    decreases |value|, 0, |values|
  {
    if |values| > 0 {
      FrameWellFormed(Identifiers.From(value[cursor] as char), value[cursor..]);
      SequentialWellFormed(value, cursor + values[0].endAt, values[1..], last);
      forall i | 0 <= i < |values|
        ensures WellFormed(values[i])
      {
        if i > 0 {
          assert values[i] == values[1..][i - 1];
        }
      }
    }
  }

  /** The tests of `simple_strategy`: inputs without a second CR LF, or without a first one, fail. */
  lemma SimpleStrategyRejects()
    ensures SimpleStringApply(FromString("+\r\nhello\r")) == None
    ensures SimpleStringApply(FromString("+\nhello\r")) == None
    ensures SimpleStringApply(FromString("+\nhello\r\n")) == None
  {
    var a := FromString("+\r\nhello\r");
    FindIsFirst(a, 1);
    FindNone(a[3..]);
    FindNone(FromString("+\nhello\r"));
    var c := FromString("+\nhello\r\n");
    FindIsFirst(c, 7);
    FindNone(c[9..]);
  }

  /**
   * The test of `simple_strategy`: `+\r\nhello\r\n` decodes to `hello`, with
   * `endAt` counted from the content start.
   */
  lemma SimpleStrategyHello(input: Bytes, hello: Bytes)
    requires input == FromString("+\r\nhello\r\n") && hello == FromString("hello")
    ensures SimpleStringApply(input) == Some(Resp(Identifiers.SimpleString, input, hello, [], 7))
  {
    SimpleStringSpec(input, 1, 5);
    assert input[3..8] == hello;
  }

  /** Standard `+OK\r\n` does not decode: the decoder wants a second CR LF after the content. */
  lemma SimpleStringNeedsTwoTerminators()
    ensures SimpleStringApply(FromString("+OK\r\n")) == None
  {
    var v := FromString("+OK\r\n");
    SimpleStringSpec(v, 3, 0);
    FindNone(v[5..]);
  }

  /**
   * The bulk decoder does not check where the payload's terminator is:
   * `$1\r\nab\r\n` decodes to `a`, and its `raw` and `endAt` end between the CR and the LF.
   */
  lemma BulkTerminatorUnchecked()
    ensures BulkStringApply(FromString("$1\r\nab\r\n"))
      == Some(Resp(Identifiers.BulkString, FromString("$1\r\nab\r"), FromString("a"), [], 7))
  {
    var v := FromString("$1\r\nab\r\n");
    FindIsFirst(v, 2);
    ParseFormat(1);
    assert v[1..2] == Format(1);
    assert CrlfAt(v[4..], 2);
    assert v[..7] == FromString("$1\r\nab\r");
    assert v[4..5] == FromString("a");
    BulkStringDecodes(v, 2, 1, FromString("$1\r\nab\r"), FromString("a"));
  }

  /** The array decoder reads past the end when the declared elements are missing (a panic in the source). */
  lemma ArrayMissingElement()
    ensures ArrayApply(FromString("*1\r\n")) == None
  {
    var v := FromString("*1\r\n");
    FindIsFirst(v, 2);
    ParseFormat(1);
    assert v[1..2] == Format(1);
  }
}

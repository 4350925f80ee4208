/**
 * src/protocol/identifier.rs: the one-character type tag that opens a RESP
 * frame. The strategy each tag carries in the source is a unit struct, so the
 * variants here carry nothing; the dispatch `Identifier::apply` is
 * `Strategy.IdentifierApply`, which has to live beside the strategies because
 * the array strategy calls back into it.
 */
module Identifiers {

  datatype Identifier = SimpleString | SimpleError | BulkString | Arrays | Integer | None

  /** `Identifier::from(char)`. */
  function From(c: char): (r: Identifier)
    ensures r == SimpleString <==> c == '+'
    ensures r == SimpleError <==> c == '-'
    ensures r == Integer <==> c == ':'
    ensures r == BulkString <==> c == '$'
    ensures r == Arrays <==> c == '*'
    ensures r == None <==> c !in {'+', '-', ':', '$', '*'}
  {
    match c
    case '+' => SimpleString
    case '-' => SimpleError
    case ':' => Integer
    case '$' => BulkString
    case '*' => Arrays
    case _ => None
  }

  /** The test in src/protocol/resp.rs: byte 36 is the bulk-string tag. */
  lemma TagOfByte36()
    ensures From(36 as char) == BulkString
  {
  }
}

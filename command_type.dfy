/**
 * src/protocol/command_type.rs: the closed set of commands and the dispatch
 * of `execute` to each command's own `execute`.
 */
module CommandTypes {
  import opened Wrappers
  import opened Constants
  import opened Values
  import opened Stores
  import opened Commands

  datatype CommandType =
    | Ping(pingCommand: PingCommand)
    | Echo(echoCommand: EchoCommand)
    | Set(setCommand: SetCommand)
    | Get(getCommand: GetCommand)

  /** The answer of a command run against a store whose value map is `m`. */
  function Reply(c: CommandType, m: map<Bytes, Value>): Option<Bytes>
  {
    match c
    case Ping(p) => PingExecute(p)
    case Echo(e) => EchoExecute(e)
    case Set(_) => Some(OK)
    case Get(g) => if g.key in m then Some(ToResponseString(m[g.key])) else Some(NIL)
  }

  /** The value map after a command has run against `m`. */
  function After(c: CommandType, m: map<Bytes, Value>): map<Bytes, Value>
  {
    if c.Set? then m[c.setCommand.key := c.setCommand.value] else m
  }

  /**
   * `CommandType::execute`: forward to the command. The expiry map is never
   * touched, and only `Set` changes the value map.
   */
  method Execute(c: CommandType, store: Store) returns (r: Option<Bytes>)
    modifies store
    ensures r == Reply(c, old(store.valueMap))
    ensures store.valueMap == After(c, old(store.valueMap))
    ensures store.expiryMap == old(store.expiryMap)
  {
    match c {
      case Ping(p) => r := PingExecute(p);
      case Echo(e) => r := EchoExecute(e);
      case Set(s) => r := SetExecute(s, store);
      case Get(g) => r := GetExecute(g, store);
    }
  }

  /** Every command but `Set` leaves the value map as it was; `Set` writes its key. */
  lemma OnlySetMutates(c: CommandType, m: map<Bytes, Value>)
    ensures After(c, m) != m ==> c.Set?
    ensures c.Set? ==> c.setCommand.key in After(c, m) && After(c, m)[c.setCommand.key] == c.setCommand.value
    ensures forall k :: k in m && !(c.Set? && k == c.setCommand.key) ==> k in After(c, m) && After(c, m)[k] == m[k]
  {
  }

  /** Every command answers, except `Echo` of something that is not a string. */
  lemma ReplyDefined(c: CommandType, m: map<Bytes, Value>)
    ensures Reply(c, m).None? <==> c.Echo? && !c.echoCommand.value.String?
  {
  }

  /** A `Get` after a `Set` of the same key answers with the encoding of the value set. */
  lemma SetThenGet(key: Bytes, value: Value, m: map<Bytes, Value>)
    ensures Reply(Get(GetCommand(key)), After(Set(SetCommand(key, value, None)), m))
      == Some(ToResponseString(value))
  {
  }

  /** A `Get` of a key that was never set answers `$-1\r\n`. */
  lemma GetMissing(key: Bytes, m: map<Bytes, Value>)
    requires key !in m
    ensures Reply(Get(GetCommand(key)), m) == Some(NIL)
  {
  }
}

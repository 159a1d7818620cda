/** What one endpoint tells the other, and how it becomes a payload. */
module Instructions {
  import opened Options

  const PROTOCOL_VERSION := 2

  /** The state number meaning "shutting down", and the largest a number can be. */
  const SHUTDOWN_NUM: nat := 0xFFFF_FFFF_FFFF_FFFF

  datatype Instruction = Instruction(
    protocolVersion: nat, oldNum: nat, newNum: nat, ackNum: nat, throwawayNum: nat,
    diff: seq<Byte>, chaff: seq<Byte>)

  /** Serialisation and compression together, in both directions; decoding may refuse. */
  datatype Codec = Codec(encode: Instruction -> seq<Byte>, decode: seq<Byte> -> Option<Instruction>)
  {
    /** Decoding an encoded instruction gives that instruction or refuses it as too large. */
    ghost predicate Faithful() {
      forall i: Instruction :: decode(encode(i)) == Some(i) || decode(encode(i)) == None
    }
  }
}

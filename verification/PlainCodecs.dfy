/** A codec as simple as can be, to show that what is asked of one can be had. */
module PlainCodecs {
  import opened Options
  import opened Instructions

  function WriteNumber(n: nat): seq<Byte> {
    if n == 0 then [1] else [0] + WriteNumber(n - 1)
  }

  function ReadNumber(s: seq<Byte>): Option<(nat, seq<Byte>)> {
    if s == [] then None
    else if s[0] == 1 then Some((0, s[1..]))
    else if s[0] != 0 then None
    else
      var r := ReadNumber(s[1..]);
      if r.None? then None else Some((r.value.0 + 1, r.value.1))
  }

  function WriteBytes(b: seq<Byte>): seq<Byte> {
    WriteNumber(|b|) + b
  }

  function ReadBytes(s: seq<Byte>): Option<(seq<Byte>, seq<Byte>)> {
    var n := ReadNumber(s);
    if n.None? || n.value.0 > |n.value.1| then None
    else Some((n.value.1[..n.value.0], n.value.1[n.value.0..]))
  }

  function Encode(i: Instruction): seq<Byte> {
    WriteNumber(i.protocolVersion) + (WriteNumber(i.oldNum) + (WriteNumber(i.newNum) + (WriteNumber(i.ackNum) +
      (WriteNumber(i.throwawayNum) + (WriteBytes(i.diff) + (WriteBytes(i.chaff) + []))))))
  }

  function Decode(s: seq<Byte>): Option<Instruction> {
    var version := ReadNumber(s);
    if version.None? then None else
    var old_ := ReadNumber(version.value.1);
    if old_.None? then None else
    var new_ := ReadNumber(old_.value.1);
    if new_.None? then None else
    var ack := ReadNumber(new_.value.1);
    if ack.None? then None else
    var throwaway := ReadNumber(ack.value.1);
    if throwaway.None? then None else
    var diff := ReadBytes(throwaway.value.1);
    if diff.None? then None else
    var chaff := ReadBytes(diff.value.1);
    if chaff.None? || chaff.value.1 != [] then None
    else Some(Instruction(version.value.0, old_.value.0, new_.value.0, ack.value.0, throwaway.value.0, diff.value.0,
      chaff.value.0))
  }

  lemma {:induction false} NumberRoundTrip(n: nat, rest: seq<Byte>)
    ensures ReadNumber(WriteNumber(n) + rest) == Some((n, rest))
  {
    var s := WriteNumber(n) + rest;
    if n == 0 {
      assert s[1..] == rest;
    } else {
      assert s[1..] == WriteNumber(n - 1) + rest;
      NumberRoundTrip(n - 1, rest);
    }
  }

  lemma BytesRoundTrip(b: seq<Byte>, rest: seq<Byte>)
    ensures ReadBytes(WriteBytes(b) + rest) == Some((b, rest))
  {
    assert WriteBytes(b) + rest == WriteNumber(|b|) + (b + rest);
    NumberRoundTrip(|b|, b + rest);
    assert (b + rest)[..|b|] == b && (b + rest)[|b|..] == rest;
  }

  const PLAIN := Codec(i => Encode(i), s => Decode(s))

  /** There is a faithful codec, and one that never refuses. */
  lemma PlainIsFaithful()
    ensures PLAIN.Faithful()
    ensures forall i: Instruction :: PLAIN.decode(PLAIN.encode(i)) == Some(i)
  {
    forall i: Instruction
      ensures Decode(Encode(i)) == Some(i)
    {
      InstructionRoundTrip(i);
    }
  }

  lemma InstructionRoundTrip(i: Instruction)
    ensures Decode(Encode(i)) == Some(i)
  {
    hide ReadNumber, WriteNumber, ReadBytes, WriteBytes;
    var tail: seq<Byte> := [];
    BytesRoundTrip(i.chaff, tail);
    var chaff := WriteBytes(i.chaff) + tail;
    BytesRoundTrip(i.diff, chaff);
    var diff := WriteBytes(i.diff) + chaff;
    NumberRoundTrip(i.throwawayNum, diff);
    var throwaway := WriteNumber(i.throwawayNum) + diff;
    NumberRoundTrip(i.ackNum, throwaway);
    var ack := WriteNumber(i.ackNum) + throwaway;
    NumberRoundTrip(i.newNum, ack);
    var new_ := WriteNumber(i.newNum) + ack;
    NumberRoundTrip(i.oldNum, new_);
    NumberRoundTrip(i.protocolVersion, WriteNumber(i.oldNum) + new_);
  }
}

/** Datagrams, the numbers they are sealed under, and why no number serves twice. */
module Nonces {
  import opened Options
  import opened BigEndian

  const U64 := 0x1_0000_0000_0000_0000
  const DIRECTION_BIT := 0x8000_0000_0000_0000

  /** A session stops once this many blocks have been sealed under its key at one end. */
  const BLOCK_LIMIT := 0x8000_0000_0000

  datatype Direction = ToServer | ToClient

  datatype Packet = Packet(number: nat, direction: Direction, timestamp: nat, timestampReply: nat, payload: seq<Byte>)

  /** The plaintext and the 64 bits of its nonce that travel. */
  datatype Message = Message(nonce: nat, text: seq<Byte>)

  datatype Error = TooShort | BadNonceLength | CounterWrapped | BlockLimitReached

  datatype Result<+T> = Ok(value: T) | Err(error: Error)

  predicate WellFormed(p: Packet) {
    p.number < U64 && p.timestamp < 0x1_0000 && p.timestampReply < 0x1_0000
  }

  /** The direction in the top bit, the sequence number in the rest. */
  function NonceOf(direction: Direction, n: nat): (r: nat)
    ensures r < U64
  {
    (if direction == ToClient then DIRECTION_BIT else 0) + n % DIRECTION_BIT
  }

  function ToMessage(p: Packet): Message
    requires WellFormed(p)
  {
    Message(NonceOf(p.direction, p.number), Write(p.timestamp, 2) + Write(p.timestampReply, 2) + p.payload)
  }

  function FromMessage(m: Message): Result<Packet>
    requires m.nonce < U64
  {
    if |m.text| < 4 then Err(TooShort)
    else Ok(Packet(m.nonce % DIRECTION_BIT, if m.nonce >= DIRECTION_BIT then ToClient else ToServer,
                   Read(m.text[..2]), Read(m.text[2..4]), m.text[4..]))
  }

  lemma TwoBytes()
    ensures Pow256(2) == 0x1_0000
  {
    assert Pow256(1) == 0x100 * Pow256(0);
  }

  /** A packet comes back as it was sent exactly when its sequence number leaves the direction bit alone. */
  lemma PacketRoundTrip(p: Packet)
    requires WellFormed(p)
    ensures FromMessage(ToMessage(p)).Ok?
    ensures FromMessage(ToMessage(p)).value == p.(number := p.number % DIRECTION_BIT)
    ensures FromMessage(ToMessage(p)) == Ok(p) <==> p.number < DIRECTION_BIT
  {
    hide Write, Read, Pow256;
    var text := ToMessage(p).text;
    TwoBytes();
    ReadWrite(p.timestamp, 2);
    ReadWrite(p.timestampReply, 2);
    assert text[..2] == Write(p.timestamp, 2) && text[2..4] == Write(p.timestampReply, 2) && text[4..] == p.payload;
  }

  /** And every message long enough to hold timestamps is the form of just the packet read from it. */
  lemma MessageRoundTrip(m: Message)
    requires m.nonce < U64 && |m.text| >= 4
    ensures FromMessage(m).Ok? && WellFormed(FromMessage(m).value) && ToMessage(FromMessage(m).value) == m
  {
    hide Write, Read, Pow256;
    TwoBytes();
    WriteRead(m.text[..2]);
    WriteRead(m.text[2..4]);
    assert m.text == m.text[..2] + m.text[2..4] + m.text[4..];
  }

  // ---------- the nonce's bytes ----------

  /** The cipher takes twelve bytes: four that are zero, then the eight that travel. */
  function NonceBytes(n: nat): (b: seq<Byte>)
    ensures |b| == 12
  {
    [0, 0, 0, 0] + Write(n, 8)
  }

  function FromWire(wire: seq<Byte>): Result<seq<Byte>> {
    if |wire| != 8 then Err(BadNonceLength) else Ok([0, 0, 0, 0] + wire)
  }

  lemma EightBytes()
    ensures Pow256(8) == U64
  {
    assert Pow256(4) == 0x1_0000_0000;
    assert Pow256(8) == 0x100 * (0x100 * (0x100 * (0x100 * Pow256(4))));
  }

  /** The bytes that travel rebuild the nonce, and its number. */
  lemma NonceTravels(n: nat)
    requires n < U64
    ensures FromWire(NonceBytes(n)[4..]) == Ok(NonceBytes(n)) && Read(NonceBytes(n)[4..]) == n
  {
    hide Write, Read, Pow256;
    EightBytes();
    ReadWrite(n, 8);
    assert NonceBytes(n)[4..] == Write(n, 8);
  }

  /** Just the runs of eight bytes are taken, and each makes the nonce of the number it is the writing of. */
  lemma WireNamesNonce(wire: seq<Byte>)
    ensures FromWire(wire).Ok? <==> |wire| == 8
    ensures |wire| == 8 ==> FromWire(wire) == Ok(NonceBytes(Read(wire)))
  {
    hide Read, Write;
    WriteRead(wire);
  }

  // ---------- one end of a session ----------

  function Blocks(length: nat): nat {
    length / 16 + if length % 16 != 0 then 1 else 0
  }

  /** The sending half of a connection: the counter of sequence numbers and the count of blocks sealed. */
  class Sealer {
    const direction: Direction
    var counter: nat
    var blocksEncrypted: nat

    /** The nonces of the datagrams that left. */
    ghost var sent: seq<nat>

    /**
     * Until the block limit every number drawn has left under its own nonce, at the cost of a block at least;
     * from there on nothing more leaves, whatever becomes of the counter.
     */
    ghost predicate Valid()
      reads this
    {
      && counter < U64
      && (blocksEncrypted < BLOCK_LIMIT ==> counter == |sent| <= blocksEncrypted)
      && |sent| <= BLOCK_LIMIT
      && (forall i | 0 <= i < |sent| :: sent[i] == NonceOf(direction, i))
    }

    constructor (direction: Direction)
      ensures Valid() && this.direction == direction && sent == []
    {
      this.direction := direction;
      counter, blocksEncrypted := 0, 0;
      sent := [];
    }

    /** The next number, unless the 64 bits are used up. */
    method NextValue() returns (r: Result<nat>)
      requires counter < U64
      modifies this`counter
      ensures counter == (old(counter) + 1) % U64
      ensures r == if old(counter) + 1 == U64 then Err(CounterWrapped) else Ok(old(counter))
    {
      var rv := counter;
      counter := if counter + 1 == U64 then 0 else counter + 1;
      if counter == 0 { return Err(CounterWrapped); }
      return Ok(rv);
    }

    /** Seal a message; the blocks are counted even when the count then forbids sending it. */
    method Encrypt(m: Message) returns (r: Result<Message>)
      modifies this`blocksEncrypted
      ensures blocksEncrypted == old(blocksEncrypted) + Blocks(|m.text|)
      ensures r == if blocksEncrypted >= BLOCK_LIMIT then Err(BlockLimitReached) else Ok(m)
    {
      blocksEncrypted := blocksEncrypted + |m.text| / 16;
      if |m.text| % 16 != 0 {
        blocksEncrypted := blocksEncrypted + 1;
      }
      if blocksEncrypted / BLOCK_LIMIT != 0 { return Err(BlockLimitReached); }
      return Ok(m);
    }

    /**
     * Number, mark and seal a payload. Numbers are drawn one after another and only datagrams sealed before
     * the block limit leave, so those that do are numbered 0, 1, 2, ... below 2^47. While there is no one to
     * send to nothing leaves, and no number is drawn.
     */
    method Send(payload: seq<Byte>, timestamp: nat, reply: nat, hasRemote: bool) returns (r: Result<Option<Message>>)
      requires Valid() && timestamp < 0x1_0000 && reply < 0x1_0000
      modifies this
      ensures Valid()
      ensures !hasRemote ==>
        r == Ok(None) && sent == old(sent) && counter == old(counter) && blocksEncrypted == old(blocksEncrypted)
      ensures hasRemote && r.Ok? ==>
        && r.value.Some? && blocksEncrypted < BLOCK_LIMIT && sent == old(sent) + [r.value.value.nonce]
        && r.value.value.nonce < U64
        && FromMessage(r.value.value) == Ok(Packet(old(counter), direction, timestamp, reply, payload))
      ensures r.Err? ==> blocksEncrypted >= BLOCK_LIMIT && sent == old(sent)
      ensures hasRemote ==> (r.Ok? <==> old(blocksEncrypted) + Blocks(4 + |payload|) < BLOCK_LIMIT)
    {
      if !hasRemote { return Ok(None); }
      var n := NextValue();
      if n.Err? { return Err(n.error); }
      var packet := Packet(n.value, direction, timestamp, reply, payload);
      var m := ToMessage(packet);
      PacketRoundTrip(packet);
      var sealed := Encrypt(m);
      if sealed.Err? { return Err(sealed.error); }
      sent := sent + [m.nonce];
      return Ok(Some(sealed.value));
    }
  }

  /** A run of numbers from one end never gives a nonce twice while they stay below the direction bit. */
  lemma NoncesDistinct(d: Direction, i: nat, e: Direction, j: nat)
    requires i < DIRECTION_BIT && j < DIRECTION_BIT
    ensures NonceOf(d, i) == NonceOf(e, j) <==> d == e && i == j
  {
  }

  /**
   * The two ends seal under one key. Whatever each has sent, no nonce was ever used for two datagrams, at
   * one end or across both.
   */
  lemma NoNonceRepeats(client: Sealer, server: Sealer)
    requires client.Valid() && server.Valid() && client.direction == ToServer && server.direction == ToClient
    ensures forall i, j | 0 <= i < j < |client.sent| :: client.sent[i] != client.sent[j]
    ensures forall i, j | 0 <= i < j < |server.sent| :: server.sent[i] != server.sent[j]
    ensures forall i, j | 0 <= i < |client.sent| && 0 <= j < |server.sent| :: client.sent[i] != server.sent[j]
  {
    assert BLOCK_LIMIT < DIRECTION_BIT;
  }
}

/**
 * The wire form of a message: fields, each a key and a number or a run of bytes. Groups, which no message here has,
 * are refused.
 */
module Protobuf {
  import opened Options

  const TWO_TO_64 := 0x1_0000_0000_0000_0000
  const TWO_TO_32 := 0x1_0000_0000

  /** A field by its wire type; only numbers and chunks are ever written here. */
  datatype Field =
    | Number(tag: nat, value: nat)
    | Chunk(tag: nat, bytes: seq<Byte>)
    | Fixed64(tag: nat, bytes: seq<Byte>)
    | Fixed32(tag: nat, bytes: seq<Byte>)

  // ---------- numbers ----------

  function Varint(n: nat): (s: seq<Byte>)
    ensures s != []
  {
    if n < 0x80 then [n] else [0x80 + n % 0x80] + Varint(n / 0x80)
  }

  /** The number at the front, of at most `room` bytes, and what follows it. */
  function TakeDigits(s: seq<Byte>, room: nat): (r: Option<(nat, seq<Byte>)>)
    ensures r.Some? ==> |r.value.1| < |s|
  {
    if s == [] || room == 0 then None
    else if s[0] < 0x80 then Some((s[0] as nat, s[1..]))
    else
      match TakeDigits(s[1..], room - 1)
      case None => None
      case Some((n, rest)) => Some((s[0] - 0x80 + 0x80 * n, rest))
  }

  function TakeVarint(s: seq<Byte>): (r: Option<(nat, seq<Byte>)>)
    ensures r.Some? ==> |r.value.1| < |s|
  {
    var r := TakeDigits(s, 10);
    if r.Some? && r.value.0 < TWO_TO_64 then r else None
  }

  // ---------- fields ----------

  function Key(tag: nat, wireType: nat): seq<Byte> {
    Varint(8 * tag + wireType)
  }

  function Write(f: Field): (s: seq<Byte>)
    ensures s != []
  {
    match f
    case Number(tag, value) => Key(tag, 0) + Varint(value)
    case Fixed64(tag, bytes) => Key(tag, 1) + bytes
    case Chunk(tag, bytes) => Key(tag, 2) + Varint(|bytes|) + bytes
    case Fixed32(tag, bytes) => Key(tag, 5) + bytes
  }

  function WriteAll(fields: seq<Field>): seq<Byte> {
    if fields == [] then [] else Write(fields[0]) + WriteAll(fields[1..])
  }

  /** So many bytes off the front. */
  function Cut(s: seq<Byte>, n: nat): (r: Option<(seq<Byte>, seq<Byte>)>)
    ensures r.Some? ==> |r.value.1| <= |s|
  {
    if n > |s| then None else Some((s[..n], s[n..]))
  }

  function Take(s: seq<Byte>): (r: Option<(Field, seq<Byte>)>)
    ensures r.Some? ==> |r.value.1| < |s|
  {
    match TakeVarint(s)
    case None => None
    case Some((key, rest)) => if key >= TWO_TO_32 || key / 8 < 1 then None else TakeBody(key / 8, key % 8, rest)
  }

  function TakeBody(tag: nat, wireType: nat, s: seq<Byte>): (r: Option<(Field, seq<Byte>)>)
    ensures r.Some? ==> |r.value.1| <= |s|
  {
    match wireType
    case 0 =>
      (match TakeVarint(s)
       case None => None
       case Some((n, rest)) => Some((Number(tag, n), rest)))
    case 1 => (match Cut(s, 8) case None => None case Some((b, rest)) => Some((Fixed64(tag, b), rest)))
    case 2 =>
      (match TakeVarint(s)
       case None => None
       case Some((n, rest)) =>
         match Cut(rest, n) case None => None case Some((b, more)) => Some((Chunk(tag, b), more)))
    case 5 => (match Cut(s, 4) case None => None case Some((b, rest)) => Some((Fixed32(tag, b), rest)))
    case _ => None
  }

  function TakeAll(s: seq<Byte>): Option<seq<Field>>
    decreases |s|
  {
    if s == [] then Some([])
    else
      match Take(s)
      case None => None
      case Some((f, rest)) =>
        match TakeAll(rest) case None => None case Some(fields) => Some([f] + fields)
  }

  // ---------- laws ----------

  /** The largest number, and one more, that so many digits hold. */
  function Limit(room: nat): nat {
    if room == 0 then 1 else 0x80 * Limit(room - 1)
  }

  lemma {:induction false} TakeDigitsWritten(n: nat, room: nat, rest: seq<Byte>)
    requires room > 0 && n < Limit(room)
    ensures TakeDigits(Varint(n) + rest, room) == Some((n, rest))
    decreases room
  {
    var s := Varint(n) + rest;
    if n < 0x80 {
      assert s[1..] == rest;
    } else {
      assert Limit(1) == 0x80;
      TakeDigitsWritten(n / 0x80, room - 1, rest);
      assert s[1..] == Varint(n / 0x80) + rest;
    }
  }

  lemma TenDigits()
    ensures Limit(10) >= TWO_TO_64
  {
    assert Limit(3) == 0x20_0000;
    assert Limit(6) == 0x400_0000_0000;
    assert Limit(9) == 0x8000_0000_0000_0000;
  }

  lemma {:induction false} VarintLength(n: nat, room: nat)
    requires room > 0 && n < Limit(room)
    ensures |Varint(n)| <= room
    decreases room
  {
    if n >= 0x80 {
      assert Limit(1) == 0x80;
      VarintLength(n / 0x80, room - 1);
    }
  }

  lemma TakeVarintWritten(n: nat, rest: seq<Byte>)
    requires n < TWO_TO_64
    ensures TakeVarint(Varint(n) + rest) == Some((n, rest))
  {
    TenDigits();
    TakeDigitsWritten(n, 10, rest);
  }

  /** What the wire form has room for. */
  predicate Fits(f: Field) {
    && 1 <= f.tag < 0x2000_0000
    && match f
       case Number(_, n) => n < TWO_TO_64
       case Chunk(_, b) => |b| < TWO_TO_64
       case Fixed64(_, b) => |b| == 8
       case Fixed32(_, b) => |b| == 4
  }

  /** A key takes ten bytes at most, and so does a number. */
  lemma WriteLength(f: Field)
    requires Fits(f)
    ensures |Write(f)| <= 20 + if f.Number? then 0 else |f.bytes|
  {
    TenDigits();
    VarintLength(8 * f.tag + 5, 10);
    VarintLength(8 * f.tag + 2, 10);
    VarintLength(8 * f.tag + 1, 10);
    VarintLength(8 * f.tag, 10);
    VarintLength(if f.Number? then f.value else |f.bytes|, 10);
    hide Varint;
  }

  lemma TakeAfterKey(tag: nat, wireType: nat, s: seq<Byte>)
    requires 1 <= tag < 0x2000_0000 && wireType < 8
    ensures Take(Key(tag, wireType) + s) == TakeBody(tag, wireType, s)
  {
    TakeVarintWritten(8 * tag + wireType, s);
    assert (8 * tag + wireType) / 8 == tag && (8 * tag + wireType) % 8 == wireType;
    hide TakeVarint, TakeBody, Varint;
  }

  lemma CutWritten(b: seq<Byte>, rest: seq<Byte>)
    ensures Cut(b + rest, |b|) == Some((b, rest))
  {
  }

  lemma TakeWritten(f: Field, rest: seq<Byte>)
    requires Fits(f)
    ensures Take(Write(f) + rest) == Some((f, rest))
  {
    hide Take, TakeVarint, Key, Varint, Cut;
    match f
    case Number(tag, n) =>
      assert Write(f) + rest == Key(tag, 0) + (Varint(n) + rest);
      TakeAfterKey(tag, 0, Varint(n) + rest);
      TakeVarintWritten(n, rest);
    case Chunk(tag, b) =>
      assert Write(f) + rest == Key(tag, 2) + (Varint(|b|) + (b + rest));
      TakeAfterKey(tag, 2, Varint(|b|) + (b + rest));
      TakeVarintWritten(|b|, b + rest);
      CutWritten(b, rest);
    case Fixed64(tag, b) =>
      assert Write(f) + rest == Key(tag, 1) + (b + rest);
      TakeAfterKey(tag, 1, b + rest);
      CutWritten(b, rest);
    case Fixed32(tag, b) =>
      assert Write(f) + rest == Key(tag, 5) + (b + rest);
      TakeAfterKey(tag, 5, b + rest);
      CutWritten(b, rest);
  }

  /** Fields written one after the other are read back one after the other. */
  lemma {:induction false} TakeAllWritten(fields: seq<Field>)
    requires forall f <- fields :: Fits(f)
    ensures TakeAll(WriteAll(fields)) == Some(fields)
  {
    hide Take, Write, Fits;
    if fields != [] {
      var rest := WriteAll(fields[1..]);
      assert fields[0] in fields && forall f <- fields[1..] :: f in fields;
      TakeWritten(fields[0], rest);
      TakeAllWritten(fields[1..]);
      assert WriteAll(fields) == Write(fields[0]) + rest && Write(fields[0]) + rest != [];
      assert [fields[0]] + fields[1..] == fields;
    }
  }
}

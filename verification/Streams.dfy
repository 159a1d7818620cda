/** What was written to a pipe in one direction, and how it ended; the transport carries it as a state. */
module Streams {
  import opened Arithmetic
  import opened Options

  /** Above this many bytes a length no longer fits the four bytes it is written in. */
  const LENGTH_LIMIT := 0x1_0000_0000

  type ExitCode = Int32

  datatype Stream = Stream(out: seq<Byte>, err: seq<Byte>, end: Option<ExitCode>)

  const EMPTY := Stream([], [], None)

  // ---------- the operations a state offers the transport ----------

  function StripPrefix(s: seq<Byte>, prefix: seq<Byte>): seq<Byte> {
    if prefix <= s then s[|prefix|..] else s
  }

  function Subtract(s: Stream, prefix: Stream): Stream {
    Stream(StripPrefix(s.out, prefix.out), StripPrefix(s.err, prefix.err), s.end)
  }

  function DiffFrom(s: Stream, existing: Stream): seq<Byte> {
    var out := s.out[Min(|existing.out|, |s.out|)..];
    var err := s.err[Min(|existing.err|, |s.err|)..];
    var end := if existing.end == None then s.end else None;
    if out == [] && err == [] && end == None then []
    else Put(out) + Put(err) + (if end.Some? then WriteInt(end.value) else [])
  }

  function Apply(s: Stream, diff: seq<Byte>): Option<Stream> {
    match TakeBytes(diff)
    case None => None
    case Some((out, rest)) =>
      match TakeBytes(rest)
      case None => None
      case Some((err, tail)) =>
        if |tail| == 0 then Some(Stream(s.out + out, s.err + err, s.end))
        else if |tail| == 4 then
          Some(Stream(s.out + out, s.err + err, if s.end.Some? then s.end else Some(ReadInt(tail))))
        else None
  }

  /** What a receiver makes of a diff: an empty one changes nothing and is never parsed. */
  function Advance(s: Stream, diff: seq<Byte>): Option<Stream> {
    if diff == [] then Some(s) else Apply(s, diff)
  }

  // ---------- the byte format: little-endian lengths and status ----------

  function Put(bytes: seq<Byte>): seq<Byte> {
    WriteWord(|bytes| % LENGTH_LIMIT) + bytes
  }

  function TakeBytes(diff: seq<Byte>): Option<(seq<Byte>, seq<Byte>)> {
    if |diff| < 4 then None
    else
      var len := ReadWord(diff[..4]);
      if |diff| - 4 < len then None else Some((diff[4..4 + len], diff[4 + len..]))
  }

  function WriteWord(n: nat): (w: seq<Byte>)
    requires n < LENGTH_LIMIT
    ensures |w| == 4
  {
    [n % 0x100, n / 0x100 % 0x100, n / 0x1_0000 % 0x100, n / 0x100_0000]
  }

  function ReadWord(w: seq<Byte>): (n: nat)
    requires |w| == 4
    ensures n < LENGTH_LIMIT
  {
    var a: int, b: int, c: int, d: int := w[0], w[1], w[2], w[3];
    a + 0x100 * b + 0x1_0000 * c + 0x100_0000 * d
  }

  function WriteInt(c: ExitCode): (w: seq<Byte>) {
    WriteWord(c % LENGTH_LIMIT)
  }

  function ReadInt(w: seq<Byte>): ExitCode
    requires |w| == 4
  {
    var n := ReadWord(w);
    if n < 0x8000_0000 then n else n - LENGTH_LIMIT
  }

  lemma WordRoundTrip(n: nat)
    requires n < LENGTH_LIMIT
    ensures ReadWord(WriteWord(n)) == n
  {
    assert n / 0x1_0000 == n / 0x100 / 0x100;
    assert n / 0x100_0000 == n / 0x1_0000 / 0x100;
  }

  lemma IntRoundTrip(c: ExitCode)
    ensures ReadInt(WriteInt(c)) == c
  {
    WordRoundTrip(c % LENGTH_LIMIT);
  }

  lemma TakePut(bytes: seq<Byte>, rest: seq<Byte>)
    requires |bytes| < LENGTH_LIMIT
    ensures TakeBytes(Put(bytes) + rest) == Some((bytes, rest))
  {
    var diff := Put(bytes) + rest;
    WordRoundTrip(|bytes|);
    assert diff[..4] == WriteWord(|bytes|);
    assert diff[4..4 + |bytes|] == bytes;
    assert diff[4 + |bytes|..] == rest;
  }

  // ---------- the laws the transport relies on ----------

  /** `a` was written before `b` by the same writer. */
  ghost predicate Before(a: Stream, b: Stream) {
    a.out <= b.out && a.err <= b.err && (a.end.Some? ==> a.end == b.end)
  }

  /** The absolute content of a state from which the content of `base` has been stripped. */
  function Join(base: Stream, s: Stream): Stream {
    Stream(base.out + s.out, base.err + s.err, s.end)
  }

  /** Every length this diff would write fits its four bytes. */
  predicate Fits(s: Stream, existing: Stream) {
    |s.out| - |existing.out| < LENGTH_LIMIT && |s.err| - |existing.err| < LENGTH_LIMIT
  }

  lemma DiffEmptyIffEqual(s: Stream, existing: Stream)
    requires Before(existing, s)
    ensures DiffFrom(s, existing) == [] <==> s == existing
  {
  }

  /** Written whole or cut short, a piece of a diff is taken as long as its four bytes say. */
  lemma TakeShort(bytes: seq<Byte>, rest: seq<Byte>)
    ensures var taken := TakeBytes(Put(bytes) + rest); taken.Some? && |taken.value.0| == |bytes| % LENGTH_LIMIT
  {
    var diff, n := Put(bytes) + rest, |bytes| % LENGTH_LIMIT;
    WordRoundTrip(n);
    assert diff[..4] == WriteWord(n);
  }

  /** A piece too long to be written never arrives whole. */
  lemma NeverWhole(s: Stream, existing: Stream)
    requires Before(existing, s) && !Fits(s, existing)
    ensures Advance(existing, DiffFrom(s, existing)) != Some(s)
  {
    var out := s.out[|existing.out|..];
    var err := s.err[|existing.err|..];
    var end := if existing.end == None then s.end else None;
    var tail := if end.Some? then WriteInt(end.value) else [];
    assert DiffFrom(s, existing) == Put(out) + (Put(err) + tail);
    TakeShort(out, Put(err) + tail);
    if |out| < LENGTH_LIMIT {
      TakePut(out, Put(err) + tail);
      TakeShort(err, tail);
    }
    hide Put, TakeBytes, ReadInt;
  }

  /** A diff gives the new state exactly when its lengths could be written. */
  lemma DiffThenApply(s: Stream, existing: Stream)
    requires Before(existing, s)
    ensures Advance(existing, DiffFrom(s, existing)) == Some(s) <==> Fits(s, existing)
  {
    if Fits(s, existing) {
      DiffApplies(s, existing);
    } else {
      NeverWhole(s, existing);
    }
  }

  lemma DiffApplies(s: Stream, existing: Stream)
    requires Before(existing, s) && Fits(s, existing)
    ensures Advance(existing, DiffFrom(s, existing)) == Some(s)
  {
    var out := s.out[|existing.out|..];
    var err := s.err[|existing.err|..];
    var end := if existing.end == None then s.end else None;
    var tail := if end.Some? then WriteInt(end.value) else [];
    assert existing.out + out == s.out && existing.err + err == s.err;
    if out != [] || err != [] || end != None {
      assert DiffFrom(s, existing) == Put(out) + (Put(err) + tail);
      TakePut(out, Put(err) + tail);
      TakePut(err, tail);
      if end.Some? {
        IntRoundTrip(end.value);
      }
    } else {
      assert s == existing;
    }
  }

  /** A diff depends on absolute contents only: a prefix both states lack never shows in it. */
  lemma DiffIgnoresBase(base: Stream, s: Stream, existing: Stream)
    requires Before(Join(base, existing), Join(base, s))
    ensures DiffFrom(Join(base, s), Join(base, existing)) == DiffFrom(s, existing)
    ensures Before(existing, s)
  {
    BeforeRelative(base, existing, s);
    assert Join(base, s).out[|base.out + existing.out|..] == s.out[|existing.out|..];
    assert Join(base, s).err[|base.err + existing.err|..] == s.err[|existing.err|..];
  }

  /** Applying a diff commutes with putting back a stripped prefix. */
  lemma AdvanceCommutesWithBase(base: Stream, s: Stream, diff: seq<Byte>)
    ensures Advance(Join(base, s), diff).Some? <==> Advance(s, diff).Some?
    ensures Advance(s, diff).Some? ==> Advance(Join(base, s), diff) == Some(Join(base, Advance(s, diff).value))
  {
    if diff != [] && Apply(s, diff).Some? {
      var (out, rest) := TakeBytes(diff).value;
      var (err, tail) := TakeBytes(rest).value;
      assert base.out + s.out + out == base.out + (s.out + out);
      assert base.err + s.err + err == base.err + (s.err + err);
    }
  }

  /** Stripping a shared prefix moves it into the base and leaves the absolute content alone. */
  lemma SubtractMovesIntoBase(base: Stream, s: Stream, known: Stream)
    requires Before(Join(base, known), Join(base, s))
    ensures Join(Join(base, known), Subtract(s, known)) == Join(base, s)
  {
    BeforeRelative(base, known, s);
    assert base.out + known.out + s.out[|known.out|..] == base.out + s.out;
    assert base.err + known.err + s.err[|known.err|..] == base.err + s.err;
  }

  /** Subtracting a prefix both states share leaves the bytes of the diff unchanged. */
  lemma SubtractKeepsDiff(s: Stream, existing: Stream, known: Stream)
    requires Before(known, existing) && Before(existing, s)
    ensures DiffFrom(Subtract(s, known), Subtract(existing, known)) == DiffFrom(s, existing)
  {
    assert Subtract(s, known).out[|existing.out| - |known.out|..] == s.out[|existing.out|..];
    assert Subtract(s, known).err[|existing.err| - |known.err|..] == s.err[|existing.err|..];
  }

  lemma BeforeRelative(base: Stream, a: Stream, b: Stream)
    requires Before(Join(base, a), Join(base, b))
    ensures Before(a, b)
  {
    PrefixRelative(base.out, a.out, b.out);
    PrefixRelative(base.err, a.err, b.err);
  }

  lemma PrefixRelative(base: seq<Byte>, a: seq<Byte>, b: seq<Byte>)
    requires base + a <= base + b
    ensures a <= b
  {
    assert a == (base + a)[|base|..] == (base + b)[|base|..|base| + |a|];
  }

  lemma BeforeTransitive(a: Stream, b: Stream, c: Stream)
    requires Before(a, b) && Before(b, c)
    ensures Before(a, c)
  {
  }
}

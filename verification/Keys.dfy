/** Session keys: sixteen bytes, written down as twenty-two characters. */
module Keys {
  import opened Options
  import opened Utf8

  const KEY_BYTES := 16
  const LETTERS := 22
  const PADDED := 24

  datatype Error = BadKeyLength | BadKeyEncoding | NotA128BitKey

  datatype Result<+T> = Ok(value: T) | Err(error: Error)

  type Key = k: seq<Byte> | |k| == KEY_BYTES witness seq(KEY_BYTES, _ => 0)

  /** The six bits a letter stands for. */
  function SixBit(c: char): Option<nat> {
    if 'A' <= c <= 'Z' then Some(c as nat - 'A' as nat)
    else if 'a' <= c <= 'z' then Some(c as nat - 'a' as nat + 26)
    else if '0' <= c <= '9' then Some(c as nat - '0' as nat + 52)
    else if c == '+' then Some(62)
    else if c == '/' then Some(63)
    else None
  }

  /** The alphabet of RFC 4648, section 4. */
  function Letter(n: nat): (c: char)
    requires n < 64
  {
    if n < 26 then 'A' + n as char
    else if n < 52 then 'a' + (n - 26) as char
    else if n < 62 then '0' + (n - 52) as char
    else if n == 62 then '+' else '/'
  }

  /** Letters and six-bit values answer to each other, one to one. */
  lemma LettersAndBits(c: char, n: nat)
    requires n < 64
    ensures SixBit(c) == Some(n) <==> c == Letter(n)
    ensures SixBit(c).Some? ==> SixBit(c).value < 64
  {
  }

  // ---------- the bits of a key ----------

  /** The byte at `i`, the bits past the end of the key reading as 0. */
  function ByteAt(raw: seq<Byte>, i: nat): nat {
    if i < |raw| then var b: int := raw[i]; b else 0
  }

  /** Bits 6i to 6i + 5 of the key. */
  function Sextet(raw: seq<Byte>, i: nat): (s: nat)
    ensures s < 64
  {
    var j := i / 4 * 3;
    match i % 4
    case 0 => ByteAt(raw, j) / 4
    case 1 => ByteAt(raw, j) % 4 * 16 + ByteAt(raw, j + 1) / 16
    case 2 => ByteAt(raw, j + 1) % 16 * 4 + ByteAt(raw, j + 2) / 64
    case _ => ByteAt(raw, j + 2) % 64
  }

  /** Bits 8j to 8j + 7 of a run of sextets. */
  function Octet(sextets: seq<nat>, j: nat): (b: Byte)
    requires forall i | 0 <= i < |sextets| :: sextets[i] < 64
    requires j / 3 * 4 + j % 3 + 1 < |sextets|
  {
    var i := j / 3 * 4;
    match j % 3
    case 0 => sextets[i] * 4 + sextets[i + 1] / 16
    case 1 => sextets[i + 1] % 16 * 16 + sextets[i + 2] / 4
    case _ => sextets[i + 2] % 4 * 64 + sextets[i + 3]
  }

  function Printable(k: Key): (s: string)
    ensures |s| == LETTERS
  {
    seq(LETTERS, i requires 0 <= i < LETTERS => Letter(Sextet(k, i)))
  }

  predicate AllLetters(s: string) {
    forall i | 0 <= i < |s| :: SixBit(s[i]).Some?
  }

  function Sextets(s: string): (r: seq<nat>)
    requires AllLetters(s)
    ensures |r| == |s| && forall i | 0 <= i < |r| :: r[i] == SixBit(s[i]).value && r[i] < 64
  {
    seq(|s|, i requires 0 <= i < |s| => SixBit(s[i]).value)
  }

  function KeyOf(s: string): Key
    requires |s| == LETTERS && AllLetters(s)
  {
    var sextets := Sextets(s);
    seq(KEY_BYTES, j requires 0 <= j < KEY_BYTES => Octet(sextets, j))
  }

  // ---------- arithmetic on groups ----------

  lemma NoMultipleBetween(e: int, d: nat)
    requires 0 - d < e * d < d
    ensures e == 0
  {
    assert e >= 1 ==> e * d >= d;
    assert e <= -1 ==> e * d <= 0 - d;
  }

  lemma Divided(n: nat, d: nat, q: nat, r: nat)
    requires n == q * d + r && r < d
    ensures n / d == q && n % d == r
  {
    NoMultipleBetween(n / d - q, d);
  }

  /** Three bytes in 24 bits, cut into sixes. */
  lemma ThreeBytes(r0: nat, r1: nat, r2: nat)
    requires r0 < 256 && r1 < 256 && r2 < 256
    ensures var bytes := r0 * 0x1_0000 + r1 * 0x100 + r2;
      && bytes / 0x4_0000 % 64 == r0 / 4
      && bytes / 0x1000 % 64 == r0 % 4 * 16 + r1 / 16
      && bytes / 64 % 64 == r1 % 16 * 4 + r2 / 64
      && bytes % 64 == r2 % 64
  {
    var bytes := r0 * 0x1_0000 + r1 * 0x100 + r2;
    var s0, s1, s2, s3 := r0 / 4, r0 % 4 * 16 + r1 / 16, r1 % 16 * 4 + r2 / 64, r2 % 64;
    assert bytes == ((s0 * 64 + s1) * 64 + s2) * 64 + s3;
    Divided(bytes, 64, (s0 * 64 + s1) * 64 + s2, s3);
    Divided((s0 * 64 + s1) * 64 + s2, 64, s0 * 64 + s1, s2);
    Divided(s0 * 64 + s1, 64, s0, s1);
    Divided(bytes, 0x1000, s0 * 64 + s1, s2 * 64 + s3);
    Divided(bytes, 0x4_0000, s0, s1 * 0x1000 + s2 * 64 + s3);
    Divided(s0, 64, 0, s0);
  }

  /** Four sixes in 24 bits, cut into bytes. */
  lemma FourSextets(s0: nat, s1: nat, s2: nat, s3: nat)
    requires s0 < 64 && s1 < 64 && s2 < 64 && s3 < 64
    ensures var bytes := ((s0 * 64 + s1) * 64 + s2) * 64 + s3;
      && bytes / 0x1_0000 == s0 * 4 + s1 / 16
      && bytes / 0x100 % 0x100 == s1 % 16 * 16 + s2 / 4
      && bytes % 0x100 == s2 % 4 * 64 + s3
  {
    var bytes := ((s0 * 64 + s1) * 64 + s2) * 64 + s3;
    var r0, r1, r2 := s0 * 4 + s1 / 16, s1 % 16 * 16 + s2 / 4, s2 % 4 * 64 + s3;
    assert bytes == (r0 * 0x100 + r1) * 0x100 + r2;
    Divided(bytes, 0x100, r0 * 0x100 + r1, r2);
    Divided(r0 * 0x100 + r1, 0x100, r0, r1);
    Divided(bytes, 0x1_0000, r0, r1 * 0x100 + r2);
  }

  lemma GroupSextets(raw: seq<Byte>, i: nat)
    requires 3 * i + 2 < |raw|
    ensures var r0: int, r1: int, r2: int := raw[3 * i], raw[3 * i + 1], raw[3 * i + 2];
      && Sextet(raw, 4 * i) == r0 / 4
      && Sextet(raw, 4 * i + 1) == r0 % 4 * 16 + r1 / 16
      && Sextet(raw, 4 * i + 2) == r1 % 16 * 4 + r2 / 64
      && Sextet(raw, 4 * i + 3) == r2 % 64
  {
    Divided(4 * i, 4, i, 0);
    Divided(4 * i + 1, 4, i, 1);
    Divided(4 * i + 2, 4, i, 2);
    Divided(4 * i + 3, 4, i, 3);
  }

  lemma GroupOctets(sextets: seq<nat>, i: nat)
    requires forall i | 0 <= i < |sextets| :: sextets[i] < 64
    requires 4 * i + 3 < |sextets|
    ensures Octet(sextets, 3 * i) as int == sextets[4 * i] * 4 + sextets[4 * i + 1] / 16
    ensures Octet(sextets, 3 * i + 1) as int == sextets[4 * i + 1] % 16 * 16 + sextets[4 * i + 2] / 4
    ensures Octet(sextets, 3 * i + 2) as int == sextets[4 * i + 2] % 4 * 64 + sextets[4 * i + 3]
  {
    Divided(3 * i, 3, i, 0);
    Divided(3 * i + 1, 3, i, 1);
    Divided(3 * i + 2, 3, i, 2);
  }

  // ---------- encoding and decoding in place ----------

  method EncodeKey(raw: array<Byte>) returns (b64: array<char>)
    requires raw.Length == KEY_BYTES
    ensures fresh(b64) && b64.Length == PADDED && b64[..LETTERS] == Printable(raw[..]) && b64[22] == b64[23] == '='
  {
    hide Letter, Sextet;
    b64 := new char[PADDED];
    var i := 0;
    while i < 5
      invariant 0 <= i <= 5
      invariant forall j | 0 <= j < 4 * i :: b64[j] == Letter(Sextet(raw[..], j))
    {
      var r0: int, r1: int, r2: int := raw[3 * i], raw[3 * i + 1], raw[3 * i + 2];
      var bytes := r0 * 0x1_0000 + r1 * 0x100 + r2;
      ThreeBytes(r0, r1, r2);
      GroupSextets(raw[..], i);
      b64[4 * i] := Letter(bytes / 0x4_0000 % 64);
      b64[4 * i + 1] := Letter(bytes / 0x1000 % 64);
      b64[4 * i + 2] := Letter(bytes / 64 % 64);
      b64[4 * i + 3] := Letter(bytes % 64);
      i := i + 1;
    }
    var last: int := raw[15];
    LastSextets(raw[..]);
    b64[20] := Letter(last / 4 % 64);
    b64[21] := Letter(last * 16 % 64);
    b64[22] := '=';
    b64[23] := '=';
    assert b64[..LETTERS] == Printable(raw[..]);
  }

  lemma LastSextets(raw: seq<Byte>)
    requires |raw| == KEY_BYTES
    ensures var last: int := raw[15];
      Sextet(raw, 20) == last / 4 % 64 && Sextet(raw, 21) == last * 16 % 64
  {
  }

  /** Decode twenty-two letters and two pads, four letters at a time; the last two hold one byte and four bits over. */
  method DecodeKey(b64: seq<char>) returns (r: Option<Key>)
    ensures var good := |b64| == PADDED && AllLetters(b64[..LETTERS]) && b64[22] == b64[23] == '=';
      r == if good then Some(KeyOf(b64[..LETTERS])) else None
  {
    if |b64| != PADDED { return None; }
    var raw := new Byte[KEY_BYTES](_ => 0);
    var ok := DecodeLetters(b64[..LETTERS], raw);
    if !ok { return None; }
    if b64[22] != '=' || b64[23] != '=' { return None; }
    return Some(raw[..]);
  }

  method DecodeLetters(s: seq<char>, raw: array<Byte>) returns (ok: bool)
    requires |s| == LETTERS && raw.Length == KEY_BYTES
    modifies raw
    ensures ok == AllLetters(s) && (ok ==> raw[..] == KeyOf(s))
  {
    hide SixBit, Octet, Pending, AllLetters;
    var bytes, out := 0, 0;
    ghost var seen: seq<nat> := [];
    var i := 0;
    NothingSeen(s);
    while i < LETTERS
      invariant 0 <= i <= LETTERS && out == i / 4 * 3
      invariant AllLetters(s[..i]) && seen == Sextets(s[..i])
      invariant bytes == Pending(seen)
      invariant OctetsDone(seen, raw[..out])
    {
      var six := SixBit(s[i]);
      OneLetter(s, i);
      if six.None? { return false; }
      ghost var before := seen;
      seen := Sextets(s[..i + 1]);
      PendingStep(before, six.value);
      OctetsStay(before, six.value, raw[..out]);
      bytes := bytes * 64 + six.value;
      if i % 4 == 3 {
        GroupDone(before, six.value, raw[..out]);
        ghost var done := raw[..out];
        raw[out] := bytes / 0x1_0000 % 0x100;
        raw[out + 1] := bytes / 0x100 % 0x100;
        raw[out + 2] := bytes % 0x100;
        assert raw[..out + 3] == done + [raw[out], raw[out + 1], raw[out + 2]];
        out := out + 3;
        bytes := 0;
      }
      i := i + 1;
    }
    assert s[..i] == s;
    ghost var done := raw[..15];
    raw[15] := bytes / 16 % 0x100;
    assert raw[..] == done + [raw[15]];
    KeyDone(s, done, raw[15]);
    return true;
  }

  /** The octets completed so far. */
  ghost predicate OctetsDone(seen: seq<nat>, raw: seq<Byte>) {
    && (forall i | 0 <= i < |seen| :: seen[i] < 64)
    && |raw| == |seen| / 4 * 3
    && forall j | 0 <= j < |raw| :: j / 3 * 4 + j % 3 + 1 < |seen| && raw[j] == Octet(seen, j)
  }

  lemma NothingSeen(s: seq<char>)
    ensures s[..0] == [] && AllLetters([]) && Sextets([]) == [] && Pending([]) == 0 && OctetsDone([], [])
  {
  }

  lemma OneLetter(s: seq<char>, i: nat)
    requires i < |s| && AllLetters(s[..i])
    ensures SixBit(s[i]).None? ==> !AllLetters(s)
    ensures SixBit(s[i]).Some? ==>
      AllLetters(s[..i + 1]) && SixBit(s[i]).value < 64 && Sextets(s[..i + 1]) == Sextets(s[..i]) + [SixBit(s[i]).value]
  {
    assert s[..i + 1] == s[..i] + [s[i]];
    LettersAndBits(s[i], 0);
    hide SixBit;
  }

  lemma OctetsStay(seen: seq<nat>, s: nat, raw: seq<Byte>)
    requires s < 64 && OctetsDone(seen, raw)
    ensures |seen| % 4 != 3 ==> OctetsDone(seen + [s], raw)
    ensures forall j | 0 <= j < |raw| :: j / 3 * 4 + j % 3 + 1 < |seen| && raw[j] == Octet(seen + [s], j)
  {
    forall j | 0 <= j < |raw|
      ensures j / 3 * 4 + j % 3 + 1 < |seen| && Octet(seen + [s], j) == Octet(seen, j)
    {
      assert j / 3 * 4 + 3 < |seen|;
    }
  }

  /** With the fourth six, the number gathered holds the group's three octets. */
  lemma GroupOctetsPending(seen: seq<nat>, s: nat)
    requires s < 64 && |seen| % 4 == 3 && forall i | 0 <= i < |seen| :: seen[i] < 64
    ensures forall i | 0 <= i < |seen + [s]| :: (seen + [s])[i] < 64
    ensures var bytes, all, g := Pending(seen) * 64 + s, seen + [s], |seen| / 4;
      && Octet(all, 3 * g) as int == bytes / 0x1_0000 % 0x100
      && Octet(all, 3 * g + 1) as int == bytes / 0x100 % 0x100
      && Octet(all, 3 * g + 2) as int == bytes % 0x100
  {
    hide Pending, Octet;
    PendingStep(seen, s);
    var all, g := seen + [s], |seen| / 4;
    FourSextets(all[4 * g], all[4 * g + 1], all[4 * g + 2], all[4 * g + 3]);
    GroupOctets(all, g);
  }

  lemma GroupDone(seen: seq<nat>, s: nat, raw: seq<Byte>)
    requires s < 64 && |seen| % 4 == 3 && OctetsDone(seen, raw)
    ensures var bytes := Pending(seen) * 64 + s;
      OctetsDone(seen + [s], raw + [bytes / 0x1_0000 % 0x100, bytes / 0x100 % 0x100, bytes % 0x100])
  {
    hide Pending, Octet;
    OctetsStay(seen, s, raw);
    GroupOctetsPending(seen, s);
    var bytes := Pending(seen) * 64 + s;
    ThreeMore(seen + [s], raw, [bytes / 0x1_0000 % 0x100, bytes / 0x100 % 0x100, bytes % 0x100], |seen| / 4);
  }

  lemma ThreeMore(all: seq<nat>, raw: seq<Byte>, three: seq<Byte>, g: nat)
    requires |all| == 4 * g + 4 && |raw| == 3 * g && forall i | 0 <= i < |all| :: all[i] < 64
    requires forall j | 0 <= j < |raw| :: j / 3 * 4 + j % 3 + 1 < |all| && raw[j] == Octet(all, j)
    requires |three| == 3 && forall d | 0 <= d < 3 ::
      (3 * g + d) / 3 * 4 + (3 * g + d) % 3 + 1 < |all| && three[d] == Octet(all, 3 * g + d)
    ensures OctetsDone(all, raw + three)
  {
    hide Octet;
    forall j | 0 <= j < |raw + three|
      ensures j / 3 * 4 + j % 3 + 1 < |all| && (raw + three)[j] == Octet(all, j)
    {
      if j >= |raw| {
        var d := j - |raw|;
        assert three[d] == Octet(all, 3 * g + d);
      }
    }
  }

  lemma KeyDone(s: seq<char>, raw: seq<Byte>, last: Byte)
    requires |s| == LETTERS && AllLetters(s) && |raw| == 15 && OctetsDone(Sextets(s), raw)
    requires last as int == Pending(Sextets(s)) / 16 % 0x100
    ensures raw + [last] == KeyOf(s)
  {
    LastOctet(Sextets(s));
    hide Pending, Octet, SixBit;
  }

  /** The sixes gathered since the last group of four was complete, as one number. */
  function Pending(seen: seq<nat>): nat {
    var g := |seen| / 4 * 4;
    match |seen| % 4
    case 0 => 0
    case 1 => seen[g]
    case 2 => seen[g] * 64 + seen[g + 1]
    case _ => (seen[g] * 64 + seen[g + 1]) * 64 + seen[g + 2]
  }

  lemma PendingStep(seen: seq<nat>, s: nat)
    ensures |seen| % 4 != 3 ==> Pending(seen + [s]) == Pending(seen) * 64 + s
    ensures |seen| % 4 == 3 ==>
      && Pending(seen + [s]) == 0
      && var g := |seen| / 4 * 4; Pending(seen) * 64 + s == ((seen[g] * 64 + seen[g + 1]) * 64 + seen[g + 2]) * 64 + s
  {
  }

  lemma LastOctet(seen: seq<nat>)
    requires |seen| == LETTERS && forall i | 0 <= i < |seen| :: seen[i] < 64
    ensures Pending(seen) / 16 % 0x100 == Octet(seen, 15) as int
  {
  }

  // ---------- what the printed form is worth ----------

  lemma KeyOctet(k: Key, j: nat)
    requires j < KEY_BYTES
    ensures j / 3 * 4 + j % 3 + 1 < LETTERS
    ensures var sextets := seq(LETTERS, i requires 0 <= i < LETTERS => Sextet(k, i));
      (forall i | 0 <= i < LETTERS :: sextets[i] < 64) && Octet(sextets, j) == k[j]
  {
    hide Sextet, Octet;
    var sextets: seq<nat> := seq(LETTERS, i requires 0 <= i < LETTERS => Sextet(k, i));
    var g := j / 3;
    if j < 15 {
      GroupSextets(k, g);
      GroupOctets(sextets, g);
      BytesRegrouped(k[3 * g], k[3 * g + 1], k[3 * g + 2]);
      assert j == 3 * g + j % 3;
    } else {
      LastSextets(k);
      LastByte(k[15]);
      GroupOctet15(sextets);
    }
  }

  lemma GroupOctet15(t: seq<nat>)
    requires |t| == LETTERS && forall i | 0 <= i < |t| :: t[i] < 64
    ensures Octet(t, 15) as int == t[20] * 4 + t[21] / 16
  {
  }

  lemma LastByte(last: nat)
    requires last < 256
    ensures last / 4 % 64 * 4 + last * 16 % 64 / 16 == last
  {
    Divided(last * 16, 64, last / 4, last % 4 * 16);
  }

  lemma BytesRegrouped(r0: nat, r1: nat, r2: nat)
    requires r0 < 256 && r1 < 256 && r2 < 256
    ensures r0 / 4 * 4 + (r0 % 4 * 16 + r1 / 16) / 16 == r0
    ensures (r0 % 4 * 16 + r1 / 16) % 16 * 16 + (r1 % 16 * 4 + r2 / 64) / 4 == r1
    ensures (r1 % 16 * 4 + r2 / 64) % 4 * 64 + r2 % 64 == r2
  {
    Divided(r0 % 4 * 16 + r1 / 16, 16, r0 % 4, r1 / 16);
    Divided(r1 % 16 * 4 + r2 / 64, 4, r1 % 16, r2 / 64);
  }

  lemma SixesRegrouped(s0: nat, s1: nat, s2: nat, s3: nat)
    requires s0 < 64 && s1 < 64 && s2 < 64 && s3 < 64
    ensures var r0, r1, r2 := s0 * 4 + s1 / 16, s1 % 16 * 16 + s2 / 4, s2 % 4 * 64 + s3;
      r0 / 4 == s0 && r0 % 4 * 16 + r1 / 16 == s1 && r1 % 16 * 4 + r2 / 64 == s2 && r2 % 64 == s3
  {
    Divided(s0 * 4 + s1 / 16, 4, s0, s1 / 16);
    Divided(s1 % 16 * 16 + s2 / 4, 16, s1 % 16, s2 / 4);
    Divided(s2 % 4 * 64 + s3, 64, s2 % 4, s3);
  }

  /** Reading a printed key gives the key back. */
  lemma DecodePrinted(k: Key)
    ensures AllLetters(Printable(k)) && KeyOf(Printable(k)) == k
  {
    var s := Printable(k);
    forall i | 0 <= i < LETTERS
      ensures SixBit(s[i]) == Some(Sextet(k, i))
    {
      LettersAndBits(s[i], Sextet(k, i));
    }
    var sextets: seq<nat> := seq(LETTERS, i requires 0 <= i < LETTERS => Sextet(k, i));
    assert Sextets(s) == sextets;
    forall j: nat | j < KEY_BYTES
      ensures KeyOf(s)[j] == k[j]
    {
      KeyOctet(k, j);
    }
  }

  /** Parsing rejects what would not print back identically; its length is that of its bytes. */
  function Parsed(s: string): Result<Key> {
    if ByteLength(s) != LETTERS then Err(BadKeyLength)
    else if |s| != LETTERS || !AllLetters(s) then Err(BadKeyEncoding)
    else if Printable(KeyOf(s)) != s then Err(NotA128BitKey)
    else Ok(KeyOf(s))
  }

  method Parse(s: string) returns (r: Result<Key>)
    ensures r == Parsed(s)
  {
    if ByteLength(s) != LETTERS { return Err(BadKeyLength); }
    var padded := s + "==";
    assert |s| == LETTERS ==> padded[..LETTERS] == s;
    var key := DecodeKey(padded);
    if key.None? { return Err(BadKeyEncoding); }
    var raw := new Byte[KEY_BYTES](i requires 0 <= i < KEY_BYTES => key.value[i]);
    assert raw[..] == key.value;
    var b64 := EncodeKey(raw);
    if b64[..LETTERS] != s { return Err(NotA128BitKey); }
    return Ok(key.value);
  }

  /** A string parses to a key exactly when it is the printed form of that key. */
  lemma ParsesIffPrinted(s: string, k: Key)
    ensures Parsed(s) == Ok(k) <==> s == Printable(k)
  {
    DecodePrinted(k);
    LettersAreAscii(Printable(k));
  }

  lemma LettersAreAscii(s: string)
    requires AllLetters(s)
    ensures ByteLength(s) == |s|
  {
    assert forall c <- s :: SixBit(c).Some?;
  }

  /** Of the strings that decode, only those whose last four bits are not 0 fail to be keys. */
  lemma NotAKeyWhenBitsLeftOver(s: string)
    requires |s| == LETTERS && AllLetters(s)
    ensures Parsed(s) == Err(NotA128BitKey) <==> Sextets(s)[21] % 16 != 0
  {
    LettersAreAscii(s);
    var t, k := Sextets(s), KeyOf(s);
    forall i: nat | i < LETTERS
      ensures Sextet(k, i) == if i < 21 then t[i] else t[i] / 16 * 16
    {
      SextetOfKey(t, k, i);
    }
    forall i: nat | i < LETTERS
      ensures Printable(k)[i] == s[i] <==> Sextet(k, i) == t[i]
    {
      LettersAndBits(s[i], Sextet(k, i));
    }
  }

  lemma SextetOfKey(t: seq<nat>, k: Key, i: nat)
    requires |t| == LETTERS && i < LETTERS && forall x | 0 <= x < |t| :: t[x] < 64
    requires forall j: nat | j < KEY_BYTES :: j / 3 * 4 + j % 3 + 1 < |t| && k[j] == Octet(t, j)
    ensures Sextet(k, i) == if i < 21 then t[i] else t[i] / 16 * 16
  {
    hide Sextet, Octet;
    var g := i / 4;
    if i < 20 {
      GroupSextets(k, g);
      GroupOctets(t, g);
      assert k[3 * g] == Octet(t, 3 * g) && k[3 * g + 1] == Octet(t, 3 * g + 1) && k[3 * g + 2] == Octet(t, 3 * g + 2);
      SixesRegrouped(t[4 * g], t[4 * g + 1], t[4 * g + 2], t[4 * g + 3]);
      assert i == 4 * g + i % 4;
    } else {
      LastSextets(k);
      GroupOctet15(t);
      LastSixes(t[20], t[21]);
      assert k[15] == Octet(t, 15);
    }
  }

  lemma LastSixes(s0: nat, s1: nat)
    requires s0 < 64 && s1 < 64
    ensures var last := s0 * 4 + s1 / 16; last / 4 % 64 == s0 && last * 16 % 64 == s1 / 16 * 16
  {
    Divided(s0 * 4 + s1 / 16, 4, s0, s1 / 16);
    Divided((s0 * 4 + s1 / 16) * 16, 64, s0, s1 / 16 * 16);
  }
}

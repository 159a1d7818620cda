/** The pieces an instruction travels in: cut, written as bytes, read, and joined again. */
module Fragments {
  import opened Arithmetic
  import opened Options
  import opened Instructions
  import BigEndian

  const HEADER_LEN := 10

  /** Set in the number of the last piece; so a number proper has 15 bits. */
  const FINAL_BIT := 0x8000

  /** Most bytes of fragments held for one instruction. */
  const MAX_ASSEMBLY_BYTES := 2048 * 2048

  datatype Fragment = Fragment(id: nat, num: nat, isFinal: bool, contents: seq<Byte>)

  datatype Result<T> = Ok(value: T) | Err(error: FragmentError)

  datatype FragmentError = TooShort | TooManyFragments | Malformed

  // ---------- the header ----------

  function Combined(num: nat, isFinal: bool): nat {
    if isFinal then FINAL_BIT + num else num
  }

  function ToBytes(f: Fragment): Result<seq<Byte>> {
    if f.num / FINAL_BIT % 2 != 0 then Err(TooManyFragments)
    else Ok(BigEndian.Write(f.id, 8) + BigEndian.Write(Combined(f.num, f.isFinal), 2) + f.contents)
  }

  function FromBytes(x: seq<Byte>): Result<Fragment> {
    if |x| < HEADER_LEN then Err(TooShort)
    else
      var combined := BigEndian.Read(x[8..10]);
      Ok(Fragment(BigEndian.Read(x[..8]), combined % FINAL_BIT, combined / FINAL_BIT % 2 != 0, x[HEADER_LEN..]))
  }

  ghost predicate Representable(f: Fragment) {
    f.id < BigEndian.Pow256(8) && f.num < 2 * FINAL_BIT
  }

  /** A fragment survives its wire form exactly when its number leaves the final bit free. */
  lemma HeaderRoundTrip(f: Fragment)
    requires Representable(f)
    ensures ToBytes(f).Ok? <==> f.num < FINAL_BIT
    ensures f.num < FINAL_BIT ==> FromBytes(ToBytes(f).value) == Ok(f)
  {
    hide BigEndian.Write, BigEndian.Read, BigEndian.Pow256, Combined;
    if f.num < FINAL_BIT {
      BigEndian.ReadWrite(f.id, 8);
      CombinedSplits(f.num, f.isFinal);
      BigEndian.ReadWrite(Combined(f.num, f.isFinal), 2);
      HeaderSlices(BigEndian.Write(f.id, 8), BigEndian.Write(Combined(f.num, f.isFinal), 2), f.contents);
    }
  }

  lemma CombinedSplits(num: nat, isFinal: bool)
    requires num < FINAL_BIT
    ensures var c := Combined(num, isFinal);
            c % FINAL_BIT == num && (c / FINAL_BIT % 2 != 0 <==> isFinal) && c < BigEndian.Pow256(2)
  {
    assert BigEndian.Pow256(2) == 0x100 * BigEndian.Pow256(1);
  }

  lemma HeaderSlices(id: seq<Byte>, num: seq<Byte>, contents: seq<Byte>)
    requires |id| == 8 && |num| == 2
    ensures var x := id + num + contents; x[..8] == id && x[8..10] == num && x[10..] == contents
  {
  }

  /** Just the datagrams long enough to hold a header are taken, each as the fragment it is the wire form of. */
  lemma HeaderOnto(x: seq<Byte>)
    ensures FromBytes(x) == Err(TooShort) <==> |x| < HEADER_LEN
    ensures |x| >= HEADER_LEN ==> FromBytes(x).Ok? && ToBytes(FromBytes(x).value) == Ok(x)
  {
    if |x| >= HEADER_LEN {
      BigEndian.WriteRead(x[..8]);
      BigEndian.WriteRead(x[8..10]);
      assert BigEndian.Pow256(2) == 0x100 * BigEndian.Pow256(1);
      var combined := BigEndian.Read(x[8..10]);
      assert combined == combined % FINAL_BIT + FINAL_BIT * (combined / FINAL_BIT);
      assert x == x[..8] + x[8..10] + x[10..];
    }
  }

  // ---------- splitting ----------

  datatype FragmenterState = FragmenterState(nextId: nat, last: Option<Instruction>, lastMtu: Option<nat>)

  const FRESH_FRAGMENTER := FragmenterState(0, None, None)

  /** Room for contents in one datagram: never less than one byte, so splitting ends. */
  function PieceSize(mtu: nat): (size: nat)
    ensures size >= 1
  {
    if mtu <= HEADER_LEN then 1 else mtu - HEADER_LEN
  }

  /** The payload cut into pieces, numbered from `num`; an empty payload is still one piece. */
  function Pieces(id: nat, payload: seq<Byte>, size: nat, num: nat): (ps: seq<Fragment>)
    requires size >= 1
    ensures |ps| >= 1
    decreases |payload|
  {
    var take := Min(|payload|, size);
    if take == |payload| then [Fragment(id, num, true, payload)]
    else [Fragment(id, num, false, payload[..take])] + Pieces(id, payload[take..], size, num + 1)
  }

  /** Everything but the diff and the chosen piece size decides whether an id is reused. */
  predicate SameHeader(a: Instruction, b: Instruction) {
    a.(diff := []) == b.(diff := [])
  }

  function NextId(f: FragmenterState, inst: Instruction, size: nat): nat {
    if f.last.Some? && SameHeader(inst, f.last.value) && f.lastMtu == Some(size) then f.nextId else f.nextId + 1
  }

  function AfterFragmenting(f: FragmenterState, inst: Instruction, size: nat): FragmenterState {
    FragmenterState(NextId(f, inst, size), Some(inst), Some(size))
  }

  function MakeFragments(f: FragmenterState, codec: Codec, inst: Instruction, mtu: nat): Result<seq<Fragment>> {
    var size := PieceSize(mtu);
    var ps := Pieces(NextId(f, inst, size), codec.encode(inst), size, 0);
    if |ps| <= FINAL_BIT then Ok(ps) else Err(TooManyFragments)
  }

  lemma {:induction false} PieceAt(id: nat, payload: seq<Byte>, size: nat, num: nat, k: nat)
    requires size >= 1 && k < |Pieces(id, payload, size, num)|
    ensures var p := Pieces(id, payload, size, num)[k];
            p.id == id && p.num == num + k && |p.contents| <= size &&
            (p.isFinal <==> k == |Pieces(id, payload, size, num)| - 1)
    decreases k
  {
    if k > 0 {
      PieceAt(id, payload[size..], size, num + 1, k - 1);
    }
  }

  function Contents(ps: seq<Fragment>): seq<Byte> {
    if ps == [] then [] else ps[0].contents + Contents(ps[1..])
  }

  /** Nothing is lost or repeated by splitting. */
  lemma {:induction false} PiecesCarryPayload(id: nat, payload: seq<Byte>, size: nat, num: nat)
    requires size >= 1
    ensures Contents(Pieces(id, payload, size, num)) == payload
    decreases |payload|
  {
    if |payload| > size {
      var ps := Pieces(id, payload, size, num);
      assert ps[1..] == Pieces(id, payload[size..], size, num + 1);
      PiecesCarryPayload(id, payload[size..], size, num + 1);
      assert payload == payload[..size] + payload[size..];
    } else {
      assert Pieces(id, payload, size, num)[1..] == [];
    }
  }

  /** Exactly as many pieces as the payload needs at this size. */
  lemma {:induction false} PieceCount(id: nat, payload: seq<Byte>, size: nat, num: nat)
    requires size >= 1
    ensures var n := |Pieces(id, payload, size, num)|;
            |payload| <= n * size && (n > 1 ==> (n - 1) * size < |payload|)
    decreases |payload|
  {
    if |payload| > size {
      PieceCount(id, payload[size..], size, num + 1);
      var n := |Pieces(id, payload[size..], size, num + 1)|;
      assert |Pieces(id, payload, size, num)| == n + 1;
      assert (n + 1) * size == n * size + size;
      assert n > 1 ==> n * size == (n - 1) * size + size;
    }
  }

  /** Splitting succeeds exactly when the payload fits the pieces that can be numbered. */
  lemma FitsIffNumberable(f: FragmenterState, codec: Codec, inst: Instruction, mtu: nat)
    ensures MakeFragments(f, codec, inst, mtu).Ok? <==> |codec.encode(inst)| <= FINAL_BIT * PieceSize(mtu)
  {
    var size := PieceSize(mtu);
    var payload := codec.encode(inst);
    var n := |Pieces(NextId(f, inst, size), payload, size, 0)|;
    PieceCount(NextId(f, inst, size), payload, size, 0);
    if n <= FINAL_BIT {
      MulMonotone(n, FINAL_BIT, size);
    } else {
      MulMonotone(FINAL_BIT, n - 1, size);
    }
  }

  lemma MulMonotone(a: nat, b: nat, c: nat)
    requires a <= b
    ensures a * c <= b * c
  {
  }

  // ---------- reassembly ----------

  /** Fragments of one instruction, keyed by number; `total` is known once the final one came. */
  datatype AssemblyState = AssemblyState(
    fragments: map<nat, Fragment>, bytesHeld: int, total: Option<nat>, currentId: Option<nat>)

  const FRESH_ASSEMBLY := AssemblyState(map[], 0, None, None)

  function Restart(id: nat): AssemblyState {
    AssemblyState(map[], 0, None, Some(id))
  }

  /** Bytes held under the numbers from `lo` up to `hi`. */
  function Held(m: map<nat, Fragment>, lo: nat, hi: nat): nat
    requires lo <= hi
    decreases hi - lo, m
  {
    if lo == hi then 0 else Held(m, lo, hi - 1) + if hi - 1 in m then |m[hi - 1].contents| else 0
  }

  /** The contents held under the numbers below `hi`, in order. */
  function Joined(m: map<nat, Fragment>, hi: nat): seq<Byte>
    decreases hi, m
  {
    if hi == 0 then [] else Joined(m, hi - 1) + if hi - 1 in m then m[hi - 1].contents else []
  }

  function Truncate(s: AssemblyState, total: nat): AssemblyState {
    s.(fragments := map n | n in s.fragments && n < total :: s.fragments[n],
       bytesHeld := s.bytesHeld - if total < FINAL_BIT then Held(s.fragments, total, FINAL_BIT) else 0,
       total := Some(total))
  }

  /** The assembly a piece is added to: an empty one for a new id, and one cut to the numbers a last piece allows. */
  function Ready(s: AssemblyState, frag: Fragment): AssemblyState {
    var s := if s.currentId != Some(frag.id) then Restart(frag.id) else s;
    if frag.isFinal then Truncate(s, frag.num + 1) else s
  }

  /** A duplicate is ignored. */
  function Keep(s: AssemblyState, frag: Fragment): AssemblyState {
    if frag.num in s.fragments then s
    else s.(fragments := s.fragments[frag.num := frag], bytesHeld := s.bytesHeld + |frag.contents|)
  }

  /** Take one fragment in; the flag says whether the instruction is now complete. */
  function AddFragment(s: AssemblyState, frag: Fragment): (AssemblyState, bool) {
    var s := Ready(s, frag);
    if s.bytesHeld + |frag.contents| > MAX_ASSEMBLY_BYTES then (Restart(frag.id), false)
    else (Keep(s, frag), Complete(Keep(s, frag)))
  }

  predicate Complete(s: AssemblyState) {
    s.total == Some(|s.fragments|)
  }

  function GetAssembly(s: AssemblyState, codec: Codec): (AssemblyState, Result<Instruction>) {
    if !Complete(s) then (s, Err(Malformed))
    else
      match codec.decode(Joined(s.fragments, FINAL_BIT))
      case None => (s, Err(Malformed))
      case Some(inst) => (AssemblyState(map[], 0, None, s.currentId), Ok(inst))
  }

  /** Everything an assembly holds for its current instruction is a piece of `ps`. */
  ghost predicate Collecting(s: AssemblyState, ps: seq<Fragment>) {
    && |ps| <= FINAL_BIT
    && (forall n <- s.fragments :: n < |ps| && s.fragments[n] == ps[n])
    && (s.total.Some? ==> s.total.value == |ps|)
    && s.bytesHeld == Held(s.fragments, 0, FINAL_BIT)
  }

  /** `ps` is the whole output of one call that split an instruction. */
  ghost predicate OneCall(id: nat, ps: seq<Fragment>) {
    1 <= |ps| <= FINAL_BIT &&
    forall k | 0 <= k < |ps| :: ps[k].id == id && ps[k].num == k && (ps[k].isFinal <==> k == |ps| - 1)
  }

  lemma PiecesAreOneCall(f: FragmenterState, codec: Codec, inst: Instruction, mtu: nat)
    requires MakeFragments(f, codec, inst, mtu).Ok?
    ensures var ps := MakeFragments(f, codec, inst, mtu).value;
            OneCall(NextId(f, inst, PieceSize(mtu)), ps) && Contents(ps) == codec.encode(inst) &&
            forall k | 0 <= k < |ps| :: |ps[k].contents| <= PieceSize(mtu)
  {
    var size := PieceSize(mtu);
    var id := NextId(f, inst, size);
    var payload := codec.encode(inst);
    PiecesCarryPayload(id, payload, size, 0);
    forall k | 0 <= k < |Pieces(id, payload, size, 0)|
      ensures var p := Pieces(id, payload, size, 0)[k];
              p.id == id && p.num == k && |p.contents| <= size &&
              (p.isFinal <==> k == |Pieces(id, payload, size, 0)| - 1)
    {
      PieceAt(id, payload, size, 0, k);
    }
  }

  lemma {:induction false} HeldAdd(m: map<nat, Fragment>, frag: Fragment, lo: nat, hi: nat)
    requires lo <= frag.num && lo <= hi && frag.num !in m
    ensures Held(m[frag.num := frag], lo, hi) == Held(m, lo, hi) + if frag.num < hi then |frag.contents| else 0
    decreases hi - lo
  {
    if lo < hi {
      HeldAdd(m, frag, lo, hi - 1);
    }
  }

  lemma {:induction false} HeldNothing(m: map<nat, Fragment>, lo: nat, hi: nat)
    requires lo <= hi && forall n <- m :: n < lo || n >= hi
    ensures Held(m, lo, hi) == 0
    decreases hi - lo
  {
    if lo < hi {
      HeldNothing(m, lo, hi - 1);
    }
  }

  /** Held bytes never exceed the pieces they are part of. */
  lemma {:induction false} HeldAtMost(m: map<nat, Fragment>, ps: seq<Fragment>, hi: nat)
    requires forall n <- m :: n < |ps| && m[n] == ps[n]
    requires hi <= |ps|
    ensures Held(m, 0, hi) <= |Contents(ps[..hi])|
  {
    if hi > 0 {
      HeldAtMost(m, ps, hi - 1);
      ContentsSnoc(ps[..hi - 1], ps[hi - 1]);
      assert ps[..hi] == ps[..hi - 1] + [ps[hi - 1]];
    }
  }

  lemma {:induction false} ContentsSnoc(ps: seq<Fragment>, p: Fragment)
    ensures Contents(ps + [p]) == Contents(ps) + p.contents
  {
    if ps != [] {
      assert (ps + [p])[1..] == ps[1..] + [p];
      ContentsSnoc(ps[1..], p);
      assert Contents(ps + [p]) == ps[0].contents + (Contents(ps[1..]) + p.contents);
    } else {
      assert ([p])[1..] == [];
      assert ps + [p] == [p];
    }
  }

  lemma {:induction false} HeldSplit(m: map<nat, Fragment>, mid: nat, hi: nat)
    requires mid <= hi && forall n <- m :: n < mid
    ensures Held(m, 0, hi) == Held(m, 0, mid)
    decreases hi
  {
    if mid < hi {
      HeldSplit(m, mid, hi - 1);
    }
  }

  lemma RestartCollects(id: nat, ps: seq<Fragment>)
    requires |ps| <= FINAL_BIT
    ensures Collecting(Restart(id), ps)
  {
    HeldNothing(Restart(id).fragments, 0, FINAL_BIT);
  }

  lemma ReadyCollects(s: AssemblyState, id: nat, ps: seq<Fragment>, k: nat)
    requires OneCall(id, ps) && k < |ps|
    requires s.currentId == Some(id) ==> Collecting(s, ps)
    ensures var s' := Ready(s, ps[k]);
            && Collecting(s', ps) && s'.currentId == Some(id)
            && s'.fragments == (if s.currentId == Some(id) then s.fragments else map[])
            && (s'.total.Some? <==> (s.currentId == Some(id) && s.total.Some?) || k == |ps| - 1)
  {
    var s1 := if s.currentId != Some(id) then Restart(id) else s;
    RestartCollects(id, ps);
    if ps[k].isFinal {
      TruncateNothing(s1, ps);
    }
  }

  lemma KeepCollects(s: AssemblyState, id: nat, ps: seq<Fragment>, k: nat)
    requires OneCall(id, ps) && k < |ps| && Collecting(s, ps)
    ensures Collecting(Keep(s, ps[k]), ps)
  {
    if k !in s.fragments {
      HeldAdd(s.fragments, ps[k], 0, FINAL_BIT);
    }
  }

  /** One piece keeps the assembly collecting pieces of the same call, whatever it held before. */
  lemma AddKeepsCollecting(s: AssemblyState, id: nat, ps: seq<Fragment>, k: nat)
    requires OneCall(id, ps) && k < |ps|
    requires s.currentId == Some(id) ==> Collecting(s, ps)
    ensures var (s', done) := AddFragment(s, ps[k]);
            s'.currentId == Some(id) && Collecting(s', ps) && (done ==> Complete(s'))
  {
    ReadyCollects(s, id, ps, k);
    RestartCollects(id, ps);
    KeepCollects(Ready(s, ps[k]), id, ps, k);
  }

  /** The final fragment of an honest call never removes anything already held. */
  lemma TruncateNothing(s: AssemblyState, ps: seq<Fragment>)
    requires Collecting(s, ps)
    ensures Truncate(s, |ps|) == s.(total := Some(|ps|))
  {
    var kept := map n | n in s.fragments && n < |ps| :: s.fragments[n];
    assert kept == s.fragments;
    if |ps| < FINAL_BIT {
      HeldNothing(s.fragments, |ps|, FINAL_BIT);
    }
  }

  lemma {:induction false} KeysBelow(keys: set<nat>, n: nat)
    requires forall k <- keys :: k < n
    ensures |keys| <= n
    ensures |keys| == n ==> forall k | 0 <= k < n :: k in keys
  {
    if n == 0 {
      assert keys == {};
    } else {
      KeysBelow(keys - {n - 1}, n - 1);
    }
  }

  lemma {:induction false} AllKeysCount(keys: set<nat>, n: nat)
    requires forall k :: k in keys <==> 0 <= k < n
    ensures |keys| == n
  {
    if n > 0 {
      AllKeysCount(keys - {n - 1}, n - 1);
    } else {
      assert keys == {};
    }
  }

  lemma {:induction false} JoinedIsContents(m: map<nat, Fragment>, ps: seq<Fragment>, hi: nat)
    requires forall k | 0 <= k < |ps| :: k in m && m[k] == ps[k]
    requires forall n <- m :: n < |ps|
    ensures Joined(m, hi) == Contents(ps[..Min(hi, |ps|)])
  {
    if hi > 0 {
      JoinedIsContents(m, ps, hi - 1);
      if hi <= |ps| {
        ContentsSnoc(ps[..hi - 1], ps[hi - 1]);
        assert ps[..hi] == ps[..hi - 1] + [ps[hi - 1]];
      }
    }
  }

  /** An assembly reports complete exactly when it holds every piece, and then it holds the payload. */
  lemma CompleteIffAll(s: AssemblyState, ps: seq<Fragment>)
    requires Collecting(s, ps)
    ensures Complete(s) <==> s.total.Some? && forall k | 0 <= k < |ps| :: k in s.fragments
    ensures Complete(s) ==> Joined(s.fragments, FINAL_BIT) == Contents(ps)
  {
    KeysBelow(s.fragments.Keys, |ps|);
    assert |s.fragments| == |s.fragments.Keys|;
    if s.total.Some? && forall k | 0 <= k < |ps| :: k in s.fragments {
      AllKeysCount(s.fragments.Keys, |ps|);
    }
    if Complete(s) {
      JoinedIsContents(s.fragments, ps, FINAL_BIT);
      assert ps[..|ps|] == ps;
    }
  }

  // ---------- any delivery order of one call's pieces ----------

  /** The assembly after pieces `order[0]`, `order[1]`, ... of `ps` arrived. */
  function AfterDelivery(s: AssemblyState, ps: seq<Fragment>, order: seq<nat>): AssemblyState
    requires forall i | 0 <= i < |order| :: order[i] < |ps|
  {
    if order == [] then s
    else AddFragment(AfterDelivery(s, ps, order[..|order| - 1]), ps[order[|order| - 1]]).0
  }

  /** What is held of the instruction `id` before another piece of it comes: nothing, after another instruction's. */
  function Begun(s: AssemblyState, id: nat): AssemblyState {
    if s.currentId == Some(id) then s else Restart(id)
  }

  /**
   * Pieces of one call may arrive in any order, any number of times, on top of what arrived of it before or of
   * what another instruction left behind. The arrival that makes the set whole is the first to report complete,
   * the bytes held are exactly the contents held, and what is put together is the payload.
   */
  lemma {:induction false} ReassemblyInAnyOrder(s: AssemblyState, id: nat, ps: seq<Fragment>, order: seq<nat>,
                                                size: nat)
    requires OneCall(id, ps) && (s.currentId == Some(id) ==> Collecting(s, ps))
    requires forall k | 0 <= k < |ps| :: |ps[k].contents| <= size
    requires |Contents(ps)| + size <= MAX_ASSEMBLY_BYTES
    requires order != [] && forall i | 0 <= i < |order| :: order[i] < |ps|
    ensures var had := Begun(s, id);
            var before := AfterDelivery(s, ps, order[..|order| - 1]);
            var (after, done) := AddFragment(before, ps[order[|order| - 1]]);
            && after == AfterDelivery(s, ps, order)
            && after.currentId == Some(id) && Collecting(after, ps)
            && (done <==>
                  && (had.total.Some? || |ps| - 1 in order)
                  && forall k | 0 <= k < |ps| :: k in order || k in had.fragments)
            && (forall n :: n in after.fragments <==> n in order || n in had.fragments)
            && after.bytesHeld == Held(after.fragments, 0, FINAL_BIT)
            && (done ==> Joined(after.fragments, FINAL_BIT) == Contents(ps))
  {
    var init := order[..|order| - 1];
    var k := order[|order| - 1];
    var before := AfterDelivery(s, ps, init);
    assert order == init + [k];
    if init != [] {
      HeldSoFar(s, id, ps, init, size);
    }
    AddOnePiece(before, id, ps, k, size);
    HeldSoFar(s, id, ps, order, size);
    CompleteIffAll(AfterDelivery(s, ps, order), ps);
  }

  /** The piece is recorded: the cap is never hit when the payload and one piece fit under it. */
  lemma AddOnePiece(s: AssemblyState, id: nat, ps: seq<Fragment>, k: nat, size: nat)
    requires OneCall(id, ps) && k < |ps| && |ps[k].contents| <= size
    requires |Contents(ps)| + size <= MAX_ASSEMBLY_BYTES
    requires s.currentId == Some(id) ==> Collecting(s, ps)
    ensures var (s', done) := AddFragment(s, ps[k]);
            && s'.currentId == Some(id) && Collecting(s', ps) && done == Complete(s')
            && s'.fragments.Keys == (if s.currentId == Some(id) then s.fragments.Keys else {}) + {k}
            && (s'.total.Some? <==> (s.currentId == Some(id) && s.total.Some?) || k == |ps| - 1)
  {
    AddKeepsCollecting(s, id, ps, k);
    ReadyCollects(s, id, ps, k);
    var ready := Ready(s, ps[k]);
    RoomForOne(ready, ps, size);
    hide Collecting, Contents;
    assert AddFragment(s, ps[k]) == (Keep(ready, ps[k]), Complete(Keep(ready, ps[k])));
    hide AddFragment, Ready, Complete;
  }

  lemma RoomForOne(s: AssemblyState, ps: seq<Fragment>, size: nat)
    requires Collecting(s, ps) && |Contents(ps)| + size <= MAX_ASSEMBLY_BYTES
    ensures s.bytesHeld + size <= MAX_ASSEMBLY_BYTES
  {
    HeldAtMost(s.fragments, ps, |ps|);
    HeldSplit(s.fragments, |ps|, FINAL_BIT);
    assert ps[..|ps|] == ps;
  }

  /** Just what was held before and what arrived is held, and the total is known when the final piece has come. */
  lemma {:induction false} HeldSoFar(s: AssemblyState, id: nat, ps: seq<Fragment>, order: seq<nat>, size: nat)
    requires OneCall(id, ps) && (s.currentId == Some(id) ==> Collecting(s, ps))
    requires forall k | 0 <= k < |ps| :: |ps[k].contents| <= size
    requires |Contents(ps)| + size <= MAX_ASSEMBLY_BYTES
    requires order != [] && forall i | 0 <= i < |order| :: order[i] < |ps|
    ensures var had, after := Begun(s, id), AfterDelivery(s, ps, order);
            && after.currentId == Some(id) && Collecting(after, ps)
            && (after.total.Some? <==> had.total.Some? || |ps| - 1 in order)
            && (forall n :: n in after.fragments <==> n in order || n in had.fragments)
  {
    hide AddFragment, Collecting, Contents;
    var init := order[..|order| - 1];
    assert order == init + [order[|order| - 1]];
    if init != [] {
      HeldSoFar(s, id, ps, init, size);
    }
    AddOnePiece(AfterDelivery(s, ps, init), id, ps, order[|order| - 1], size);
  }
}

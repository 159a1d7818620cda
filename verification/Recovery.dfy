/** A connection that lost everything in flight recovers with one tick and one delivery. */
module Recovery {
  import opened Options
  import opened States
  import opened Instructions
  import opened Fragments
  import opened SenderSpec
  import opened TransportSpec
  import opened SenderProofs
  import opened ReceiverProofs
  import opened World
  import opened SyncProofs
  import opened SyncTheorems

  /** No state sent after the acknowledged one could still have an acknowledgement in flight. */
  ghost predicate NothingRecent(s: SenderState, env: Env) {
    forall i | 1 <= i < |s.sent| :: !Recent(s.sent[i], env.now, env.timeout)
  }

  /** The peer's newest state is everything `x` has written. */
  ghost predicate CaughtUp(x: Endpoint, y: Endpoint) {
    y.receiver.Valid() && Join(y.receivedBase, y.receiver.Newest().state) == x.written
  }

  /** With nothing recent a tick works from the front, so what it sends can always be applied. */
  lemma SendsFromFront(s: SenderState, l: Ledger, env: Env)
    requires SenderInv(s, l) && Bounded(s) && env.now >= l.clock && SmallBacklog(s)
    requires s.shutdown || s.Back().num + 1 < SHUTDOWN_NUM
    requires NothingRecent(s, env)
    ensures Chosen(s, env).0 == CalculateTimers(s, env.now, env.timeout, env.interval)
    ensures Chosen(s, env).0.assumed == 0
    ensures Attempt(s, env).Some? ==> Attempt(s, env).value.inst.oldNum == s.Front().num
  {
    TimersKeep(s, l, env.now, env.timeout, env.interval);
    AssumedIsEnd(s.sent, 0, env.now, env.timeout);
    if Attempt(s, env).Some? {
      AttemptHonest(s, l, env);
    }
  }

  /** A due tick with nothing to send has nothing left to send: the acknowledged state is everything. */
  lemma SilenceMeansAcknowledged(s: SenderState, l: Ledger, env: Env)
    requires SenderInv(s, l) && Bounded(s) && env.now >= l.clock && SmallBacklog(s)
    requires s.shutdown || s.Back().num + 1 < SHUTDOWN_NUM
    requires NothingRecent(s, env) && Attempt(s, env) == None
    requires Due(CalculateTimers(s, env.now, env.timeout, env.interval), env)
    ensures s.Front().num in l.numbers && l.numbers[s.Front().num] == l.written
  {
    SendsFromFront(s, l, env);
    ChosenKeeps(s, l, env);
    TimersKeep(s, l, env.now, env.timeout, env.interval);
    var (s2, diff) := Chosen(s, env);
    assert diff == [];
    EmptyDiffMeansAll(s2, Stripped(s, l, env.now));
  }

  lemma EmptyDiffMeansAll(s: SenderState, l: Ledger)
    requires SenderInv(s, l) && DiffFrom(s.current, s.Front().state) == []
    ensures s.Front().num in l.numbers && l.numbers[s.Front().num] == l.written
  {
    var front := s.Front();
    assert Booked(l, front);
    DiffIgnoresBase(l.base, s.current, front.state);
    DiffEmptyIffEqual(l.written, l.numbers[front.num]);
  }

  lemma AcknowledgedAllMeansCaughtUp(x: Endpoint, y: Endpoint)
    requires Link(x, y)
    requires x.sender.Front().num in x.numbers && x.numbers[x.sender.Front().num] == x.written
    ensures CaughtUp(x, y)
  {
    var front := x.sender.Front().num;
    NewestAtLeast(y.receiver.received, front);
    var newest := y.receiver.Newest().num;
    assert Before(x.numbers[front], x.numbers[newest]) && Before(x.numbers[newest], x.written);
    BeforeAntisymmetric(x.written, x.numbers[newest]);
  }

  lemma SilenceMeansCaughtUp(x: Endpoint, y: Endpoint, codec: Codec, env: Env)
    requires PairInv(x, y, codec) && Enabled(x, y, Tick(env)) && NothingRecent(x.sender, env)
    requires Due(CalculateTimers(x.sender, env.now, env.timeout, env.interval), env)
    requires Attempt(x.sender, env) == None
    ensures CaughtUp(x, y)
  {
    SilenceMeansAcknowledged(x.sender, LedgerOf(x), env);
    AcknowledgedAllMeansCaughtUp(x, y);
  }

  lemma NewestAtLeast(q: seq<TimestampedState>, num: nat)
    requires q != [] && Increasing(q) && Holds(q, num)
    ensures q[|q| - 1].num >= num
  {
  }

  lemma BeforeAntisymmetric(a: Content, b: Content)
    requires Before(a, b) && Before(b, a)
    ensures a == b
  {
  }

  /** The instruction of such a tick, taken in by a receiver that is not refusing to grow, catches it up. */
  lemma OneDeliveryCatchesUp(x: Endpoint, y: Endpoint, y': Endpoint, inst: Instruction, now: nat)
    requires Link(x, y) && inst in x.attempted && y.sender.Valid()
    requires inst.oldNum == x.sender.Front().num && inst.newNum == x.sender.Back().num
    requires x.numbers[inst.newNum] == x.written
    requires !Quenched(y.receiver.(received := ProcessThrowaway(y.receiver.received, inst.throwawayNum)), now)
    requires y'.receiver == ApplyInstruction(y.receiver, y.sender, inst, now).receiver
    requires y'.receivedBase == y.receivedBase
    ensures CaughtUp(x, y') && Holds(y'.receiver.received, inst.newNum)
  {
    hide Join, Before, DiffFrom, Fits, Advance;
    var r := y.receiver;
    var s1 := ProcessAcknowledgment(y.sender, inst.ackNum);
    if Holds(r.received, inst.newNum) {
      NewestAtLeast(r.received, inst.newNum);
    } else {
      var reference := Find(r.received, inst.oldNum, 0);
      FindFinds(r.received, inst.oldNum, 0);
      ThrowawayKeeps(r.received, inst.throwawayNum, y.receivedBase, x.numbers);
      var kept := r.(received := ProcessThrowaway(r.received, inst.throwawayNum));
      GrowKeeps(kept, s1, reference.value, inst, now, y.receivedBase, x.numbers);
    }
    assert y'.receiver.Newest().num == inst.newNum;
  }

  // ---------- instruction by instruction ----------

  /** A receiver that may grow, once it has thrown away what the instruction no longer needs. */
  ghost predicate MayGrow(r: ReceiverState, inst: Instruction, now: nat)
    requires r.Valid()
  {
    !Quenched(r.(received := ProcessThrowaway(r.received, inst.throwawayNum)), now)
  }

  lemma FrontAttempt(x: Endpoint, codec: Codec, env: Env)
    requires Sending(x) && env.now >= x.clock && SmallBacklog(x.sender)
    requires x.sender.shutdown || x.sender.Back().num + 1 < SHUTDOWN_NUM
    requires NothingRecent(x.sender, env) && Attempt(x.sender, env).Some?
    ensures var x' := TickAt(x, codec, env); var inst := Attempt(x.sender, env).value.inst;
            && x'.sender.Valid()
            && inst.oldNum == x'.sender.Front().num && inst.newNum == x'.sender.Back().num
            && inst.newNum in x'.numbers && x'.numbers[inst.newNum] == x'.written
  {
    hide TickAt, Attempt, Chosen, CalculateTimers, NothingRecent, QueueInv, NumbersInv, Honest;
    SendsFromFront(x.sender, LedgerOf(x), env);
    AttemptHonest(x.sender, LedgerOf(x), env);
    TickShape(x, codec, env);
  }

  lemma AttemptAppliedCatchesUp(x: Endpoint, y: Endpoint, y': Endpoint, codec: Codec, env: Env, now: nat)
    requires PairInv(x, y, codec) && Enabled(x, y, Tick(env)) && NothingRecent(x.sender, env)
    requires y.sender.Valid() && y.receiver.Valid() && Attempt(x.sender, env).Some?
    requires var inst := Attempt(x.sender, env).value.inst;
      MayGrow(y.receiver, inst, now) && y'.receiver == ApplyInstruction(y.receiver, y.sender, inst, now).receiver
    requires y'.receivedBase == y.receivedBase
    ensures CaughtUp(TickAt(x, codec, env), y')
    ensures Holds(y'.receiver.received, Attempt(x.sender, env).value.inst.newNum)
  {
    hide TickAt, Attempt, ApplyInstruction, CaughtUp, Quenched, SenderInv, Bounded, Receiving, WireInv, AssemblyInv,
      Holds, ProcessThrowaway, Codec.Faithful, NothingRecent;
    TickKeeps(x, y, codec, env);
    TickShape(x, codec, env);
    FrontAttempt(x, codec, env);
    OneDeliveryCatchesUp(TickAt(x, codec, env), y, y', Attempt(x.sender, env).value.inst, now);
  }

  /**
   * From every reachable state: once nothing unacknowledged is recent, the instruction a tick makes brings a
   * receiver that may grow up to everything written, whatever else either side holds.
   */
  lemma InstructionRecovers(w: World, side: Side, env: Env, now: nat)
    requires Reachable(w) && Enabled(w.At(side), w.Peer(side), Tick(env))
    requires NothingRecent(w.At(side).sender, env) && Attempt(w.At(side).sender, env).Some?
    ensures w.Peer(side).sender.Valid() && w.Peer(side).receiver.Valid()
    ensures var inst := Attempt(w.At(side).sender, env).value.inst;
      MayGrow(w.Peer(side).receiver, inst, now) ==>
        CaughtUp(Do(w, side, Tick(env)).At(side), ApplyAt(w.Peer(side), inst, now))
  {
    hide PairInv, TickAt, CaughtUp, NothingRecent, Attempt, ApplyInstruction, MayGrow;
    ReachableInv(w);
    InvPair(w, side);
    var x, y := w.At(side), w.Peer(side);
    BothValid(x, y, w.codec);
    var inst := Attempt(x.sender, env).value.inst;
    if MayGrow(y.receiver, inst, now) {
      AttemptAppliedCatchesUp(x, y, ApplyAt(y, inst, now), w.codec, env, now);
    }
    assert Do(w, side, Tick(env)).At(side) == TickAt(x, w.codec, env);
  }

  lemma BothValid(x: Endpoint, y: Endpoint, codec: Codec)
    requires PairInv(x, y, codec)
    ensures y.sender.Valid() && y.receiver.Valid() && x.sender.Valid() && x.receiver.Valid()
  {
  }

  // ---------- the same, fragment by fragment ----------

  /** A datagram arriving: which piece it carries, and when. */
  datatype Datagram = Datagram(piece: nat, at: nat)

  function DeliverAll(y: Endpoint, codec: Codec, ps: seq<Fragment>, arrivals: seq<Datagram>): (r: Endpoint)
    requires y.sender.Valid() && y.receiver.Valid()
    requires forall d <- arrivals :: d.piece < |ps|
    ensures r.sender.Valid() && r.receiver.Valid() && SameHistory(y, r)
  {
    if arrivals == [] then y
    else
      var last := arrivals[|arrivals| - 1];
      DeliverTo(DeliverAll(y, codec, ps, arrivals[..|arrivals| - 1]), codec, ps[last.piece], last.at)
  }

  /** `ps` are all the pieces of one instruction, which the codec does not refuse and the cap leaves room for. */
  ghost predicate Carry(ps: seq<Fragment>, id: nat, inst: Instruction, codec: Codec, size: nat) {
    && OneCall(id, ps) && Contents(ps) == codec.encode(inst) && codec.decode(codec.encode(inst)) == Some(inst)
    && (forall k | 0 <= k < |ps| :: |ps[k].contents| <= size) && |Contents(ps)| + size <= MAX_ASSEMBLY_BYTES
  }

  /** Nothing has come of these arrivals but pieces held. */
  ghost predicate StillCollecting(y: Endpoint, y': Endpoint, ps: seq<Fragment>, arrivals: seq<Datagram>) {
    && y'.receiver == y.receiver && y'.sender == y.sender
    && (forall d <- arrivals :: d.piece in y'.assembly.fragments && (d.piece == |ps| - 1 ==> y'.assembly.total.Some?))
    && (arrivals != [] ==> !Complete(y'.assembly))
  }

  /** The instruction was taken in when one of these arrived, and nothing after it changed what is held. */
  ghost predicate TakenIn(y: Endpoint, y': Endpoint, inst: Instruction, arrivals: seq<Datagram>)
    requires y.receiver.Valid() && y.sender.Valid()
  {
    exists d <- arrivals :: y'.receiver == ApplyInstruction(y.receiver, y.sender, inst, d.at).receiver
  }

  /** One piece more, on top of any pieces of the same instruction, is only held or completes the whole. */
  lemma OneArrival(y: Endpoint, codec: Codec, id: nat, inst: Instruction, ps: seq<Fragment>, size: nat, d: Datagram)
    requires y.sender.Valid() && y.receiver.Valid() && Carry(ps, id, inst, codec, size) && d.piece < |ps|
    requires y.assembly.currentId == Some(id) ==> Collecting(y.assembly, ps)
    ensures var y' := DeliverTo(y, codec, ps[d.piece], d.at); var had := Begun(y.assembly, id);
      && y'.assembly.currentId == Some(id) && Collecting(y'.assembly, ps)
      && (y'.receiver == ApplyInstruction(y.receiver, y.sender, inst, d.at).receiver
          || (&& y'.receiver == y.receiver && y'.sender == y.sender && !Complete(y'.assembly)
              && y'.assembly.fragments.Keys == had.fragments.Keys + {d.piece}
              && (y'.assembly.total.Some? <==> had.total.Some? || d.piece == |ps| - 1)))
  {
    hide AddFragment, Contents, ApplyInstruction;
    AddOnePiece(y.assembly, id, ps, d.piece, size);
    var (assembly, done) := AddFragment(y.assembly, ps[d.piece]);
    RestartCollects(id, ps);
    if done {
      CompleteIffAll(assembly, ps);
      assert GetAssembly(assembly, codec) == (Restart(id), Fragments.Ok(inst));
    }
  }

  lemma RepeatIsIgnored(r: ReceiverState, s: SenderState, inst: Instruction, now: nat)
    requires r.Valid() && s.Valid() && Holds(r.received, inst.newNum)
    ensures ApplyInstruction(r, s, inst, now).receiver == r
  {
  }

  lemma CollectsNone(y: Endpoint, ps: seq<Fragment>)
    ensures StillCollecting(y, y, ps, [])
  {
  }

  lemma TakenStaysTaken(y: Endpoint, z: Endpoint, y': Endpoint, inst: Instruction, arrivals: seq<Datagram>)
    requires y.receiver.Valid() && y.sender.Valid() && z.receiver.Valid() && z.sender.Valid() && arrivals != []
    requires var init, last := arrivals[..|arrivals| - 1], arrivals[|arrivals| - 1];
      && TakenIn(y, z, inst, init)
      && (y'.receiver == z.receiver || y'.receiver == ApplyInstruction(z.receiver, z.sender, inst, last.at).receiver)
    requires forall d <- arrivals ::
      Holds(ApplyInstruction(y.receiver, y.sender, inst, d.at).receiver.received, inst.newNum)
    ensures TakenIn(y, y', inst, arrivals)
  {
    hide ApplyInstruction, Holds;
    var d :| d in arrivals[..|arrivals| - 1]
      && z.receiver == ApplyInstruction(y.receiver, y.sender, inst, d.at).receiver;
    assert d in arrivals;
    RepeatIsIgnored(z.receiver, z.sender, inst, arrivals[|arrivals| - 1].at);
  }

  lemma CollectsOrTakes(y: Endpoint, z: Endpoint, y': Endpoint, id: nat, ps: seq<Fragment>, inst: Instruction,
                        arrivals: seq<Datagram>)
    requires y.receiver.Valid() && y.sender.Valid() && z.receiver.Valid() && z.sender.Valid() && arrivals != []
    requires var init, last := arrivals[..|arrivals| - 1], arrivals[|arrivals| - 1];
      var had := Begun(z.assembly, id);
      && StillCollecting(y, z, ps, init) && (init != [] ==> z.assembly.currentId == Some(id))
      && (y'.receiver == ApplyInstruction(z.receiver, z.sender, inst, last.at).receiver
          || (&& y'.receiver == z.receiver && y'.sender == z.sender && !Complete(y'.assembly)
              && y'.assembly.fragments.Keys == had.fragments.Keys + {last.piece}
              && (y'.assembly.total.Some? <==> had.total.Some? || last.piece == |ps| - 1)))
    ensures StillCollecting(y, y', ps, arrivals) || TakenIn(y, y', inst, arrivals)
  {
    hide ApplyInstruction, Complete;
    var init, last := arrivals[..|arrivals| - 1], arrivals[|arrivals| - 1];
    assert arrivals == init + [last];
    if y'.receiver == ApplyInstruction(z.receiver, z.sender, inst, last.at).receiver {
      assert last in arrivals;
    } else {
      forall d | d in arrivals
        ensures d.piece in y'.assembly.fragments.Keys && (d.piece == |ps| - 1 ==> y'.assembly.total.Some?)
      {
        assert d in init || d == last;
      }
    }
  }

  /** Pieces arriving in any order, with repeats and after the set is whole, apply their instruction at most once. */
  lemma {:induction false} ArrivalsApplyOnce(y: Endpoint, codec: Codec, id: nat, inst: Instruction, ps: seq<Fragment>,
                                             size: nat, arrivals: seq<Datagram>)
    requires y.sender.Valid() && y.receiver.Valid() && Carry(ps, id, inst, codec, size)
    requires y.assembly.currentId == Some(id) ==> Collecting(y.assembly, ps)
    requires forall d <- arrivals :: d.piece < |ps|
    requires forall d <- arrivals ::
      Holds(ApplyInstruction(y.receiver, y.sender, inst, d.at).receiver.received, inst.newNum)
    ensures var y' := DeliverAll(y, codec, ps, arrivals);
      && (y'.assembly.currentId == Some(id) ==> Collecting(y'.assembly, ps))
      && (arrivals != [] ==> y'.assembly.currentId == Some(id))
      && (StillCollecting(y, y', ps, arrivals) || TakenIn(y, y', inst, arrivals))
  {
    hide Carry, Collecting, ApplyInstruction, Holds, DeliverTo, Complete, StillCollecting, TakenIn;
    if arrivals == [] {
      CollectsNone(y, ps);
    } else {
      var init, last := arrivals[..|arrivals| - 1], arrivals[|arrivals| - 1];
      ArrivalsApplyOnce(y, codec, id, inst, ps, size, init);
      var z := DeliverAll(y, codec, ps, init);
      OneArrival(z, codec, id, inst, ps, size, last);
      if TakenIn(y, z, inst, init) {
        TakenStaysTaken(y, z, DeliverAll(y, codec, ps, arrivals), inst, arrivals);
      } else {
        CollectsOrTakes(y, z, DeliverAll(y, codec, ps, arrivals), id, ps, inst, arrivals);
      }
    }
  }

  /** Every one of `n` pieces arrives. */
  ghost predicate Covers(arrivals: seq<Datagram>, n: nat) {
    forall k: nat | k < n :: Arrives(arrivals, k)
  }

  ghost predicate Arrives(arrivals: seq<Datagram>, k: nat) {
    exists d <- arrivals :: d.piece == k
  }

  /** Once every piece has come the instruction has been taken in. */
  lemma AllArrived(y: Endpoint, codec: Codec, id: nat, inst: Instruction, ps: seq<Fragment>, size: nat,
                   arrivals: seq<Datagram>)
    requires y.sender.Valid() && y.receiver.Valid() && Carry(ps, id, inst, codec, size)
    requires y.assembly.currentId == Some(id) ==> Collecting(y.assembly, ps)
    requires (forall d <- arrivals :: d.piece < |ps|) && Covers(arrivals, |ps|)
    requires forall d <- arrivals ::
      Holds(ApplyInstruction(y.receiver, y.sender, inst, d.at).receiver.received, inst.newNum)
    ensures TakenIn(y, DeliverAll(y, codec, ps, arrivals), inst, arrivals)
  {
    hide Collecting, ApplyInstruction, Holds, DeliverAll, Complete, Contents;
    ArrivalsApplyOnce(y, codec, id, inst, ps, size, arrivals);
    var y' := DeliverAll(y, codec, ps, arrivals);
    assert Arrives(arrivals, |ps| - 1);
    if StillCollecting(y, y', ps, arrivals) {
      AllHeldIsComplete(y, y', ps, arrivals);
    }
  }

  lemma AllHeldIsComplete(y: Endpoint, y': Endpoint, ps: seq<Fragment>, arrivals: seq<Datagram>)
    requires Covers(arrivals, |ps|) && ps != [] && Collecting(y'.assembly, ps)
    ensures arrivals != [] && !StillCollecting(y, y', ps, arrivals)
  {
    hide Collecting, Complete, Contents;
    assert Arrives(arrivals, |ps| - 1);
    CompleteIffAll(y'.assembly, ps);
    if StillCollecting(y, y', ps, arrivals) {
      forall k: nat | k < |ps|
        ensures k in y'.assembly.fragments
      {
        assert Arrives(arrivals, k);
      }
    }
  }

  /**
   * The pieces of a tick's instruction get through: all of them arrive, in any order, at any times, with repeats
   * and with some after the set is whole. The receiver may grow, and the instruction is small enough to be put
   * together. Of what the receiver holds already, pieces of this very instruction included, nothing is asked.
   */
  ghost predicate GetsThrough(x: Endpoint, y: Endpoint, codec: Codec, env: Env, arrivals: seq<Datagram>)
    requires x.sender.Valid() && y.receiver.Valid() && Attempt(x.sender, env).Some?
  {
    var inst := Attempt(x.sender, env).value.inst;
    var pieces := SenderSpec.Tick(x.sender, x.fragmenter, codec, env).pieces;
    var size := PieceSize(FragmentRoom(env.mtu));
    && |codec.encode(inst)| <= FINAL_BIT * size && |codec.encode(inst)| + size <= MAX_ASSEMBLY_BYTES
    && codec.decode(codec.encode(inst)) == Some(inst)
    && (forall d <- arrivals :: d.piece < |pieces| && MayGrow(y.receiver, inst, d.at)) && Covers(arrivals, |pieces|)
  }

  /** The pieces of the attempt are one call's, and carry the whole instruction. */
  lemma AttemptPieces(x: Endpoint, codec: Codec, env: Env)
    requires x.sender.Valid() && Attempt(x.sender, env).Some?
    requires |codec.encode(Attempt(x.sender, env).value.inst)| <= FINAL_BIT * PieceSize(FragmentRoom(env.mtu))
    ensures var r := SenderSpec.Tick(x.sender, x.fragmenter, codec, env);
            var inst := Attempt(x.sender, env).value.inst;
            var size := PieceSize(FragmentRoom(env.mtu));
            && OneCall(r.fragmenter.nextId, r.pieces)
            && Contents(r.pieces) == codec.encode(inst)
            && (forall k | 0 <= k < |r.pieces| :: |r.pieces[k].contents| <= size)
            && r.pieces == PiecesOf(Issue(inst, size), r.fragmenter.nextId, codec)
  {
    var inst := Attempt(x.sender, env).value.inst;
    FitsIffNumberable(x.fragmenter, codec, inst, FragmentRoom(env.mtu));
    PiecesAreOneCall(x.fragmenter, codec, inst, FragmentRoom(env.mtu));
  }

  /** Whatever the peer has of the attempt's id already is pieces of the attempt. */
  lemma PeerCollectsAttempt(x: Endpoint, y: Endpoint, codec: Codec, env: Env)
    requires PairInv(x, y, codec) && Enabled(x, y, Tick(env)) && Attempt(x.sender, env).Some?
    ensures var r := SenderSpec.Tick(x.sender, x.fragmenter, codec, env);
            var issue := Issue(Attempt(x.sender, env).value.inst, PieceSize(FragmentRoom(env.mtu)));
            y.assembly.currentId == Some(r.fragmenter.nextId) ==>
              Collecting(y.assembly, PiecesOf(issue, r.fragmenter.nextId, codec))
  {
    hide Link, WireInv, Collecting, PiecesOf, Attempt;
    TickKeeps(x, y, codec, env);
    TickFragments(x, codec, env);
    FragmenterAfter(x, codec, env);
  }

  lemma FragmenterAfter(x: Endpoint, codec: Codec, env: Env)
    requires x.sender.Valid()
    ensures TickAt(x, codec, env).fragmenter == SenderSpec.Tick(x.sender, x.fragmenter, codec, env).fragmenter
  {
    hide SenderSpec.Tick;
  }

  lemma DeliveredAttemptCatchesUp(x: Endpoint, y: Endpoint, codec: Codec, env: Env, arrivals: seq<Datagram>)
    requires PairInv(x, y, codec) && Enabled(x, y, Tick(env)) && NothingRecent(x.sender, env)
    requires y.sender.Valid() && y.receiver.Valid()
    requires Attempt(x.sender, env).Some? && GetsThrough(x, y, codec, env, arrivals)
    ensures var pieces := SenderSpec.Tick(x.sender, x.fragmenter, codec, env).pieces;
            CaughtUp(TickAt(x, codec, env), DeliverAll(y, codec, pieces, arrivals))
  {
    hide PairInv, TickAt, CaughtUp, NothingRecent, Attempt, SenderSpec.Tick, ApplyInstruction, Holds, Collecting,
      OneCall, Contents, MayGrow, PiecesOf, DeliverAll, Covers;
    var inst := Attempt(x.sender, env).value.inst;
    var r := SenderSpec.Tick(x.sender, x.fragmenter, codec, env);
    var y' := DeliverAll(y, codec, r.pieces, arrivals);
    AttemptPieces(x, codec, env);
    PeerCollectsAttempt(x, y, codec, env);
    forall d | d in arrivals
      ensures Holds(ApplyInstruction(y.receiver, y.sender, inst, d.at).receiver.received, inst.newNum)
    {
      AttemptAppliedCatchesUp(x, y, ApplyAt(y, inst, d.at), codec, env, d.at);
    }
    AllArrived(y, codec, r.fragmenter.nextId, inst, r.pieces, PieceSize(FragmentRoom(env.mtu)), arrivals);
    var d :| d in arrivals && y'.receiver == ApplyInstruction(y.receiver, y.sender, inst, d.at).receiver;
    AttemptAppliedCatchesUp(x, y, y', codec, env, d.at);
  }

  /**
   * Recovery: from every reachable state, once nothing unacknowledged is recent, a due tick either finds
   * the peer holding everything written, or sends pieces whose arrival leaves it holding everything.
   */
  lemma Recovers(w: World, side: Side, env: Env, arrivals: seq<Datagram>)
    requires Reachable(w) && Enabled(w.At(side), w.Peer(side), Tick(env))
    requires Due(CalculateTimers(w.At(side).sender, env.now, env.timeout, env.interval), env)
    requires NothingRecent(w.At(side).sender, env)
    ensures w.Peer(side).sender.Valid() && w.Peer(side).receiver.Valid()
    ensures Attempt(w.At(side).sender, env) == None ==> CaughtUp(w.At(side), w.Peer(side))
    ensures Attempt(w.At(side).sender, env).Some? && GetsThrough(w.At(side), w.Peer(side), w.codec, env, arrivals) ==>
              var pieces := SenderSpec.Tick(w.At(side).sender, w.At(side).fragmenter, w.codec, env).pieces;
              CaughtUp(Do(w, side, Tick(env)).At(side), DeliverAll(w.Peer(side), w.codec, pieces, arrivals))
  {
    hide PairInv, TickAt, DeliverAll, CaughtUp, GetsThrough, NothingRecent, Attempt, SenderSpec.Tick, CalculateTimers;
    ReachableInv(w);
    InvPair(w, side);
    var x := w.At(side);
    var y := w.Peer(side);
    BothValid(x, y, w.codec);
    if Attempt(x.sender, env) == None {
      SilenceMeansCaughtUp(x, y, w.codec, env);
    } else if GetsThrough(x, y, w.codec, env, arrivals) {
      DeliveredAttemptCatchesUp(x, y, w.codec, env, arrivals);
    }
    assert Do(w, side, Tick(env)).At(side) == TickAt(x, w.codec, env);
  }
}

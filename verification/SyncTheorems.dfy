/** What the transport promises over whole runs, whatever the network does. */
module SyncTheorems {
  import opened Options
  import opened States
  import opened Instructions
  import opened Fragments
  import opened SenderSpec
  import opened TransportSpec
  import opened SenderProofs
  import opened ReceiverProofs
  import opened World
  import opened SyncProofs

  // ---------- histories only grow ----------

  ghost predicate Grows(x: Endpoint, x': Endpoint) {
    && Extends(x.numbers, x'.numbers) && IssuedMore(x, x')
    && Before(x.written, x'.written) && Before(x.delivered, x'.delivered)
    && x.attempted <= x'.attempted && x.wire <= x'.wire
  }

  lemma ActGrows(x: Endpoint, y: Endpoint, codec: Codec, step: Step)
    requires codec.Faithful() && PairInv(x, y, codec) && Enabled(x, y, step)
    ensures Grows(x, Act(x, y, codec, step))
  {
    hide DeliverTo, TickAt, CollectFrom, CalculateTimers, SenderInv, ReceiverInv, WireInv, AssemblyInv;
    match step
    case Tick(env) => TickGrows(x, codec, env);
    case Collect => CollectGrows(x, y);
    case Deliver(frag, now) => assert SameHistory(x, DeliverTo(x, codec, frag, now));
    case Write(more) => WriteGrows(x, more);
    case Shutdown(_) =>
    case Wait(_, _, _) =>
  }

  lemma WriteGrows(x: Endpoint, more: Growth)
    requires Sending(x) && Accepts(x.sender.current, more)
    ensures Grows(x, WriteTo(x, more))
  {
    GrownInPlace(x.sentBase, x.sender.current, more);
  }

  lemma CollectGrows(x: Endpoint, y: Endpoint)
    requires Link(x, y) && Link(y, x) && Fits(x.receiver.Newest().state, x.receiver.last)
    ensures Grows(x, CollectFrom(x))
  {
    CollectLinks(y, x);
  }

  lemma TickGrows(x: Endpoint, codec: Codec, env: Env)
    requires Sending(x) && WireInv(x, codec) && env.now >= x.clock && SmallBacklog(x.sender)
    requires x.sender.shutdown || x.sender.Back().num + 1 < SHUTDOWN_NUM
    ensures Grows(x, TickAt(x, codec, env))
  {
    hide TickAt;
    TickSends(x, codec, env);
    TickWires(x, codec, env);
    TickReceivesNothing(x, codec, env);
    TickAddsHistory(x, codec, env);
  }

  lemma TickAddsHistory(x: Endpoint, codec: Codec, env: Env)
    requires x.sender.Valid()
    ensures var x' := TickAt(x, codec, env); x.attempted <= x'.attempted && x.wire <= x'.wire && x'.written == x.written
  {
  }

  lemma StepGrows(w: World, mover: Side, step: Step, side: Side)
    requires Inv(w) && Enabled(w.At(mover), w.Peer(mover), step)
    ensures Grows(w.At(side), Do(w, mover, step).At(side))
  {
    InvPair(w, mover);
    ActGrows(w.At(mover), w.Peer(mover), w.codec, step);
    GrowsReflexive(w.At(side));
    assert Do(w, mover, step).At(side) == if side == mover then Act(w.At(mover), w.Peer(mover), w.codec, step)
      else w.At(side);
  }

  lemma GrowsReflexive(x: Endpoint)
    ensures Grows(x, x)
  {
  }

  lemma {:induction false} RunGrows(run: seq<World>, moves: seq<(Side, Step)>, side: Side, i: nat, j: nat)
    requires IsRun(run, moves) && i <= j < |run|
    ensures Grows(run[i].At(side), run[j].At(side))
    decreases j
  {
    hide Inv;
    hide Act;
    hide Grows;
    if i == j {
      GrowsReflexive(run[i].At(side));
    } else {
      RunGrows(run, moves, side, i, j - 1);
      RunKeeps(run, moves, j - 1);
      StepGrows(run[j - 1], moves[j - 1].0, moves[j - 1].1, side);
      GrowsTransitive(run[i].At(side), run[j - 1].At(side), run[j].At(side));
    }
  }

  lemma GrowsTransitive(a: Endpoint, b: Endpoint, c: Endpoint)
    requires Grows(a, b) && Grows(b, c)
    ensures Grows(a, c)
  {
  }

  // ---------- agreement ----------

  /**
   * Agreement: in any run, a state the receiver holds under a number is, in absolute content, the one
   * state its peer ever gave that number, at whatever moment of the run one looks at the peer.
   */
  lemma Agreement(run: seq<World>, moves: seq<(Side, Step)>, side: Side, i: nat, j: nat, k: nat)
    requires IsRun(run, moves) && i < |run| && j < |run|
    requires k < |run[j].At(side).receiver.received|
    requires run[j].At(side).receiver.received[k].num in run[i].Peer(side).numbers
    ensures var y := run[j].At(side); var e := y.receiver.received[k];
            Join(y.receivedBase, e.state) == run[i].Peer(side).numbers[e.num]
  {
    RunKeeps(run, moves, j);
    var peer := if side == Client then Server else Client;
    RunGrows(run, moves, peer, if i < j then i else j, if i < j then j else i);
  }

  /** Whatever is held under a number is what that number stood for, and a beginning of what the peer wrote. */
  lemma NothingInvented(w: World, side: Side, k: nat)
    requires Reachable(w) && k < |w.At(side).receiver.received|
    ensures var y := w.At(side); var x := w.Peer(side); var e := y.receiver.received[k];
            e.num in x.numbers && Join(y.receivedBase, e.state) == x.numbers[e.num]
              && Before(x.numbers[e.num], x.written)
  {
    ReachableInv(w);
  }

  /** The acknowledged baseline is always usable: the peer still holds the state at the sender's front. */
  lemma BaselineHeld(w: World, side: Side)
    requires Reachable(w)
    ensures w.At(side).sender.Valid()
    ensures Holds(w.Peer(side).receiver.received, w.At(side).sender.Front().num)
  {
    ReachableInv(w);
  }

  /** No instruction a peer ever made, however late or often it arrives, is refused as malformed. */
  lemma NeverRefused(w: World, side: Side, inst: Instruction, now: nat)
    requires Reachable(w) && inst in w.Peer(side).attempted
    ensures var y := w.At(side);
            y.receiver.Valid() && y.sender.Valid()
              && !ApplyInstruction(y.receiver, y.sender, inst, now).outcome.Refused?
  {
    ReachableInv(w);
    var y := w.At(side);
    var x := w.Peer(side);
    ApplyKeeps(y.receiver, y.sender, inst, now, y.receivedBase, x.numbers, x.sender.Front().num);
  }

  // ---------- no number twice ----------

  /** A number that is held, or that the queue has moved past. */
  ghost predicate Past(q: seq<TimestampedState>, n: nat)
    requires q != []
  {
    Holds(q, n) || n < q[0].num
  }

  /** The queue never forgets where it has been, and takes in only what lies ahead. */
  ghost predicate MovesOn(q: seq<TimestampedState>, q': seq<TimestampedState>)
    requires q != [] && q' != []
  {
    forall n: nat | Past(q, n) :: Past(q', n) && (Holds(q', n) ==> Holds(q, n))
  }

  lemma ThrowawayMovesOn(q: seq<TimestampedState>, num: nat)
    requires q != [] && Increasing(q)
    ensures MovesOn(q, ProcessThrowaway(q, num)) && Increasing(ProcessThrowaway(q, num))
    ensures forall n: nat | Holds(q, n) && n >= num :: Holds(ProcessThrowaway(q, num), n)
  {
    KeepFromIsFirst(q, num, 0);
    var k := KeepFrom(q, num, 0);
    var r := q[k..];
    forall n: nat | Holds(q, n)
      ensures Holds(r, n) || (n < r[0].num && n < num)
    {
      var i :| 0 <= i < |q| && q[i].num == n;
      if i >= k { assert r[i - k].num == n; }
    }
    forall n: nat | Holds(r, n)
      ensures Holds(q, n)
    {
      var i :| 0 <= i < |r| && r[i].num == n;
      assert q[k + i].num == n;
    }
  }

  lemma InsertMovesOn(q: seq<TimestampedState>, s: TimestampedState)
    requires q != [] && q[0].num < s.num && !Holds(q, s.num)
    ensures MovesOn(q, Insert(q, s))
  {
    var k := InsertAt(q, s.num, 0);
    InsertHolds(q, s, k);
  }

  /** An honest instruction leads on from a state held, so the number it brings in is held or lies ahead. */
  lemma ApplyMovesOn(r: ReceiverState, s: SenderState, inst: Instruction, now: nat, numbers: map<nat, Content>)
    requires r.Valid() && s.Valid() && Increasing(r.received) && Honest(inst, numbers)
    ensures MovesOn(r.received, ApplyInstruction(r, s, inst, now).receiver.received)
  {
    if !Holds(r.received, inst.newNum) && Find(r.received, inst.oldNum, 0).Some? {
      FindFinds(r.received, inst.oldNum, 0);
      var reference := Find(r.received, inst.oldNum, 0).value;
      ThrowawayMovesOn(r.received, inst.throwawayNum);
      var kept := ProcessThrowaway(r.received, inst.throwawayNum);
      assert Holds(kept, inst.oldNum) && kept[0].num <= inst.oldNum < inst.newNum;
      assert !Past(r.received, inst.newNum) && !Holds(kept, inst.newNum);
      GrowMovesOn(r.(received := kept), ProcessAcknowledgment(s, inst.ackNum), reference.state, inst, now);
    }
  }

  lemma GrowMovesOn(r: ReceiverState, s: SenderState, reference: Content, inst: Instruction, now: nat)
    requires r.Valid() && s.Valid() && r.received[0].num < inst.newNum && !Holds(r.received, inst.newNum)
    ensures var q := Grow(r, s, reference, inst, now).receiver.received;
      MovesOn(r.received, q) && forall n: nat | Holds(q, n) :: Holds(r.received, n) || n == inst.newNum
  {
    if Advance(reference, inst.diff).Some? {
      var e := TimestampedState(now, inst.newNum, Advance(reference, inst.diff).value);
      InsertMovesOn(r.received, e);
      InsertHolds(r.received, e, InsertAt(r.received, e.num, 0));
    }
  }

  lemma ActMovesOn(y: Endpoint, x: Endpoint, codec: Codec, step: Step)
    requires codec.Faithful() && PairInv(y, x, codec) && Enabled(y, x, step)
    ensures var q := Act(y, x, codec, step).receiver.received;
      y.receiver.received != [] && q != [] && MovesOn(y.receiver.received, q)
  {
    hide AddFragment, GetAssembly, ApplyInstruction, MovesOn, WireInv, SenderInv, Honest;
    SameNumbersMoveOn(y.receiver.received, y.receiver.received);
    match step
    case Deliver(frag, now) =>
      DeliveryYieldsAttempted(y.assembly, x, codec, frag);
      var (assembly, done) := AddFragment(y.assembly, frag);
      if done && GetAssembly(assembly, codec).1.Ok? {
        ApplyMovesOn(y.receiver, y.sender, GetAssembly(assembly, codec).1.value, now, x.numbers);
      }
    case Collect => SameNumbersMoveOn(y.receiver.received, CollectFrom(y).receiver.received);
    case Tick(env) => TickReceivesNothing(y, codec, env);
    case _ =>
  }

  lemma SameNumbersMoveOn(q: seq<TimestampedState>, q': seq<TimestampedState>)
    requires q != [] && |q| == |q'| && forall i | 0 <= i < |q| :: q[i].num == q'[i].num
    ensures MovesOn(q, q')
  {
  }

  lemma StepMovesOn(w: World, mover: Side, step: Step, side: Side)
    requires Inv(w) && Enabled(w.At(mover), w.Peer(mover), step)
    ensures var q, q' := w.At(side).receiver.received, Do(w, mover, step).At(side).receiver.received;
      q != [] && q' != [] && MovesOn(q, q')
  {
    hide Act, MovesOn;
    InvPair(w, side);
    SameNumbersMoveOn(w.At(side).receiver.received, w.At(side).receiver.received);
    if mover == side {
      ActMovesOn(w.At(side), w.Peer(side), w.codec, step);
    }
  }

  lemma {:induction false} PastStaysPast(run: seq<World>, moves: seq<(Side, Step)>, side: Side, i: nat, j: nat, n: nat)
    requires IsRun(run, moves) && i <= j < |run|
    ensures run[i].At(side).receiver.received != [] && run[j].At(side).receiver.received != []
    ensures Past(run[i].At(side).receiver.received, n) ==> Past(run[j].At(side).receiver.received, n)
    decreases j
  {
    hide Act, Past, Inv;
    if i < j {
      RunKeeps(run, moves, j - 1);
      StepMovesOn(run[j - 1], moves[j - 1].0, moves[j - 1].1, side);
      PastStaysPast(run, moves, side, i, j - 1, n);
    } else {
      RunKeeps(run, moves, i);
      HoldsSomething(run[i], side);
    }
  }

  lemma HoldsSomething(w: World, side: Side)
    requires Inv(w)
    ensures w.At(side).receiver.received != []
  {
  }

  /** No number is ever taken in twice: once held, it comes back neither while it is held nor after it was dropped. */
  lemma NeverTakenTwice(run: seq<World>, moves: seq<(Side, Step)>, side: Side, i: nat, j: nat, n: nat)
    requires IsRun(run, moves) && i <= j && j + 1 < |run|
    requires Holds(run[i].At(side).receiver.received, n)
    ensures Holds(run[j + 1].At(side).receiver.received, n) ==> Holds(run[j].At(side).receiver.received, n)
  {
    hide Act, Inv, Holds;
    PastStaysPast(run, moves, side, i, j, n);
    RunKeeps(run, moves, j);
    StepMovesOn(run[j], moves[j].0, moves[j].1, side);
  }

  /** A repeat of an instruction whose number was ever held, at whatever later moment of the run, changes nothing. */
  lemma RepeatIgnored(run: seq<World>, moves: seq<(Side, Step)>, side: Side, i: nat, j: nat, inst: Instruction,
                      now: nat)
    requires IsRun(run, moves) && i <= j < |run|
    requires Holds(run[i].At(side).receiver.received, inst.newNum) && inst in run[j].Peer(side).attempted
    ensures var y := run[j].At(side);
      && y.receiver.Valid() && y.sender.Valid()
      && ApplyInstruction(y.receiver, y.sender, inst, now).receiver == y.receiver
      && ApplyInstruction(y.receiver, y.sender, inst, now).outcome == Ignored
  {
    PastStaysPast(run, moves, side, i, j, inst.newNum);
    RunKeeps(run, moves, j);
    InvPair(run[j], side);
    PastIsIgnored(run[j].At(side), run[j].Peer(side), inst, now);
  }

  lemma PastIsIgnored(y: Endpoint, x: Endpoint, inst: Instruction, now: nat)
    requires Link(x, y) && y.sender.Valid() && inst in x.attempted && Past(y.receiver.received, inst.newNum)
    ensures ApplyInstruction(y.receiver, y.sender, inst, now).receiver == y.receiver
    ensures ApplyInstruction(y.receiver, y.sender, inst, now).outcome == Ignored
  {
    FindFinds(y.receiver.received, inst.oldNum, 0);
  }

  // ---------- exactly once, in order ----------

  /** What a run handed to the caller by step `i`, as the diffs it was given, oldest first. */
  ghost function DiffsHanded(run: seq<World>, moves: seq<(Side, Step)>, side: Side, i: nat): seq<seq<Byte>>
    requires IsRun(run, moves) && i < |run|
  {
    if i == 0 then []
    else
      DiffsHanded(run, moves, side, i - 1) +
      if moves[i - 1] == (side, Collect) then [GetRemoteDiff(run[i - 1].At(side).receiver).1] else []
  }

  /** The diffs applied one after another. */
  ghost function ApplyAll(s: Content, diffs: seq<seq<Byte>>): Option<Content> {
    if diffs == [] then Some(s)
    else
      match ApplyAll(s, diffs[..|diffs| - 1])
      case None => None
      case Some(t) => Advance(t, diffs[|diffs| - 1])
  }

  /**
   * Exactly once, in order: the diffs handed over, applied one after another to the starting state,
   * never fail, and give a beginning of what the peer wrote, with nothing missing and nothing twice.
   */
  lemma {:induction false} DeliveredInOrder(run: seq<World>, moves: seq<(Side, Step)>, side: Side, i: nat)
    requires IsRun(run, moves) && i < |run|
    ensures var y := run[i].At(side);
            && ApplyAll(run[0].At(side).delivered, DiffsHanded(run, moves, side, i)) == Some(y.delivered)
            && Before(y.delivered, run[i].Peer(side).written)
  {
    hide Inv;
    hide Act;
    RunKeeps(run, moves, i);
    DeliveredBeforeWritten(run[i], side);
    if i > 0 {
      DeliveredInOrder(run, moves, side, i - 1);
      RunKeeps(run, moves, i - 1);
      var (mover, step) := moves[i - 1];
      assert run[i] == Do(run[i - 1], mover, step);
      HandedStep(run[i - 1], mover, step, side);
      var before := DiffsHanded(run, moves, side, i - 1);
      if mover == side && step == Collect {
        ApplyAllSnoc(run[0].At(side).delivered, before, GetRemoteDiff(run[i - 1].At(side).receiver).1);
      } else {
        assert before + [] == before;
      }
    }
  }

  lemma ApplyAllSnoc(s: Content, diffs: seq<seq<Byte>>, diff: seq<Byte>)
    requires ApplyAll(s, diffs).Some?
    ensures ApplyAll(s, diffs + [diff]) == Advance(ApplyAll(s, diffs).value, diff)
  {
    assert (diffs + [diff])[..|diffs|] == diffs;
  }

  lemma DeliveredBeforeWritten(w: World, side: Side)
    requires Inv(w)
    ensures Before(w.At(side).delivered, w.Peer(side).written)
  {
    var y := w.At(side);
    var x := w.Peer(side);
    BeforeTransitive(y.delivered, x.numbers[y.receiver.Newest().num], x.written);
  }

  lemma HandedStep(w: World, mover: Side, step: Step, side: Side)
    requires Inv(w) && Enabled(w.At(mover), w.Peer(mover), step)
    ensures var y := w.At(side); var y' := Do(w, mover, step).At(side);
            if mover == side && step == Collect
            then Some(y'.delivered) == Advance(y.delivered, GetRemoteDiff(y.receiver).1)
            else y'.delivered == y.delivered
  {
    var y := w.At(side);
    if mover == side {
      if step == Collect {
        CollectKeeps(y.receiver, y.receivedBase, w.Peer(side).numbers, y.delivered);
      } else {
        OnlyCollectDelivers(y, w.Peer(side), w.codec, step);
      }
    }
  }

  lemma OnlyCollectDelivers(x: Endpoint, y: Endpoint, codec: Codec, step: Step)
    requires step != Collect
    ensures Enabled(x, y, step) ==> Act(x, y, codec, step).delivered == x.delivered
  {
  }

  /** Right after the caller is handed a diff it has exactly the content of the newest state received. */
  lemma CollectCatchesUp(w: World, side: Side)
    requires Reachable(w) && Enabled(w.At(side), w.Peer(side), Collect)
    ensures var y := w.At(side); var y' := Do(w, side, Collect).At(side);
            && y'.delivered == Join(y.receivedBase, y.receiver.Newest().state)
            && y.receiver.Newest().num in w.Peer(side).numbers
            && y'.delivered == w.Peer(side).numbers[y.receiver.Newest().num]
  {
    ReachableInv(w);
    CollectLinks(w.Peer(side), w.At(side));
  }

  // ---------- thinning ----------

  /**
   * Thinning never breaks a pending diff: whatever a tick tries to send names the state its diff was
   * computed from, that state is the oldest or the newest held, and the queue stays within its bound
   * with both its ends in place.
   */
  lemma ThinningKeepsDiffSource(w: World, side: Side, env: Env)
    requires Reachable(w) && Enabled(w.At(side), w.Peer(side), Tick(env))
    requires Attempt(w.At(side).sender, env).Some?
    ensures var s := w.At(side).sender; var o := Attempt(s, env).value; var (s2, diff) := Chosen(s, env);
            && (s2.assumed == 0 || s2.assumed == |s2.sent| - 1)
            && o.inst.oldNum == s2.Assumed().num
            && o.inst.diff == DiffFrom(s2.current, s2.Assumed().state)
            && |o.sender.sent| <= MAX_SENT_STATES
            && o.sender.Front().num == s.Front().num
            && o.sender.Back().num == o.inst.newNum && o.sender.Back().timestamp == env.now
  {
    ReachableInv(w);
    InvPair(w, side);
    AttemptFromChosen(w.At(side).sender, LedgerOf(w.At(side)), env);
  }

  lemma AttemptFromChosen(s: SenderState, l: Ledger, env: Env)
    requires SenderInv(s, l) && Bounded(s) && env.now >= l.clock && SmallBacklog(s)
    requires s.shutdown || s.Back().num + 1 < SHUTDOWN_NUM
    requires Attempt(s, env).Some?
    ensures var o := Attempt(s, env).value; var (s2, diff) := Chosen(s, env);
            && (s2.assumed == 0 || s2.assumed == |s2.sent| - 1)
            && o.inst.oldNum == s2.Assumed().num
            && o.inst.diff == DiffFrom(s2.current, s2.Assumed().state)
            && |o.sender.sent| <= MAX_SENT_STATES
            && o.sender.Front().num == s.Front().num
            && o.sender.Back().num == o.inst.newNum && o.sender.Back().timestamp == env.now
  {
    AttemptHonest(s, l, env);
    ChosenKeeps(s, l, env);
    AttemptRestamps(Chosen(s, env).0, Chosen(s, env).1, env);
  }

  lemma AttemptRestamps(s: SenderState, diff: seq<Byte>, env: Env)
    requires s.Valid() && Bounded(s)
    ensures Data(s, diff, env).sender.Back().timestamp == env.now
    ensures EmptyAck(s, env).sender.Back().timestamp == env.now
    ensures Data(s, diff, env).inst.diff == diff && EmptyAck(s, env).inst.diff == []
  {
  }

  // ---------- fragments over a run ----------

  /** Fragment ids are functional: two fragments ever sent under one id and number are the same fragment. */
  lemma FragmentIdsFunctional(run: seq<World>, moves: seq<(Side, Step)>, side: Side, i: nat, j: nat, f: Fragment,
                              g: Fragment)
    requires IsRun(run, moves) && i <= j < |run|
    requires f in run[i].At(side).wire && g in run[j].At(side).wire
    requires f.id == g.id && f.num == g.num
    ensures f == g
  {
    RunGrows(run, moves, side, i, j);
    RunKeeps(run, moves, j);
    var x := run[j].At(side);
    var codec := run[j].codec;
    var k := PieceOfCall(x.issued[f.id], f.id, codec, f);
    var l := PieceOfCall(x.issued[g.id], g.id, codec, g);
  }

  /** Equal ids mean equal instructions: what an id was used for is never changed by a later tick. */
  lemma IdsNameOneInstruction(run: seq<World>, moves: seq<(Side, Step)>, side: Side, i: nat, j: nat, id: nat)
    requires IsRun(run, moves) && i <= j < |run|
    requires id in run[i].At(side).issued
    ensures id in run[j].At(side).issued && run[j].At(side).issued[id] == run[i].At(side).issued[id]
  {
    RunGrows(run, moves, side, i, j);
  }

  /** Whatever mixture of sent fragments arrives, an instruction put together from it is one the peer made. */
  lemma AssembledWasSent(w: World, side: Side, frag: Fragment)
    requires Reachable(w) && frag in w.Peer(side).wire
    requires AddFragment(w.At(side).assembly, frag).1
    requires GetAssembly(AddFragment(w.At(side).assembly, frag).0, w.codec).1.Ok?
    ensures GetAssembly(AddFragment(w.At(side).assembly, frag).0, w.codec).1.value in w.Peer(side).attempted
  {
    ReachableInv(w);
    DeliveryYieldsAttempted(w.At(side).assembly, w.Peer(side), w.codec, frag);
  }
}

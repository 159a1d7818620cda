/** The invariant of the two-endpoint system, and that every step keeps it. */
module SyncProofs {
  import opened Options
  import opened States
  import opened Instructions
  import opened Fragments
  import opened SenderSpec
  import opened TransportSpec
  import opened SenderProofs
  import opened ReceiverProofs
  import opened World

  function LedgerOf(x: Endpoint): Ledger {
    Ledger(x.sentBase, x.numbers, x.written, x.clock)
  }

  // ---------- the invariant ----------

  ghost predicate Sending(x: Endpoint) {
    && SenderInv(x.sender, LedgerOf(x))
    && Bounded(x.sender)
    && forall m <- x.attempted :: Honest(m, x.numbers) && m.throwawayNum <= x.sender.Front().num
  }

  /** An acknowledgement still in flight names a state still held, or one the sender is already past. */
  ghost predicate AckUsable(num: nat, held: seq<TimestampedState>, front: nat) {
    Holds(held, num) || num < front
  }

  ghost predicate Receiving(y: Endpoint, numbers: map<nat, Content>, front: nat) {
    && y.receiver.Valid()
    && ReceiverInv(y.receiver.received, y.receivedBase, numbers)
    && Holds(y.receiver.received, front)
    && y.sender.ackNum == y.receiver.Newest().num
    && (forall m <- y.attempted :: AckUsable(m.ackNum, y.receiver.received, front))
    && Join(y.receivedBase, y.receiver.last) == y.delivered
    && Before(y.delivered, numbers[y.receiver.Newest().num])
  }

  /** One direction: what `x` sends and what `y` has received of it. */
  ghost predicate Link(x: Endpoint, y: Endpoint) {
    Sending(x) && Receiving(y, x.numbers, x.sender.Front().num)
  }

  function PiecesOf(issue: Issue, id: nat, codec: Codec): seq<Fragment>
    requires issue.size >= 1
  {
    Pieces(id, codec.encode(issue.inst), issue.size, 0)
  }

  /** Every fragment ever sent is a piece of the one instruction its id was used for. */
  ghost predicate WireInv(x: Endpoint, codec: Codec) {
    && (forall id <- x.issued ::
          id <= x.fragmenter.nextId && x.issued[id].inst in x.attempted && x.issued[id].size >= 1)
    && (x.fragmenter.last.Some? ==>
          && x.fragmenter.lastMtu.Some?
          && x.fragmenter.nextId in x.issued
          && x.issued[x.fragmenter.nextId] == Issue(x.fragmenter.last.value, x.fragmenter.lastMtu.value))
    && (forall f <- x.wire :: f.id in x.issued && f in PiecesOf(x.issued[f.id], f.id, codec)
                              && |PiecesOf(x.issued[f.id], f.id, codec)| <= FINAL_BIT)
  }

  /** Whatever a receiver is collecting is pieces of one instruction its peer issued. */
  ghost predicate AssemblyInv(s: AssemblyState, x: Endpoint, codec: Codec) {
    s.currentId.Some? ==>
      && s.currentId.value in x.issued
      && x.issued[s.currentId.value].size >= 1
      && Collecting(s, PiecesOf(x.issued[s.currentId.value], s.currentId.value, codec))
  }

  ghost predicate PairInv(x: Endpoint, y: Endpoint, codec: Codec) {
    && Link(x, y) && Link(y, x)
    && WireInv(x, codec) && WireInv(y, codec)
    && AssemblyInv(x.assembly, y, codec) && AssemblyInv(y.assembly, x, codec)
  }

  ghost predicate Inv(w: World) {
    w.codec.Faithful() && PairInv(w.client, w.server, w.codec)
  }

  // ---------- ticks ----------

  ghost predicate Extends(numbers: map<nat, Content>, grown: map<nat, Content>) {
    forall n <- numbers :: n in grown && grown[n] == numbers[n]
  }

  lemma HonestGrows(m: Instruction, numbers: map<nat, Content>, grown: map<nat, Content>)
    requires Honest(m, numbers) && Extends(numbers, grown)
    ensures Honest(m, grown)
  {
  }

  /** What a step of `x` that may send leaves its peer's view of it unharmed by. */
  ghost predicate SentMore(x: Endpoint, x': Endpoint)
    requires x.sender.Valid()
  {
    && Sending(x') && Extends(x.numbers, x'.numbers)
    && x'.sender.Front().num == x.sender.Front().num
    && x'.sender.ackNum == x.sender.ackNum
    && (forall m <- x'.attempted :: m in x.attempted || m.ackNum == x.sender.ackNum)
  }

  /** A sender's own history only grows, and its front stays, when it ticks. */
  lemma TickSends(x: Endpoint, codec: Codec, env: Env)
    requires Sending(x) && env.now >= x.clock && SmallBacklog(x.sender)
    requires x.sender.shutdown || x.sender.Back().num + 1 < SHUTDOWN_NUM
    ensures SentMore(x, TickAt(x, codec, env))
  {
    var x' := TickAt(x, codec, env);
    if Attempt(x.sender, env).Some? {
      AttemptHonest(x.sender, LedgerOf(x), env);
      TickShape(x, codec, env);
      AttemptSends(x, x', Chosen(x.sender, env).0, Attempt(x.sender, env).value, env);
    } else {
      IdleTick(x, codec, env);
    }
  }

  lemma IdleTick(x: Endpoint, codec: Codec, env: Env)
    requires Sending(x) && env.now >= x.clock && Attempt(x.sender, env) == None
    ensures SentMore(x, TickAt(x, codec, env))
  {
    var x' := TickAt(x, codec, env);
    var c := CalculateTimers(x.sender, env.now, env.timeout, env.interval);
    TimersKeep(x.sender, LedgerOf(x), env.now, env.timeout, env.interval);
    IdleShape(x, codec, env);
    SameQueueKeeps(c, x'.sender, LedgerOf(x'));
  }

  lemma IdleShape(x: Endpoint, codec: Codec, env: Env)
    requires x.sender.Valid() && Attempt(x.sender, env) == None
    ensures var x' := TickAt(x, codec, env);
            && x'.sender.Valid()
            && SameQueue(CalculateTimers(x.sender, env.now, env.timeout, env.interval), x'.sender)
            && x'.numbers == x.numbers && x'.attempted == x.attempted
            && LedgerOf(x') == Stripped(x.sender, LedgerOf(x), env.now)
  {
  }

  lemma AttemptSends(x: Endpoint, x': Endpoint, s2: SenderState, o: Outgoing, env: Env)
    requires Sending(x) && s2.Valid() && o.sender.Valid() && x'.sender.Valid()
    requires AttemptKeeps(s2, Stripped(x.sender, LedgerOf(x), env.now), env, o)
    requires s2.Front().num == x.sender.Front().num && s2.ackNum == x.sender.ackNum
    requires SameQueue(o.sender, x'.sender)
    requires x'.numbers == x.numbers[o.inst.newNum := x.written] && x'.attempted == x.attempted + {o.inst}
    requires x'.written == x.written && x'.clock == env.now
    requires x'.sentBase == Join(x.sentBase, x.sender.Front().state)
    ensures SentMore(x, x')
  {
    hide Join, Before, DiffFrom, Fits;
    SameQueueKeeps(o.sender, x'.sender, LedgerOf(x'));
    AttemptedGrows(x.attempted, o.inst, x.numbers, x'.numbers, x.sender.Front().num);
  }

  /** What a tick that attempts to send does to the endpoint, field by field. */
  lemma TickShape(x: Endpoint, codec: Codec, env: Env)
    requires x.sender.Valid() && Attempt(x.sender, env).Some?
    ensures var x' := TickAt(x, codec, env); var o := Attempt(x.sender, env).value;
            && x'.sender.Valid() && SameQueue(o.sender, x'.sender)
            && x'.numbers == x.numbers[o.inst.newNum := x.written]
            && x'.attempted == x.attempted + {o.inst}
            && x'.written == x.written && x'.clock == env.now
            && x'.sentBase == Join(x.sentBase, x.sender.Front().state)
  {
  }

  lemma AttemptedGrows(attempted: set<Instruction>, inst: Instruction,
                       numbers: map<nat, Content>, grown: map<nat, Content>, front: nat)
    requires forall m <- attempted :: Honest(m, numbers) && m.throwawayNum <= front
    requires Extends(numbers, grown) && Honest(inst, grown) && inst.throwawayNum <= front
    ensures forall m <- attempted + {inst} :: Honest(m, grown) && m.throwawayNum <= front
  {
    forall m | m in attempted
      ensures Honest(m, grown)
    {
      HonestGrows(m, numbers, grown);
    }
  }

  lemma SameQueueKeeps(s: SenderState, r: SenderState, l: Ledger)
    requires SenderInv(s, l) && r.Valid() && SameQueue(s, r)
    ensures SenderInv(r, l) && r.Front() == s.Front()
  {
  }

  ghost predicate IssuedMore(x: Endpoint, x': Endpoint) {
    forall id <- x.issued :: id in x'.issued && x'.issued[id] == x.issued[id]
  }

  /**
   * Fragment ids are functional: reusing one looks at everything but the diff, and the numbers named
   * decide the diff.
   */
  lemma SameHeaderSameInstruction(a: Instruction, b: Instruction, numbers: map<nat, Content>)
    requires Honest(a, numbers) && Honest(b, numbers) && SameHeader(a, b)
    ensures a == b
  {
    assert a.oldNum == a.(diff := []).oldNum == b.oldNum;
    assert a.newNum == a.(diff := []).newNum == b.newNum;
    assert a == a.(diff := []).(diff := a.diff);
  }

  /** Whatever a tick puts on the wire is pieces of the instruction its id stands for, old or new. */
  lemma TickWires(x: Endpoint, codec: Codec, env: Env)
    requires x.sender.Valid() && WireInv(x, codec)
    requires var x' := TickAt(x, codec, env); forall m <- x'.attempted :: Honest(m, x'.numbers)
    ensures WireInv(TickAt(x, codec, env), codec) && IssuedMore(x, TickAt(x, codec, env))
  {
    var x' := TickAt(x, codec, env);
    if Attempt(x.sender, env).Some? {
      var inst := Attempt(x.sender, env).value.inst;
      var size := PieceSize(FragmentRoom(env.mtu));
      TickFragments(x, codec, env);
      if NextId(x.fragmenter, inst, size) == x.fragmenter.nextId {
        SameHeaderSameInstruction(inst, x.fragmenter.last.value, x'.numbers);
      }
      IssueWires(x, x', codec, inst, size);
    }
  }

  lemma TickFragments(x: Endpoint, codec: Codec, env: Env)
    requires x.sender.Valid() && Attempt(x.sender, env).Some?
    ensures var x' := TickAt(x, codec, env);
            var inst := Attempt(x.sender, env).value.inst;
            var size := PieceSize(FragmentRoom(env.mtu));
            var id := NextId(x.fragmenter, inst, size);
            && x'.attempted == x.attempted + {inst}
            && x'.fragmenter == FragmenterState(id, Some(inst), Some(size))
            && x'.issued == x.issued[id := Issue(inst, size)]
            && (x'.wire == x.wire || (|PiecesOf(Issue(inst, size), id, codec)| <= FINAL_BIT
                                      && x'.wire == x.wire + set p | p in PiecesOf(Issue(inst, size), id, codec)))
  {
  }

  lemma IssueWires(x: Endpoint, x': Endpoint, codec: Codec, inst: Instruction, size: nat)
    requires WireInv(x, codec) && size >= 1
    requires var id := NextId(x.fragmenter, inst, size); var ps := PiecesOf(Issue(inst, size), id, codec);
             && x'.attempted == x.attempted + {inst}
             && x'.fragmenter == FragmenterState(id, Some(inst), Some(size))
             && x'.issued == x.issued[id := Issue(inst, size)]
             && (x'.wire == x.wire || (|ps| <= FINAL_BIT && x'.wire == x.wire + set p | p in ps))
    requires NextId(x.fragmenter, inst, size) == x.fragmenter.nextId ==> inst == x.fragmenter.last.value
    ensures WireInv(x', codec) && IssuedMore(x, x')
  {
    var id := NextId(x.fragmenter, inst, size);
    var ps := PiecesOf(Issue(inst, size), id, codec);
    forall p | p in ps
      ensures p.id == id
    {
      var k :| 0 <= k < |ps| && ps[k] == p;
      PieceAt(id, codec.encode(inst), size, 0, k);
    }
  }

  /** Everything a tick keeps, for both directions. */
  lemma TickKeeps(x: Endpoint, y: Endpoint, codec: Codec, env: Env)
    requires Link(x, y) && Link(y, x) && WireInv(x, codec) && AssemblyInv(y.assembly, x, codec)
    requires env.now >= x.clock && SmallBacklog(x.sender)
    requires x.sender.shutdown || x.sender.Back().num + 1 < SHUTDOWN_NUM
    ensures var x' := TickAt(x, codec, env);
            Link(x', y) && Link(y, x') && WireInv(x', codec) && AssemblyInv(y.assembly, x', codec)
  {
    var x' := TickAt(x, codec, env);
    TickSends(x, codec, env);
    TickWires(x, codec, env);
    TickReceivesNothing(x, codec, env);
    PeerSeesMore(x, x', y);
  }

  lemma TickReceivesNothing(x: Endpoint, codec: Codec, env: Env)
    requires x.sender.Valid()
    ensures var x' := TickAt(x, codec, env); SameReceiver(x, x')
  {
  }

  ghost predicate SameReceiver(x: Endpoint, x': Endpoint) {
    x'.receiver == x.receiver && x'.receivedBase == x.receivedBase && x'.delivered == x.delivered
    && x'.assembly == x.assembly
  }

  lemma PeerSeesMore(x: Endpoint, x': Endpoint, y: Endpoint)
    requires Link(x, y) && Link(y, x) && SentMore(x, x') && SameReceiver(x, x')
    ensures Link(x', y) && Link(y, x')
  {
  }

  // ---------- deliveries ----------

  /** Assembling sent fragments, in any mixture, yields nothing or an instruction the peer really made. */
  lemma DeliveryYieldsAttempted(s: AssemblyState, x: Endpoint, codec: Codec, frag: Fragment)
    requires codec.Faithful() && WireInv(x, codec) && AssemblyInv(s, x, codec) && frag in x.wire
    ensures var (s', done) := AddFragment(s, frag);
            && AssemblyInv(s', x, codec)
            && var (s2, got) := GetAssembly(s', codec);
               && (done ==> AssemblyInv(s2, x, codec))
               && (done && got.Ok? ==> got.value == x.issued[frag.id].inst && got.value in x.attempted)
  {
    hide AddFragment, Contents, OneCall, Collecting, Complete;
    var ps := PiecesOf(x.issued[frag.id], frag.id, codec);
    var k := PieceOfCall(x.issued[frag.id], frag.id, codec, frag);
    AddKeepsCollecting(s, frag.id, ps, k);
    var (s', done) := AddFragment(s, frag);
    if done {
      CompleteIffAll(s', ps);
      PiecesCarryPayload(frag.id, codec.encode(x.issued[frag.id].inst), x.issued[frag.id].size, 0);
      RestartCollects(frag.id, ps);
    }
  }

  lemma PieceOfCall(issue: Issue, id: nat, codec: Codec, frag: Fragment) returns (k: nat)
    requires issue.size >= 1 && frag in PiecesOf(issue, id, codec) && |PiecesOf(issue, id, codec)| <= FINAL_BIT
    ensures var ps := PiecesOf(issue, id, codec); k < |ps| && ps[k] == frag && OneCall(id, ps)
  {
    var ps := PiecesOf(issue, id, codec);
    k :| k < |ps| && ps[k] == frag;
    forall i | 0 <= i < |ps|
      ensures ps[i].id == id && ps[i].num == i && (ps[i].isFinal <==> i == |ps| - 1)
    {
      PieceAt(id, codec.encode(issue.inst), issue.size, 0, i);
    }
  }

  /** A later time on the clock changes nothing the sender promised. */
  lemma ClockForward(s: SenderState, l: Ledger, now: nat)
    requires SenderInv(s, l) && now >= l.clock
    ensures SenderInv(s, l.(clock := now))
  {
    assert forall i | 0 <= i < |s.sent| :: Booked(l, s.sent[i]) ==> Booked(l.(clock := now), s.sent[i]);
  }

  /** What `y` receives from `x`: the queue moves on, the baseline stays, old acknowledgements stay usable. */
  lemma ApplyReceives(x: Endpoint, y: Endpoint, y': Endpoint, a: Applied, inst: Instruction)
    requires Link(x, y) && inst in x.attempted && y.sender.Valid()
    requires Progress(y.receiver, ProcessAcknowledgment(y.sender, inst.ackNum), a,
                      y.receivedBase, x.numbers, x.sender.Front().num)
    requires y'.receiver == a.receiver && y'.sender == a.sender && y'.attempted == y.attempted
    requires y'.receivedBase == y.receivedBase && y'.delivered == y.delivered
    ensures Receiving(y', x.numbers, x.sender.Front().num)
  {
    hide Join, DiffFrom, Fits;
    var held := y.receiver.Newest();
    assert Before(x.numbers[held.num], x.numbers[a.receiver.Newest().num]);
    assert Holds(y.receiver.received, held.num);
  }

  /** What `y` sends after taking in an acknowledgement: its front moves to a state `x` still holds. */
  lemma AcknowledgmentLinks(x: Endpoint, y: Endpoint, y': Endpoint, num: nat, now: nat)
    requires Link(y, x) && AckUsable(num, x.receiver.received, y.sender.Front().num)
      && exists m <- x.attempted :: m.ackNum == num
    requires now >= y.clock && y'.clock == now
    requires y'.sender.Valid() && AckedOnly(ProcessAcknowledgment(y.sender, num), y'.sender)
    requires y'.numbers == y.numbers && y'.attempted == y.attempted && y'.written == y.written
      && y'.sentBase == y.sentBase
    ensures Link(y', x)
  {
    var s1 := ProcessAcknowledgment(y.sender, num);
    AcknowledgmentKeeps(y.sender, LedgerOf(y), num);
    ClockForward(s1, LedgerOf(y), now);
    SameBackKeeps(s1, y'.sender, LedgerOf(y'));
    if Holds(y.sender.sent, num) {
      var i :| 0 <= i < |y.sender.sent| && y.sender.sent[i].num == num;
      assert y.sender.sent[0].num <= num;
    }
    AcksStayUsable(x, y.sender.Front().num, y'.sender.Front().num);
  }

  lemma AcksStayUsable(x: Endpoint, front: nat, front': nat)
    requires forall m <- x.attempted :: AckUsable(m.ackNum, x.receiver.received, front)
    requires front <= front'
    ensures forall m <- x.attempted :: AckUsable(m.ackNum, x.receiver.received, front')
  {
  }

  lemma ApplyLinks(x: Endpoint, y: Endpoint, y': Endpoint, inst: Instruction, now: nat)
    requires Link(x, y) && Link(y, x) && inst in x.attempted && now >= y.clock
    requires y'.clock == now
    requires var a := ApplyInstruction(y.receiver, y.sender, inst, now);
             y'.receiver == a.receiver && y'.sender == a.sender
    requires y'.receivedBase == y.receivedBase && y'.delivered == y.delivered
    requires y'.numbers == y.numbers && y'.attempted == y.attempted && y'.written == y.written
      && y'.sentBase == y.sentBase
    ensures Link(x, y') && Link(y', x)
  {
    var a := ApplyInstruction(y.receiver, y.sender, inst, now);
    ApplyKeeps(y.receiver, y.sender, inst, now, y.receivedBase, x.numbers, x.sender.Front().num);
    ApplyReceives(x, y, y', a, inst);
    AcknowledgmentLinks(x, y, y', inst.ackNum, now);
  }

  lemma ClockLinks(x: Endpoint, y: Endpoint, y': Endpoint, now: nat)
    requires Link(x, y) && Link(y, x) && now >= y.clock
    requires y' == y.(clock := now, assembly := y'.assembly)
    ensures Link(x, y') && Link(y', x)
  {
    ClockForward(y.sender, LedgerOf(y), now);
  }

  lemma DeliverKeeps(x: Endpoint, y: Endpoint, codec: Codec, frag: Fragment, now: nat)
    requires codec.Faithful() && Link(x, y) && Link(y, x) && WireInv(x, codec) && AssemblyInv(y.assembly, x, codec)
    requires frag in x.wire && now >= y.clock
    ensures var y' := DeliverTo(y, codec, frag, now);
            && Link(x, y') && Link(y', x) && AssemblyInv(y'.assembly, x, codec)
            && Unsent(y, y')
  {
    DeliveryYieldsAttempted(y.assembly, x, codec, frag);
    var (assembly, done) := AddFragment(y.assembly, frag);
    var y' := DeliverTo(y, codec, frag, now);
    if done && GetAssembly(assembly, codec).1.Ok? {
      ApplyLinks(x, y, y', GetAssembly(assembly, codec).1.value, now);
    } else {
      ClockLinks(x, y, y', now);
    }
  }

  // ---------- the other steps ----------

  lemma CollectLinks(x: Endpoint, y: Endpoint)
    requires Link(x, y) && Link(y, x) && Fits(y.receiver.Newest().state, y.receiver.last)
    ensures Link(x, CollectFrom(y)) && Link(CollectFrom(y), x)
    ensures CollectFrom(y).delivered == x.numbers[y.receiver.Newest().num]
  {
    CollectKeeps(y.receiver, y.receivedBase, x.numbers, y.delivered);
    var y' := CollectFrom(y);
    assert Before(y'.delivered, x.numbers[y'.receiver.Newest().num]);
  }

  lemma WriteLinks(x: Endpoint, y: Endpoint, more: Growth)
    requires Link(x, y) && Link(y, x)
    requires !x.sender.shutdown && Accepts(x.sender.current, more)
    ensures var x' := WriteTo(x, more); Link(x', y) && Link(y, x')
  {
    var x' := WriteTo(x, more);
    WriteKeeps(x, x', more);
    assert SentMore(x, x');
    hide WriteTo, Sending;
    PeerSeesMore(x, x', y);
  }

  lemma WriteKeeps(x: Endpoint, x': Endpoint, more: Growth)
    requires Sending(x) && !x.sender.shutdown && Accepts(x.sender.current, more)
    requires x' == WriteTo(x, more)
    ensures Sending(x')
  {
    GrownInPlace(x.sentBase, x.sender.current, more);
    assert Before(x.written, x'.written);
    assert QueueInv(x'.sender.sent, LedgerOf(x')) by {
      assert forall i | 0 <= i < |x.sender.sent| :: Booked(LedgerOf(x), x.sender.sent[i]);
    }
    assert NumbersInv(LedgerOf(x'), x'.sender.Back().num, false);
  }

  lemma ShutdownLinks(x: Endpoint, y: Endpoint, now: nat)
    requires Link(x, y) && Link(y, x) && now >= x.clock
    ensures var x' := ShutDown(x, now); Link(x', y) && Link(y, x')
  {
    hide Sending, SenderInv, Receiving;
    ShutdownSends(x, now);
    PeerSeesMore(x, ShutDown(x, now), y);
  }

  lemma ShutdownSends(x: Endpoint, now: nat)
    requires Sending(x) && now >= x.clock
    ensures SentMore(x, ShutDown(x, now))
  {
    ClockForward(x.sender, LedgerOf(x), now);
    assert SenderInv(ShutDown(x, now).sender, LedgerOf(ShutDown(x, now)));
  }

  lemma WaitLinks(x: Endpoint, y: Endpoint, now: nat, timeout: nat, interval: nat)
    requires Link(x, y) && Link(y, x) && now >= x.clock
    ensures var x' := CalculateTimersAt(x, now, timeout, interval); Link(x', y) && Link(y, x')
  {
    assert x.sender.Valid();
    hide Sending, SenderInv, Receiving;
    WaitSends(x, now, timeout, interval);
    PeerSeesMore(x, CalculateTimersAt(x, now, timeout, interval), y);
  }

  lemma WaitSends(x: Endpoint, now: nat, timeout: nat, interval: nat)
    requires Sending(x) && now >= x.clock
    ensures SentMore(x, CalculateTimersAt(x, now, timeout, interval))
  {
    hide Join, DiffFrom, Fits, Subtract;
    TimersKeep(x.sender, LedgerOf(x), now, timeout, interval);
  }

  // ---------- runs ----------

  lemma StartLinks(x: Endpoint, y: Endpoint, a: Content, b: Content, s: nat, t: nat)
    requires x == Start(a, b, s) && y == Start(b, a, t)
    ensures Link(x, y)
  {
    assert Booked(LedgerOf(x), x.sender.sent[0]);
    assert y.receiver.received[0].num == 0;
    JoinEmpty(a);
    JoinEmpty(b);
  }

  lemma InitInv(w: World)
    requires Init(w)
    ensures Inv(w)
  {
    var a: Content, b: Content, s: nat, t: nat :| w.client == Start(a, b, s) && w.server == Start(b, a, t);
    StartLinks(w.client, w.server, a, b, s, t);
    StartLinks(w.server, w.client, b, a, t, s);
  }

  lemma ActKeeps(x: Endpoint, y: Endpoint, codec: Codec, step: Step)
    requires codec.Faithful() && PairInv(x, y, codec) && Enabled(x, y, step)
    ensures PairInv(Act(x, y, codec, step), y, codec)
  {
    hide Link, WireInv, AssemblyInv, Unsent, WriteTo, ShutDown, CalculateTimersAt, TickAt, DeliverTo, CollectFrom,
      Codec.Faithful;
    match step
    case Write(more) =>
      WriteLinks(x, y, more);
      QuietKeeps(x, y, codec, step);
    case Shutdown(now) =>
      ShutdownLinks(x, y, now);
      QuietKeeps(x, y, codec, step);
    case Wait(now, timeout, interval) =>
      WaitLinks(x, y, now, timeout, interval);
      QuietKeeps(x, y, codec, step);
    case Tick(env) =>
      TickKeeps(x, y, codec, env);
      TickReceivesNothing(x, codec, env);
    case Deliver(frag, now) =>
      DeliverKeeps(y, x, codec, frag, now);
      UnsentKeeps(x, DeliverTo(x, codec, frag, now), y, codec);
    case Collect =>
      CollectLinks(y, x);
      QuietKeeps(x, y, codec, step);
  }

  /** Nothing was handed to the network or cut into fragments. */
  ghost predicate Unsent(x: Endpoint, x': Endpoint) {
    x'.wire == x.wire && x'.issued == x.issued && x'.fragmenter == x.fragmenter && x'.attempted == x.attempted
  }

  lemma UnsentKeeps(x: Endpoint, x': Endpoint, y: Endpoint, codec: Codec)
    requires WireInv(x, codec) && AssemblyInv(y.assembly, x, codec) && Unsent(x, x')
    ensures WireInv(x', codec) && AssemblyInv(y.assembly, x', codec)
  {
    hide Collecting, PiecesOf;
  }

  lemma QuietKeeps(x: Endpoint, y: Endpoint, codec: Codec, step: Step)
    requires Enabled(x, y, step) && !step.Tick? && !step.Deliver?
    requires WireInv(x, codec) && AssemblyInv(y.assembly, x, codec)
    ensures var x' := Act(x, y, codec, step);
            x'.assembly == x.assembly && WireInv(x', codec) && AssemblyInv(y.assembly, x', codec)
  {
    hide WireInv, AssemblyInv;
    UnsentKeeps(x, Act(x, y, codec, step), y, codec);
  }

  /** Every step of either endpoint keeps the invariant. */
  lemma StepKeeps(w: World, side: Side, step: Step)
    requires Inv(w) && Enabled(w.At(side), w.Peer(side), step)
    ensures Inv(Do(w, side, step))
  {
    InvPair(w, side);
    ActKeeps(w.At(side), w.Peer(side), w.codec, step);
    var w' := Do(w, side, step);
    assert w'.At(side) == Act(w.At(side), w.Peer(side), w.codec, step) && w'.Peer(side) == w.Peer(side);
    PairInvSymmetric(w'.At(side), w'.Peer(side), w.codec);
  }

  /** The invariant reads the same from either end. */
  lemma InvPair(w: World, side: Side)
    requires Inv(w)
    ensures PairInv(w.At(side), w.Peer(side), w.codec)
  {
    PairInvSymmetric(w.client, w.server, w.codec);
  }

  lemma PairInvSymmetric(x: Endpoint, y: Endpoint, codec: Codec)
    requires PairInv(x, y, codec)
    ensures PairInv(y, x, codec)
  {
  }

  lemma {:induction false} RunKeeps(run: seq<World>, moves: seq<(Side, Step)>, i: nat)
    requires IsRun(run, moves) && i < |run|
    ensures Inv(run[i])
  {
    if i == 0 {
      InitInv(run[0]);
    } else {
      RunKeeps(run, moves, i - 1);
      StepKeeps(run[i - 1], moves[i - 1].0, moves[i - 1].1);
    }
  }

  lemma ReachableInv(w: World)
    requires Reachable(w)
    ensures Inv(w)
  {
    var run: seq<World>, moves: seq<(Side, Step)> :| IsRun(run, moves) && run[|run| - 1] == w;
    RunKeeps(run, moves, |run| - 1);
  }
}

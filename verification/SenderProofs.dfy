/** What every sender operation keeps, stated against a ledger of what its numbers stand for. */
module SenderProofs {
  import opened Options
  import opened States
  import opened Instructions
  import opened Fragments
  import opened SenderSpec

  /** The content stripped so far, the content each number stands for, all that was written, the time. */
  datatype Ledger = Ledger(base: Content, numbers: map<nat, Content>, written: Content, clock: nat)

  ghost predicate Booked(l: Ledger, e: TimestampedState) {
    e.num in l.numbers && Join(l.base, e.state) == l.numbers[e.num] && e.timestamp <= l.clock
  }

  ghost predicate Sorted(q: seq<TimestampedState>) {
    forall i, j | 0 <= i < j < |q| :: q[i].num <= q[j].num && q[i].timestamp <= q[j].timestamp
  }

  /** Numbers stand for contents in the order they were written. */
  ghost predicate Ordered(numbers: map<nat, Content>) {
    forall n, m | n in numbers && m in numbers && n <= m :: Before(numbers[n], numbers[m])
  }

  ghost predicate QueueInv(q: seq<TimestampedState>, l: Ledger) {
    q != [] && Sorted(q) && forall i | 0 <= i < |q| :: Booked(l, q[i])
  }

  /** No number above `back` was given, and the last number of all stands for what is written now. */
  ghost predicate NumbersInv(l: Ledger, back: nat, shutdown: bool) {
    && Ordered(l.numbers)
    && back <= SHUTDOWN_NUM
    && (forall n <- l.numbers :: n <= back && Before(l.numbers[n], l.written))
    && (SHUTDOWN_NUM in l.numbers ==> shutdown && l.numbers[SHUTDOWN_NUM] == l.written)
  }

  ghost predicate SenderInv(s: SenderState, l: Ledger) {
    && s.Valid()
    && QueueInv(s.sent, l)
    && Join(l.base, s.current) == l.written
    && NumbersInv(l, s.Back().num, s.shutdown)
  }

  /** The queue is thinned as it grows, so it never holds more than its limit. */
  ghost predicate Bounded(s: SenderState) {
    |s.sent| <= MAX_SENT_STATES
  }

  // ---------- timers ----------

  /** With sorted timestamps the state the peer is assumed to hold is the newest or the acknowledged one. */
  lemma {:induction false} AssumedIsEnd(sent: seq<TimestampedState>, i: nat, now: nat, timeout: nat)
    requires i < |sent| && Sorted(sent)
    ensures var r := AssumedFrom(sent, i, now, timeout); r == i || r == |sent| - 1
    ensures i + 1 < |sent| && !Recent(sent[i + 1], now, timeout) ==> AssumedFrom(sent, i, now, timeout) == i
    decreases |sent| - i
  {
    if i + 1 < |sent| && Recent(sent[i + 1], now, timeout) {
      AssumedIsEnd(sent, i + 1, now, timeout);
      if i + 2 < |sent| {
        assert sent[i + 1].timestamp <= sent[i + 2].timestamp;
      }
    }
  }

  /** Stripping the acknowledged prefix from every state changes no absolute content. */
  lemma SettledKeeps(s: SenderState, l: Ledger, now: nat, timeout: nat)
    requires SenderInv(s, l) && now >= l.clock
    ensures SenderInv(Settled(s, now, timeout), l.(base := Join(l.base, s.Front().state), clock := now))
  {
    var known := s.Front().state;
    var r := Settled(s, now, timeout);
    var l' := l.(base := Join(l.base, known), clock := now);
    assert Booked(l, s.sent[0]);
    forall i | 0 <= i < |s.sent|
      ensures Booked(l', r.sent[i])
    {
      assert Booked(l, s.sent[i]);
      SubtractMovesIntoBase(l.base, s.sent[i].state, known);
    }
    assert s.Back().num == r.Back().num;
    SubtractMovesIntoBase(l.base, s.current, known);
  }

  /** Recalculating timers settles the sender without renumbering or restamping anything. */
  lemma TimersKeep(s: SenderState, l: Ledger, now: nat, timeout: nat, interval: nat)
    requires SenderInv(s, l) && now >= l.clock
    ensures var r := CalculateTimers(s, now, timeout, interval);
            && SenderInv(r, l.(base := Join(l.base, s.Front().state), clock := now))
            && |r.sent| == |s.sent|
            && (forall i | 0 <= i < |s.sent| ::
                  r.sent[i].num == s.sent[i].num && r.sent[i].timestamp == s.sent[i].timestamp)
            && r.assumed == AssumedFrom(s.sent, 0, now, timeout)
            && (r.assumed == 0 || r.assumed == |r.sent| - 1)
            && r.shutdown == s.shutdown && r.ackNum == s.ackNum && r.lastHeard == s.lastHeard
  {
    hide Join, Before, DiffFrom, Subtract;
    SettledKeeps(s, l, now, timeout);
    AssumedIsEnd(s.sent, 0, now, timeout);
  }

  // ---------- the queue ----------

  /** The number a fresh state gets stands for what is written now, or for nothing yet. */
  lemma NumberIsFree(s: SenderState, l: Ledger)
    requires SenderInv(s, l) && (s.shutdown || s.Back().num + 1 < SHUTDOWN_NUM)
    ensures var n := FreshNum(s); n >= s.Back().num && (n in l.numbers ==> l.numbers[n] == l.written)
  {
    assert Booked(l, s.sent[|s.sent| - 1]);
  }

  /** Sending the current state under a free number books it; thinning loses no end of the queue. */
  lemma AddKeeps(s: SenderState, l: Ledger, now: nat, num: nat)
    requires SenderInv(s, l) && Bounded(s) && now >= l.clock
    requires s.Back().num <= num <= SHUTDOWN_NUM && (num == SHUTDOWN_NUM ==> s.shutdown)
    requires num in l.numbers ==> l.numbers[num] == l.written
    requires s.assumed == 0 || s.assumed == |s.sent| - 1
    ensures var r := AddSentState(s, now, num, s.current);
            && SenderInv(r, l.(numbers := l.numbers[num := l.written], clock := now))
            && Bounded(r)
            && r.Front() == s.Front()
            && r.Back() == TimestampedState(now, num, s.current)
            && r.Assumed() == s.Assumed()
            && r.shutdown == s.shutdown && r.ackNum == s.ackNum && r.current == s.current
  {
    var l' := l.(numbers := l.numbers[num := l.written], clock := now);
    var grown := s.sent + [TimestampedState(now, num, s.current)];
    GrowingKeepsOrder(s, l, now, num);
    ThinningKeepsOrder(grown, l');
    NumbersGrow(l, s.Back().num, s.shutdown, num, now);
    ThinningKeepsAssumed(s, now, num, s.current);
  }

  /** Thinning never moves the sender off the state its diff was computed from. */
  lemma ThinningKeepsAssumed(s: SenderState, now: nat, num: nat, state: Content)
    requires s.Valid() && Bounded(s) && (s.assumed == 0 || s.assumed == |s.sent| - 1)
    ensures var r := AddSentState(s, now, num, state);
            && r.sent == Thin(s.sent + [TimestampedState(now, num, state)])
            && r.Assumed() == s.Assumed()
            && r.shutdown == s.shutdown && r.ackNum == s.ackNum && r.current == s.current
  {
  }

  lemma NumbersGrow(l: Ledger, back: nat, shutdown: bool, num: nat, now: nat)
    requires NumbersInv(l, back, shutdown)
    requires back <= num <= SHUTDOWN_NUM && (num == SHUTDOWN_NUM ==> shutdown)
    requires num in l.numbers ==> l.numbers[num] == l.written
    ensures NumbersInv(l.(numbers := l.numbers[num := l.written], clock := now), num, shutdown)
  {
  }

  lemma GrowingKeepsOrder(s: SenderState, l: Ledger, now: nat, num: nat)
    requires SenderInv(s, l) && now >= l.clock && s.Back().num <= num
    requires num in l.numbers ==> l.numbers[num] == l.written
    ensures var grown := s.sent + [TimestampedState(now, num, s.current)];
            var l' := l.(numbers := l.numbers[num := l.written], clock := now);
            QueueInv(grown, l')
  {
    var grown := s.sent + [TimestampedState(now, num, s.current)];
    var l' := l.(numbers := l.numbers[num := l.written], clock := now);
    forall i | 0 <= i < |grown|
      ensures Booked(l', grown[i]) && grown[i].num <= num && grown[i].timestamp <= now
    {
      if i < |s.sent| {
        assert Booked(l, s.sent[i]);
      }
    }
  }

  lemma ThinningKeepsOrder(q: seq<TimestampedState>, l: Ledger)
    requires 2 <= |q| <= MAX_SENT_STATES + 1
    requires QueueInv(q, l)
    ensures var r := Thin(q);
            && |r| <= MAX_SENT_STATES && r[0] == q[0] && r[|r| - 1] == q[|q| - 1]
            && (|q| > MAX_SENT_STATES ==> r[|r| - 2] == q[|q| - 2])
            && QueueInv(r, l)
  {
    if |q| > MAX_SENT_STATES {
      RemovalKeepsOrder(q, l, Victim(q));
    }
  }

  lemma RemovalKeepsOrder(q: seq<TimestampedState>, l: Ledger, v: nat)
    requires QueueInv(q, l) && 0 < v < |q| - 1
    ensures QueueInv(q[..v] + q[v + 1..], l)
  {
    var r := q[..v] + q[v + 1..];
    forall i | 0 <= i < |r|
      ensures r[i] == q[if i < v then i else i + 1] && Booked(l, r[i])
    {
    }
    forall i, j | 0 <= i < j < |r|
      ensures r[i].num <= r[j].num && r[i].timestamp <= r[j].timestamp
    {
      assert r[i] == q[if i < v then i else i + 1];
      assert r[j] == q[if j < v then j else j + 1];
    }
  }

  // ---------- one tick ----------

  /** An instruction that tells the truth about the numbers it names. */
  ghost predicate Honest(m: Instruction, numbers: map<nat, Content>) {
    && m.protocolVersion == PROTOCOL_VERSION
    && m.oldNum in numbers && m.newNum in numbers && m.oldNum <= m.newNum
    && m.throwawayNum <= m.oldNum
    && m.diff == DiffFrom(numbers[m.newNum], numbers[m.oldNum])
    && Fits(numbers[m.newNum], numbers[m.oldNum])
  }

  ghost predicate SmallBacklog(s: SenderState) {
    Small(s.current)
  }

  /** The ledger once the acknowledged prefix has been stripped. */
  function Stripped(s: SenderState, l: Ledger, now: nat): Ledger
    requires s.Valid()
  {
    l.(base := Join(l.base, s.Front().state), clock := now)
  }

  /** The diff chosen is the diff from the state the instruction will name. */
  lemma ChosenKeeps(s: SenderState, l: Ledger, env: Env)
    requires SenderInv(s, l) && env.now >= l.clock && SmallBacklog(s)
    ensures var (r, diff) := Chosen(s, env); var c := CalculateTimers(s, env.now, env.timeout, env.interval);
            && SenderInv(r, Stripped(s, l, env.now))
            && (r.assumed == 0 || r.assumed == |r.sent| - 1)
            && diff == DiffFrom(r.current, r.Assumed().state)
            && r == c.(assumed := r.assumed)
            && SmallBacklog(r)
  {
    hide Join, Before, DiffFrom, Subtract, Small;
    TimersKeep(s, l, env.now, env.timeout, env.interval);
    SmallerStays(s.current, s.Front().state);
    assert SmallBacklog(CalculateTimers(s, env.now, env.timeout, env.interval));
    hide CalculateTimers, SmallBacklog, SenderInv;
  }

  /** An instruction made from a settled sender is honest about the number it was given. */
  lemma InstructionHonest(s: SenderState, l: Ledger, r: SenderState, diff: seq<Byte>, num: nat, chaff: seq<Byte>)
    requires SenderInv(s, l) && SmallBacklog(s) && diff == DiffFrom(s.current, s.Assumed().state)
    requires s.Back().num <= num && (num in l.numbers ==> l.numbers[num] == l.written)
    requires r.Valid() && r.Assumed().num == s.Assumed().num && r.Front().num == s.Front().num
    ensures Honest(MakeInstruction(r, diff, num, chaff), l.numbers[num := l.written])
  {
    var old_ := s.Assumed();
    assert Booked(l, old_);
    assert Before(l.numbers[old_.num], l.written);
    DiffIgnoresBase(l.base, s.current, old_.state);
    assert s.Front().num <= old_.num <= s.Back().num;
  }

  lemma EmptyAckKeeps(s: SenderState, l: Ledger, env: Env)
    requires SenderInv(s, l) && Bounded(s) && env.now >= l.clock && SmallBacklog(s)
    requires s.assumed == 0 || s.assumed == |s.sent| - 1
    requires s.shutdown || s.Back().num + 1 < SHUTDOWN_NUM
    requires DiffFrom(s.current, s.Assumed().state) == []
    ensures AttemptKeeps(s, l, env, EmptyAck(s, env))
  {
    hide Join, Before, DiffFrom, Fits, Small, Honest, Booked;
    var num := FreshNum(s);
    NumberIsFree(s, l);
    AddKeeps(s, l, env.now, num);
    InstructionHonest(s, l, AddSentState(s, env.now, num, s.current), [], num, env.chaff);
  }

  /** What every attempt to send establishes. */
  ghost predicate AttemptKeeps(s: SenderState, l: Ledger, env: Env, o: Outgoing)
    requires s.Valid() && o.sender.Valid()
  {
    && var numbers := l.numbers[o.inst.newNum := l.written];
    && SenderInv(o.sender, l.(numbers := numbers, clock := env.now))
    && Bounded(o.sender)
    && Honest(o.inst, numbers)
    && (o.inst.newNum in l.numbers ==> l.numbers[o.inst.newNum] == l.written)
    && o.inst.newNum == o.sender.Back().num
    && o.sender.Front().num == s.Front().num
    && o.inst.throwawayNum == s.Front().num
    && o.inst.oldNum == s.Assumed().num
    && o.inst.ackNum == s.ackNum == o.sender.ackNum
    && o.sender.shutdown == s.shutdown
  }

  lemma DataKeeps(s: SenderState, l: Ledger, diff: seq<Byte>, env: Env)
    requires SenderInv(s, l) && Bounded(s) && env.now >= l.clock && SmallBacklog(s)
    requires s.assumed == 0 || s.assumed == |s.sent| - 1
    requires s.shutdown || s.Back().num + 1 < SHUTDOWN_NUM
    requires diff == DiffFrom(s.current, s.Assumed().state)
    ensures AttemptKeeps(s, l, env, Data(s, diff, env))
  {
    hide Join, Before, DiffFrom, Fits, Small, Honest, Booked;
    var num := DataNum(s);
    NumberIsFree(s, l);
    if num == s.Back().num {
      ResendKeeps(s, l, diff, env);
    } else {
      AddKeeps(s, l, env.now, num);
      InstructionHonest(s, l, AddSentState(s, env.now, num, s.current), diff, num, env.chaff);
    }
  }

  lemma ResendKeeps(s: SenderState, l: Ledger, diff: seq<Byte>, env: Env)
    requires SenderInv(s, l) && Bounded(s) && env.now >= l.clock && SmallBacklog(s)
    requires diff == DiffFrom(s.current, s.Assumed().state)
    requires DataNum(s) == s.Back().num
    ensures AttemptKeeps(s, l, env, Data(s, diff, env))
  {
    hide Join, DiffFrom, Fits, Small, Before;
    var num := s.Back().num;
    var r := s.(sent := s.sent[|s.sent| - 1 := s.Back().(timestamp := env.now)]);
    assert Booked(l, s.Back());
    assert l.numbers[num] == l.written;
    assert l.numbers[num := l.written] == l.numbers;
    RestampKeeps(s, l, env.now);
    InstructionHonest(s, l, r, diff, num, env.chaff);
  }

  /** Sending the newest state again only moves its time forward. */
  lemma RestampKeeps(s: SenderState, l: Ledger, now: nat)
    requires SenderInv(s, l) && now >= l.clock
    ensures SenderInv(s.(sent := s.sent[|s.sent| - 1 := s.Back().(timestamp := now)]), l.(clock := now))
  {
    var q := s.sent[|s.sent| - 1 := s.Back().(timestamp := now)];
    forall i | 0 <= i < |q|
      ensures Booked(l.(clock := now), q[i]) && q[i].timestamp <= now
    {
      assert Booked(l, s.sent[i]);
    }
  }

  /** A whole attempt, from an arbitrary settled or unsettled sender. */
  lemma AttemptHonest(s: SenderState, l: Ledger, env: Env)
    requires SenderInv(s, l) && Bounded(s) && env.now >= l.clock && SmallBacklog(s)
    requires s.shutdown || s.Back().num + 1 < SHUTDOWN_NUM
    requires Attempt(s, env).Some?
    ensures var s2 := Chosen(s, env).0;
            && AttemptKeeps(s2, Stripped(s, l, env.now), env, Attempt(s, env).value)
            && s2.Front().num == s.Front().num && s2.ackNum == s.ackNum
  {
    TimersKeep(s, l, env.now, env.timeout, env.interval);
    ChosenKeeps(s, l, env);
    var (s2, diff) := Chosen(s, env);
    var l' := Stripped(s, l, env.now);
    if diff != [] {
      DataKeeps(s2, l', diff, env);
    } else {
      EmptyAckKeeps(s2, l', env);
    }
  }
}

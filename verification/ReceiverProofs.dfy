/** What receiving keeps, stated against what the peer's numbers stand for. */
module ReceiverProofs {
  import opened Arithmetic
  import opened Options
  import opened States
  import opened Instructions
  import opened Fragments
  import opened SenderSpec
  import opened TransportSpec
  import opened SenderProofs

  // ---------- acknowledgements, at the sender ----------

  lemma {:induction false} AllAtLeast(q: seq<TimestampedState>, num: nat)
    requires forall i | 0 <= i < |q| :: q[i].num >= num
    ensures AtLeast(q, num) == q
  {
    if q != [] {
      AllAtLeast(q[1..], num);
    }
  }

  lemma {:induction false} AtLeastIsSuffix(q: seq<TimestampedState>, num: nat) returns (k: nat)
    requires Sorted(q)
    ensures k <= |q| && AtLeast(q, num) == q[k..]
    ensures forall i | 0 <= i < k :: q[i].num < num
    ensures k < |q| ==> q[k].num >= num
  {
    k := 0;
    if q != [] && q[0].num >= num {
      AllAtLeast(q, num);
    } else if q != [] {
      SortedTail(q);
      hide Sorted;
      var rest := AtLeastIsSuffix(q[1..], num);
      k := rest + 1;
      assert q[1..][rest..] == q[k..];
      forall i | 0 <= i < k
        ensures q[i].num < num
      {
        if i > 0 { assert q[i] == q[1..][i - 1]; }
      }
    }
  }

  lemma SortedTail(q: seq<TimestampedState>)
    requires Sorted(q) && q != []
    ensures Sorted(q[1..])
  {
  }

  /** What culling by an acknowledgement leaves is a suffix that starts at the number acknowledged. */
  lemma AcknowledgmentCulls(s: SenderState, l: Ledger, num: nat)
    requires s.Valid() && QueueInv(s.sent, l) && Holds(s.sent, num)
    ensures var q := ProcessAcknowledgment(s, num).sent;
            QueueInv(q, l) && |q| <= |s.sent| && q[0].num == num >= s.sent[0].num && q[|q| - 1] == s.Back()
  {
    var k := AtLeastIsSuffix(s.sent, num);
    SuffixFromNumber(s.sent, l, num, k);
  }

  lemma SuffixFromNumber(q: seq<TimestampedState>, l: Ledger, num: nat, k: nat)
    requires QueueInv(q, l) && Holds(q, num) && k <= |q|
    requires forall i | 0 <= i < k :: q[i].num < num
    requires k < |q| ==> q[k].num >= num
    ensures k < |q| && q[k].num == num >= q[0].num
    ensures QueueInv(q[k..], l) && q[k..][|q| - k - 1] == q[|q| - 1]
  {
    var i :| 0 <= i < |q| && q[i].num == num;
    assert k <= i;
    SuffixKeeps(q, l, k);
  }

  /** Acknowledging a state makes it the baseline; acknowledging a culled one changes nothing. */
  lemma AcknowledgmentKeeps(s: SenderState, l: Ledger, num: nat)
    requires SenderInv(s, l) && Bounded(s)
    ensures var r := ProcessAcknowledgment(s, num);
            && SenderInv(r, l) && Bounded(r)
            && r.Front().num == (if Holds(s.sent, num) then num else s.Front().num)
            && r.Front().num >= s.Front().num
  {
    var r := ProcessAcknowledgment(s, num);
    if Holds(s.sent, num) {
      AcknowledgmentCulls(s, l, num);
      SameBackKeeps(s, r, l);
    }
  }

  lemma SameBackKeeps(s: SenderState, r: SenderState, l: Ledger)
    requires SenderInv(s, l) && r.Valid() && QueueInv(r.sent, l)
    requires r.current == s.current && r.shutdown == s.shutdown && r.Back() == s.Back()
    ensures SenderInv(r, l)
  {
  }

  lemma SuffixKeeps(q: seq<TimestampedState>, l: Ledger, k: nat)
    requires QueueInv(q, l) && k < |q|
    ensures QueueInv(q[k..], l) && q[k..][|q| - k - 1] == q[|q| - 1]
  {
    assert forall i | 0 <= i < |q| - k :: q[k..][i] == q[k + i];
  }

  // ---------- the received queue ----------

  ghost predicate Increasing(q: seq<TimestampedState>) {
    forall i, j | 0 <= i < j < |q| :: q[i].num < q[j].num
  }

  /** The state under each number held is what the peer's number stands for. */
  ghost predicate Faithful(q: seq<TimestampedState>, base: Content, numbers: map<nat, Content>) {
    forall i | 0 <= i < |q| :: q[i].num in numbers && Join(base, q[i].state) == numbers[q[i].num]
  }

  ghost predicate ReceiverInv(q: seq<TimestampedState>, base: Content, numbers: map<nat, Content>) {
    q != [] && Increasing(q) && Faithful(q, base, numbers)
  }

  lemma {:induction false} KeepFromIsFirst(q: seq<TimestampedState>, num: nat, i: nat)
    requires i < |q|
    ensures var k := KeepFrom(q, num, i);
            (forall j | i <= j < k :: q[j].num < num) && (q[k].num >= num || k == |q| - 1)
    decreases |q| - i
  {
    if q[i].num < num && i + 1 < |q| {
      KeepFromIsFirst(q, num, i + 1);
    }
  }

  /** Throwing away drops nothing numbered at or above the bound, and never the newest. */
  lemma ThrowawayKeeps(q: seq<TimestampedState>, num: nat, base: Content, numbers: map<nat, Content>)
    requires ReceiverInv(q, base, numbers)
    ensures var r := ProcessThrowaway(q, num);
            && ReceiverInv(r, base, numbers)
            && r[|r| - 1] == q[|q| - 1]
            && (forall n: nat | Holds(r, n) :: Holds(q, n))
            && (forall n: nat | Holds(q, n) && n >= num :: Holds(r, n))
  {
    KeepFromIsFirst(q, num, 0);
    var k := KeepFrom(q, num, 0);
    var r := q[k..];
    forall n: nat | Holds(r, n)
      ensures Holds(q, n)
    {
      var i :| 0 <= i < |r| && r[i].num == n;
      assert q[k + i].num == n;
    }
    forall n: nat | Holds(q, n) && n >= num
      ensures Holds(r, n)
    {
      var i :| 0 <= i < |q| && q[i].num == n;
      assert i >= k;
      assert r[i - k].num == n;
    }
  }

  lemma {:induction false} InsertAtIsFirst(q: seq<TimestampedState>, num: nat, i: nat)
    requires i <= |q|
    ensures var k := InsertAt(q, num, i);
            (forall j | i <= j < k :: q[j].num <= num) && (k < |q| ==> q[k].num > num)
    decreases |q| - i
  {
    if i < |q| && q[i].num <= num {
      InsertAtIsFirst(q, num, i + 1);
    }
  }

  /** A new number goes where it keeps the queue ordered, and nothing else moves. */
  lemma InsertKeeps(q: seq<TimestampedState>, s: TimestampedState, base: Content, numbers: map<nat, Content>)
    requires ReceiverInv(q, base, numbers) && !Holds(q, s.num)
    requires s.num in numbers && Join(base, s.state) == numbers[s.num]
    ensures var r := Insert(q, s);
            && ReceiverInv(r, base, numbers)
            && (forall n: nat :: Holds(r, n) <==> n == s.num || Holds(q, n))
            && r[|r| - 1] == (if s.num > q[|q| - 1].num then s else q[|q| - 1])
  {
    InsertAtIsFirst(q, s.num, 0);
    var k := InsertAt(q, s.num, 0);
    forall i | 0 <= i < |q|
      ensures if i < k then q[i].num < s.num else q[i].num > s.num
    {
      assert q[i].num != s.num;
      assert k < i ==> q[k].num < q[i].num;
    }
    InsertHolds(q, s, k);
    InsertIncreasing(q, s, k);
    InsertFaithful(q, s, k, base, numbers);
  }

  lemma InsertFaithful(q: seq<TimestampedState>, s: TimestampedState, k: nat, base: Content, numbers: map<nat, Content>)
    requires Faithful(q, base, numbers) && k <= |q|
    requires s.num in numbers && Join(base, s.state) == numbers[s.num]
    ensures Faithful(q[..k] + [s] + q[k..], base, numbers)
  {
    var r := q[..k] + [s] + q[k..];
    assert forall i | 0 <= i < |r| :: r[i] == if i < k then q[i] else if i == k then s else q[i - 1];
  }

  lemma InsertIncreasing(q: seq<TimestampedState>, s: TimestampedState, k: nat)
    requires Increasing(q) && k <= |q|
    requires forall i | 0 <= i < |q| :: if i < k then q[i].num < s.num else q[i].num > s.num
    ensures Increasing(q[..k] + [s] + q[k..])
  {
    var r := q[..k] + [s] + q[k..];
    assert forall i | 0 <= i < |r| :: r[i] == if i < k then q[i] else if i == k then s else q[i - 1];
  }

  lemma InsertHolds(q: seq<TimestampedState>, s: TimestampedState, k: nat)
    requires k <= |q|
    ensures forall n: nat :: Holds(q[..k] + [s] + q[k..], n) <==> n == s.num || Holds(q, n)
  {
    var r := q[..k] + [s] + q[k..];
    forall n: nat
      ensures Holds(r, n) <==> n == s.num || Holds(q, n)
    {
      if Holds(q, n) {
        var i :| 0 <= i < |q| && q[i].num == n;
        assert r[if i < k then i else i + 1].num == n;
      }
      if Holds(r, n) && n != s.num {
        var i :| 0 <= i < |r| && r[i].num == n;
        assert q[if i < k then i else i - 1].num == n;
      }
      assert r[k].num == s.num;
    }
  }

  lemma {:induction false} FindFinds(q: seq<TimestampedState>, num: nat, i: nat)
    requires i <= |q|
    ensures var f := Find(q, num, i);
            && (f.Some? ==> f.value.num == num && f.value in q)
            && (f.Some? <==> exists j :: i <= j < |q| && q[j].num == num)
    decreases |q| - i
  {
    if i < |q| && q[i].num != num {
      FindFinds(q, num, i + 1);
    }
  }

  /**
   * An honest instruction is never refused. What it adds stands for the number it names, and what
   * it throws away is below the peer's baseline, so the baseline stays held.
   */
  lemma ApplyKeeps(r: ReceiverState, s: SenderState, inst: Instruction, now: nat,
                   base: Content, numbers: map<nat, Content>, front: nat)
    requires r.Valid() && s.Valid()
    requires ReceiverInv(r.received, base, numbers) && Ordered(numbers)
    requires Honest(inst, numbers) && inst.throwawayNum <= front && Holds(r.received, front)
    ensures Progress(r, ProcessAcknowledgment(s, inst.ackNum), ApplyInstruction(r, s, inst, now), base, numbers, front)
  {
    hide Ordered, Grow, Find, ProcessThrowaway, ProcessAcknowledgment, Join, Before, DiffFrom, Fits;
    var reference := Find(r.received, inst.oldNum, 0);
    var s1 := ProcessAcknowledgment(s, inst.ackNum);
    if Holds(r.received, inst.newNum) || reference == None {
      assert Progress(r, s1, Applied(r, s1, Ignored), base, numbers, front);
    } else {
      FindFinds(r.received, inst.oldNum, 0);
      ThrowawayKeeps(r.received, inst.throwawayNum, base, numbers);
      var kept := r.(received := ProcessThrowaway(r.received, inst.throwawayNum));
      GrowMakesProgress(r, kept, s1, reference.value, inst, now, base, numbers, front);
    }
  }

  lemma GrowMakesProgress(r: ReceiverState, kept: ReceiverState, s: SenderState, reference: TimestampedState,
                          inst: Instruction, now: nat, base: Content, numbers: map<nat, Content>, front: nat)
    requires r.Valid() && s.Valid() && kept.Valid()
    requires ReceiverInv(kept.received, base, numbers) && Ordered(numbers)
    requires Honest(inst, numbers) && inst.throwawayNum <= front && Holds(r.received, front)
    requires Join(base, reference.state) == numbers[inst.oldNum] && reference.num == inst.oldNum
    requires !Holds(kept.received, inst.newNum)
    requires kept.Newest() == r.Newest() && kept.last == r.last
    requires forall n: nat | Holds(r.received, n) && n >= inst.throwawayNum :: Holds(kept.received, n)
    ensures Progress(r, s, Grow(kept, s, reference.state, inst, now), base, numbers, front)
  {
    GrowKeeps(kept, s, reference, inst, now, base, numbers);
  }

  /** What taking an honest instruction in establishes, over the sender its acknowledgement culled. */
  ghost predicate Progress(r: ReceiverState, s: SenderState, a: Applied,
                           base: Content, numbers: map<nat, Content>, front: nat)
    requires r.Valid()
  {
    && a.receiver.Valid() && !a.outcome.Refused?
    && ReceiverInv(a.receiver.received, base, numbers)
    && Holds(a.receiver.received, front)
    && (forall n: nat | Holds(r.received, n) :: Holds(a.receiver.received, n) || n < front)
    && a.receiver.Newest().num >= r.Newest().num
    && a.receiver.last == r.last
    && (s.ackNum == r.Newest().num ==> a.sender.ackNum == a.receiver.Newest().num)
    && AckedOnly(s, a.sender)
  }

  lemma GrowKeeps(r: ReceiverState, s: SenderState, reference: TimestampedState, inst: Instruction, now: nat,
                  base: Content, numbers: map<nat, Content>)
    requires r.Valid() && s.Valid()
    requires ReceiverInv(r.received, base, numbers) && Ordered(numbers) && Honest(inst, numbers)
    requires reference.num == inst.oldNum && Join(base, reference.state) == numbers[reference.num]
    requires !Holds(r.received, inst.newNum)
    ensures var a := Grow(r, s, reference.state, inst, now);
            && a.outcome == (if Quenched(r, now) then Ignored else Accepted)
            && ReceiverInv(a.receiver.received, base, numbers)
            && (forall n: nat ::
                  Holds(a.receiver.received, n) <==> Holds(r.received, n) || (a.outcome.Accepted? && n == inst.newNum))
            && a.receiver.Newest().num
              == (if a.outcome.Accepted? then Max(r.Newest().num, inst.newNum) else r.Newest().num)
            && a.receiver.last == r.last
            && a.sender.ackNum == (if a.outcome.Accepted? then a.receiver.Newest().num else s.ackNum)
            && AckedOnly(s, a.sender)
  {
    hide Advance, Honest, Ordered, Increasing, Faithful, Insert, ReceiverInv, Join, ProcessAcknowledgment;
    AdvanceLandsOnNumber(reference, inst, base, numbers);
    if !Quenched(r, now) {
      var state := Advance(reference.state, inst.diff).value;
      InsertKeeps(r.received, TimestampedState(now, inst.newNum, state), base, numbers);
    }
  }

  /** Receiving changes nothing the sender sends from, beyond what the acknowledgement culled. */
  ghost predicate AckedOnly(s: SenderState, r: SenderState) {
    r.sent == s.sent && r.current == s.current && r.assumed == s.assumed && r.shutdown == s.shutdown
  }

  lemma AdvanceLandsOnNumber(reference: TimestampedState, inst: Instruction, base: Content, numbers: map<nat, Content>)
    requires Honest(inst, numbers) && Ordered(numbers)
    requires reference.num == inst.oldNum && Join(base, reference.state) == numbers[reference.num]
    ensures inst.newNum in numbers && Advance(reference.state, inst.diff).Some?
    ensures Join(base, Advance(reference.state, inst.diff).value) == numbers[inst.newNum]
  {
    DiffThenApply(numbers[inst.newNum], numbers[inst.oldNum]);
    AdvanceCommutesWithBase(base, reference.state, inst.diff);
  }

  // ---------- handing the newest state over ----------

  /** The diff handed over completes what was delivered to exactly the newest state's content. */
  lemma CollectKeeps(r: ReceiverState, base: Content, numbers: map<nat, Content>, delivered: Content)
    requires r.Valid() && ReceiverInv(r.received, base, numbers) && Ordered(numbers)
    requires Join(base, r.last) == delivered && Before(delivered, numbers[r.Newest().num])
    requires Fits(r.Newest().state, r.last)
    ensures var (r', diff) := GetRemoteDiff(r);
            var base' := Join(base, r.received[0].state);
            && ReceiverInv(r'.received, base', numbers)
            && (forall n: nat :: Holds(r'.received, n) <==> Holds(r.received, n))
            && r'.Newest().num == r.Newest().num
            && Advance(delivered, diff) == Some(numbers[r.Newest().num])
            && Join(base', r'.last) == numbers[r.Newest().num]
  {
    var known := r.received[0].state;
    var r' := GetRemoteDiff(r).0;
    forall i | 0 <= i < |r.received|
      ensures Join(Join(base, known), r'.received[i].state) == Join(base, r.received[i].state)
    {
      SubtractMovesIntoBase(base, r.received[i].state, known);
    }
    var newest := r.Newest().state;
    DiffIgnoresBase(base, newest, r.last);
    DiffThenApply(newest, r.last);
    AdvanceCommutesWithBase(base, r.last, DiffFrom(newest, r.last));
    assert forall i | 0 <= i < |r.received| :: r'.received[i].num == r.received[i].num;
    forall n: nat
      ensures Holds(r'.received, n) <==> Holds(r.received, n)
    {
    }
  }
}

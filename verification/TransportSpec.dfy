/** What the receiving half of an endpoint computes, as functions of its state. */
module TransportSpec {
  import opened Options
  import opened States
  import opened Instructions
  import opened Fragments
  import opened SenderSpec

  /** A queue longer than this grows only now and then. */
  const MAX_RECEIVED_STATES := 1024

  /** And this is the least time between two such growths. */
  const QUENCH_INTERVAL := 15000

  /** Remote states that can still be diffed against, oldest first, and the one last handed over. */
  datatype ReceiverState = ReceiverState(
    received: seq<TimestampedState>, quenchTimer: nat, last: Content)
  {
    predicate Valid() { received != [] }

    function Newest(): TimestampedState
      requires Valid()
    { received[|received| - 1] }
  }

  function InitialReceiver(initial: Content, now: nat): (r: ReceiverState)
    ensures r.Valid()
  {
    ReceiverState([TimestampedState(now, 0, initial)], 0, initial)
  }

  /** Hand over what is new, remember the newest state for the next time, and strip all states of the oldest one. */
  function GetRemoteDiff(r: ReceiverState): (p: (ReceiverState, seq<Byte>))
    requires r.Valid()
    ensures p.0.Valid()
  {
    var received := Strip(r.received, r.received[0].state);
    (ReceiverState(received, r.quenchTimer, received[|received| - 1].state),
     DiffFrom(r.Newest().state, r.last))
  }

  /** Index of the first state numbered `num` or more, or of the newest. */
  function KeepFrom(received: seq<TimestampedState>, num: nat, i: nat): (k: nat)
    requires i < |received|
    ensures i <= k < |received|
    decreases |received| - i
  {
    if received[i].num >= num || i + 1 == |received| then i else KeepFrom(received, num, i + 1)
  }

  function ProcessThrowaway(received: seq<TimestampedState>, num: nat): (r: seq<TimestampedState>)
    requires received != []
    ensures r != []
  {
    received[KeepFrom(received, num, 0)..]
  }

  /** Index of the first state numbered above `num`, or the length. */
  function InsertAt(received: seq<TimestampedState>, num: nat, i: nat): (k: nat)
    requires i <= |received|
    ensures i <= k <= |received|
    decreases |received| - i
  {
    if i == |received| || received[i].num > num then i else InsertAt(received, num, i + 1)
  }

  function Insert(received: seq<TimestampedState>, s: TimestampedState): (r: seq<TimestampedState>)
    ensures r != []
  {
    var k := InsertAt(received, s.num, 0);
    received[..k] + [s] + received[k..]
  }

  function Find(received: seq<TimestampedState>, num: nat, i: nat): (r: Option<TimestampedState>)
    requires i <= |received|
    decreases |received| - i
  {
    if i == |received| then None
    else if received[i].num == num then Some(received[i])
    else Find(received, num, i + 1)
  }

  datatype TransportError = ProtocolVersionMismatch | MalformedInstruction

  datatype Outcome = Accepted | Ignored | Refused(error: TransportError)

  /** What the caller learns of a datagram: all is well, whether or not it completed anything, or what was wrong. */
  datatype Received = Done | Failed(error: TransportError)

  datatype Applied = Applied(receiver: ReceiverState, sender: SenderState, outcome: Outcome)

  /** What an instruction does to both halves of an endpoint, and what is reported of it. */
  function ApplyInstruction(r: ReceiverState, s: SenderState, inst: Instruction, now: nat): (a: Applied)
    requires r.Valid() && s.Valid()
    ensures a.receiver.Valid() && a.sender.Valid()
  {
    if inst.protocolVersion != PROTOCOL_VERSION then Applied(r, s, Refused(ProtocolVersionMismatch))
    else
      var s1 := ProcessAcknowledgment(s, inst.ackNum);
      // A repeat.
      if Holds(r.received, inst.newNum) then Applied(r, s1, Ignored)
      else
        var reference := Find(r.received, inst.oldNum, 0);
        // No state to apply the diff to.
        if reference == None then Applied(r, s1, Ignored)
        else
          var kept := r.(received := ProcessThrowaway(r.received, inst.throwawayNum));
          Grow(kept, s1, reference.value.state, inst, now)
  }

  predicate Quenched(r: ReceiverState, now: nat) {
    |r.received| > MAX_RECEIVED_STATES && now < r.quenchTimer
  }

  /** Add the state the instruction moves to, unless the queue is full or the diff malformed. */
  function Grow(r: ReceiverState, s: SenderState, reference: Content, inst: Instruction, now: nat): (a: Applied)
    requires r.Valid() && s.Valid()
    ensures a.receiver.Valid() && a.sender.Valid()
  {
    if Quenched(r, now) then Applied(r, s, Ignored)
    else
      var r1 := if |r.received| > MAX_RECEIVED_STATES then r.(quenchTimer := now + QUENCH_INTERVAL) else r;
      match Advance(reference, inst.diff)
      case None => Applied(r1, s, Refused(MalformedInstruction))
      case Some(state) =>
        var s1 := if inst.diff == [] then s else s.(pendingDataAck := true);
        var r2 := r1.(received := Insert(r1.received, TimestampedState(now, inst.newNum, state)));
        Applied(r2, s1.(ackNum := r2.Newest().num, lastHeard := now), Accepted)
  }
}

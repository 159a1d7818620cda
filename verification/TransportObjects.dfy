/** The endpoint as the object the program keeps: a sender and the states received. */
module TransportObjects {
  import opened Options
  import opened States
  import opened Instructions
  import opened Fragments
  import opened FragmentObjects
  import opened SenderSpec
  import opened TransportSpec
  import opened Sender

  class Transport {
    const sender: TransportSender
    const fragments: FragmentAssembly
    const codec: Codec
    var receivedStates: seq<TimestampedState>
    var receiverQuenchTimer: nat
    var lastReceiverState: Content

    ghost function State(): ReceiverState
      reads this
    {
      ReceiverState(receivedStates, receiverQuenchTimer, lastReceiverState)
    }

    ghost predicate Valid()
      reads this, sender
    {
      State().Valid() && sender.State().Valid()
    }

    constructor (initial: Content, remote: Content, now: nat, codec: Codec)
      ensures Valid() && this.codec == codec && sender.codec == codec
      ensures State() == InitialReceiver(remote, now) && sender.State() == Initial(initial, now)
      ensures fragments.State() == FRESH_ASSEMBLY && sender.fragmenter.State() == FRESH_FRAGMENTER
      ensures fresh(sender) && fresh(sender.fragmenter) && fresh(fragments)
    {
      sender := new TransportSender(initial, now, codec);
      fragments := new FragmentAssembly();
      this.codec := codec;
      receivedStates := [TimestampedState(now, 0, remote)];
      receiverQuenchTimer := 0;
      lastReceiverState := remote;
    }

    method RemoteStateNum() returns (num: nat)
      requires Valid()
      ensures num == State().Newest().num
    {
      return receivedStates[|receivedStates| - 1].num;
    }

    /** Hand over what is new and strip all states of the oldest one. */
    method GetRemoteDiff() returns (diff: seq<Byte>)
      requires Valid()
      modifies this
      ensures (State(), diff) == TransportSpec.GetRemoteDiff(old(State()))
    {
      hide DiffFrom, Subtract;
      ghost var was := receivedStates;
      diff := DiffFrom(receivedStates[|receivedStates| - 1].state, lastReceiverState);
      var oldest := receivedStates[0].state;
      var i := 0;
      while i < |receivedStates|
        invariant 0 <= i <= |receivedStates| == |was|
        invariant receiverQuenchTimer == old(receiverQuenchTimer) && lastReceiverState == old(lastReceiverState)
        invariant forall j | 0 <= j < |was| ::
          receivedStates[j] == if j < i then was[j].(state := Subtract(was[j].state, oldest)) else was[j]
      {
        receivedStates := receivedStates[i := receivedStates[i].(state := Subtract(receivedStates[i].state, oldest))];
        i := i + 1;
      }
      assert receivedStates == Strip(was, oldest);
      lastReceiverState := receivedStates[|receivedStates| - 1].state;
    }

    /** Forget the states below a number, but never the newest. */
    method ProcessThrowawayUntil(num: nat)
      requires Valid()
      modifies this`receivedStates
      ensures receivedStates == ProcessThrowaway(old(receivedStates), num) != []
    {
      var i := 0;
      while receivedStates[i].num < num && i + 1 < |receivedStates|
        invariant 0 <= i < |receivedStates|
        decreases |receivedStates| - i
        invariant KeepFrom(receivedStates, num, 0) == KeepFrom(receivedStates, num, i)
      {
        i := i + 1;
      }
      receivedStates := receivedStates[i..];
    }

    /** Whether a state with this number is held, and if so where. */
    method Search(num: nat) returns (found: Option<TimestampedState>)
      ensures found == Find(receivedStates, num, 0)
      ensures found.Some? <==> Holds(receivedStates, num)
    {
      var i := 0;
      while i < |receivedStates|
        invariant 0 <= i <= |receivedStates|
        invariant Find(receivedStates, num, 0) == Find(receivedStates, num, i)
        invariant forall j | 0 <= j < i :: receivedStates[j].num != num
      {
        if receivedStates[i].num == num {
          return Some(receivedStates[i]);
        }
        i := i + 1;
      }
      return None;
    }

    /** Put a new state where it keeps the queue ordered by number. */
    method InsertState(s: TimestampedState)
      modifies this`receivedStates
      ensures receivedStates == Insert(old(receivedStates), s)
    {
      var pos := 0;
      while pos < |receivedStates| && receivedStates[pos].num <= s.num
        invariant 0 <= pos <= |receivedStates|
        invariant InsertAt(receivedStates, s.num, 0) == InsertAt(receivedStates, s.num, pos)
      {
        pos := pos + 1;
      }
      receivedStates := receivedStates[..pos] + [s] + receivedStates[pos..];
    }

    /** Check an instruction, and take what it brings. */
    method ApplyInstruction(inst: Instruction, now: nat) returns (outcome: Outcome)
      requires Valid()
      modifies this, sender
      ensures Valid()
      ensures Applied(State(), sender.State(), outcome) ==
              TransportSpec.ApplyInstruction(old(State()), old(sender.State()), inst, now)
    {
      if inst.protocolVersion != PROTOCOL_VERSION {
        return Refused(ProtocolVersionMismatch);
      }
      sender.ProcessAcknowledgmentThrough(inst.ackNum);
      var known := Search(inst.newNum);
      if known.Some? {
        return Ignored;
      }
      var reference := Search(inst.oldNum);
      if reference == None {
        return Ignored;
      }
      ProcessThrowawayUntil(inst.throwawayNum);
      outcome := AddReceived(reference.value.state, inst, now);
    }

    /** Add the state an instruction moves to, unless the queue is full or the diff malformed. */
    method AddReceived(reference: Content, inst: Instruction, now: nat) returns (outcome: Outcome)
      requires Valid()
      modifies this, sender
      ensures Valid()
      ensures Applied(State(), sender.State(), outcome) == Grow(old(State()), old(sender.State()), reference, inst, now)
    {
      if |receivedStates| > MAX_RECEIVED_STATES {
        if now < receiverQuenchTimer {
          return Ignored;
        }
        receiverQuenchTimer := now + QUENCH_INTERVAL;
      }
      var state := reference;
      if inst.diff != [] {
        var applied := Apply(state, inst.diff);
        if applied == None {
          return Refused(MalformedInstruction);
        }
        state := applied.value;
        sender.pendingDataAck := true;
      }
      InsertState(TimestampedState(now, inst.newNum, state));
      sender.ackNum := receivedStates[|receivedStates| - 1].num;
      sender.lastHeard := now;
      return Accepted;
    }

    /** Take in the payload of one datagram; when its fragment completes an instruction, apply that. */
    method Recv(payload: seq<Byte>, now: nat) returns (r: Received)
      requires Valid()
      modifies this, sender, fragments
      ensures Valid()
      ensures FromBytes(payload).Err? ==>
        && r == Failed(MalformedInstruction) && fragments.State() == old(fragments.State())
        && State() == old(State()) && sender.State() == old(sender.State())
      ensures FromBytes(payload).Ok? ==>
        var (assembly, done) := Fragments.AddFragment(old(fragments.State()), FromBytes(payload).value);
        var (after, got) := Fragments.GetAssembly(assembly, codec);
        && fragments.State() == (if done then after else assembly)
        && (!done || got.Err? ==>
              && r == (if done then Failed(MalformedInstruction) else Done)
              && State() == old(State()) && sender.State() == old(sender.State()))
        && (done && got.Ok? ==>
              var a := TransportSpec.ApplyInstruction(old(State()), old(sender.State()), got.value, now);
              && r == (if a.outcome.Refused? then Failed(a.outcome.error) else Done)
              && State() == a.receiver && sender.State() == a.sender)
    {
      var frag := FromBytes(payload);
      if frag.Err? {
        return Failed(MalformedInstruction);
      }
      var done := fragments.AddFragment(frag.value);
      if !done {
        return Done;
      }
      var got := fragments.GetAssembly(codec);
      if got.Err? {
        return Failed(MalformedInstruction);
      }
      var outcome := ApplyInstruction(got.value, now);
      return if outcome.Refused? then Failed(outcome.error) else Done;
    }

    method Tick(env: Env) returns (pieces: seq<Fragment>)
      requires Valid()
      modifies sender, sender.fragmenter
      ensures Valid()
      ensures var r := SenderSpec.Tick(old(sender.State()), old(sender.fragmenter.State()), sender.codec, env);
              sender.State() == r.sender && sender.fragmenter.State() == r.fragmenter && pieces == r.pieces
    {
      pieces := sender.Tick(env);
    }
  }
}

/** The sending half of an endpoint as the object the program keeps. */
module Sender {
  import opened Arithmetic
  import opened Options
  import opened States
  import opened Instructions
  import opened Fragments
  import opened FragmentObjects
  import opened SenderSpec

  /** The timer calculation taken step by step. */
  lemma TimersAre(s: SenderState, now: nat, timeout: nat, interval: nat)
    requires s.Valid()
    ensures var settled := Settled(s, now, timeout);
            && settled == Rationalize(s.(assumed := AssumedFrom(s.sent, 0, now, timeout)))
            && SenderSpec.CalculateTimers(s, now, timeout, interval) ==
               ScheduleAck(SenderSpec.ScheduleSend(HurryDataAck(settled, now), now, timeout, interval), interval)
  {
  }

  lemma DataIs(s: SenderState, numbered: SenderState, num: nat, diff: seq<Byte>, env: Env)
    requires s.Valid() && numbered.Valid() && num == DataNum(s)
    requires numbered == if num == s.Back().num then s.(sent := s.sent[|s.sent| - 1 := s.Back().(timestamp := env.now)])
                         else SenderSpec.AddSentState(s, env.now, num, s.current)
    ensures Data(s, diff, env)
      == Outgoing(CountShutdown(numbered, num), MakeInstruction(numbered, diff, num, env.chaff))
  {
    hide SenderSpec.AddSentState, CountShutdown, MakeInstruction;
  }

  /** A tick taken step by step. */
  lemma TickIs(s: SenderState, f: FragmenterState, codec: Codec, env: Env)
    requires s.Valid()
    ensures var s1 := SenderSpec.CalculateTimers(s, env.now, env.timeout, env.interval);
            var r := SenderSpec.Tick(s, f, codec, env);
            if !Due(s1, env) then r.sender == s1 && r.fragmenter == f && r.pieces == []
            else
              var (s2, diff) := ProspectiveResend(s1, DiffFrom(s1.current, s1.Assumed().state));
              && s2.Valid()
              && var o := AttemptDue(s2, diff, env);
                 if o == None then r.sender == AfterDue(s2, diff, env, false) && r.fragmenter == f && r.pieces == []
                 else
                   var room := FragmentRoom(env.mtu);
                   var made := Fragments.MakeFragments(f, codec, o.value.inst, room);
                   && r.pieces == (if made.Ok? then made.value else [])
                   && r.fragmenter == AfterFragmenting(f, o.value.inst, PieceSize(room))
                   && r.sender == AfterDue(s2, diff, env, made.Ok?)
  {
    hide SenderSpec.CalculateTimers, AttemptDue, AfterDue, Fragments.MakeFragments, AfterFragmenting, DiffFrom;
  }

  class TransportSender {
    var currentState: Content
    var sentStates: seq<TimestampedState>
    var assumedReceiverState: nat
    const fragmenter: Fragmenter
    const codec: Codec
    var nextAckTime: nat
    var nextSendTime: nat
    var shutdownInProgress: bool
    var shutdownTries: nat
    var shutdownStart: nat
    var ackNum: nat
    var pendingDataAck: bool
    var sendMindelay: nat
    var lastHeard: nat
    var mindelayClock: Option<nat>

    ghost function State(): SenderState
      reads this
    {
      SenderState(currentState, sentStates, assumedReceiverState, nextAckTime, nextSendTime, shutdownInProgress,
                  shutdownTries, shutdownStart, ackNum, pendingDataAck, sendMindelay, lastHeard, mindelayClock)
    }

    constructor (initial: Content, now: nat, codec: Codec)
      ensures State() == Initial(initial, now) && this.codec == codec
      ensures fresh(fragmenter) && fragmenter.State() == FRESH_FRAGMENTER
    {
      currentState := initial;
      sentStates := [TimestampedState(now, 0, initial)];
      assumedReceiverState := 0;
      fragmenter := new Fragmenter();
      this.codec := codec;
      nextAckTime, nextSendTime := now, now;
      shutdownInProgress, shutdownTries, shutdownStart := false, 0, 0;
      ackNum, pendingDataAck := 0, false;
      sendMindelay, lastHeard, mindelayClock := 8, 0, None;
    }

    /** Move the assumption forward over the states sent recently. */
    method UpdateAssumedReceiverState(now: nat, timeout: nat)
      requires State().Valid()
      modifies this`assumedReceiverState
      ensures assumedReceiverState == AssumedFrom(sentStates, 0, now, timeout)
    {
      assumedReceiverState := 0;
      var i := 1;
      while i < |sentStates|
        invariant 1 <= i <= |sentStates| && assumedReceiverState == i - 1
        invariant AssumedFrom(sentStates, 0, now, timeout) == AssumedFrom(sentStates, i - 1, now, timeout)
      {
        if SaturatingSub(now, sentStates[i].timestamp) < timeout + ACK_DELAY {
          assumedReceiverState := i;
        } else {
          return;
        }
        i := i + 1;
      }
    }

    /** Drop the prefix every state shares. */
    method RationalizeStates()
      requires State().Valid()
      modifies this`currentState, this`sentStates
      ensures State() == Rationalize(old(State()))
    {
      var known := sentStates[0].state;
      currentState := Subtract(currentState, known);
      var i := 0;
      while i < |sentStates|
        invariant 0 <= i <= |sentStates| == |old(sentStates)| && currentState == Subtract(old(currentState), known)
        invariant forall j | 0 <= j < i :: sentStates[j] == Strip(old(sentStates), known)[j]
        invariant forall j | i <= j < |sentStates| :: sentStates[j] == old(sentStates)[j]
      {
        sentStates := sentStates[i := sentStates[i].(state := Subtract(sentStates[i].state, known))];
        i := i + 1;
      }
      assert sentStates == Strip(old(sentStates), known);
    }

    /** When the next frame is due. */
    method ScheduleSend(now: nat, timeout: nat, interval: nat)
      requires State().Valid()
      modifies this`nextSendTime, this`mindelayClock
      ensures State() == SenderSpec.ScheduleSend(old(State()), now, timeout, interval)
    {
      var back := sentStates[|sentStates| - 1];
      var assumed := sentStates[assumedReceiverState];
      if currentState != back.state {
        if mindelayClock == None {
          mindelayClock := Some(now);
        }
        nextSendTime := Max(mindelayClock.value + sendMindelay, back.timestamp + interval);
      } else if currentState != assumed.state && lastHeard + ACTIVE_RETRY_TIMEOUT > now {
        var t := back.timestamp + interval;
        if mindelayClock.Some? {
          t := Max(t, mindelayClock.value + sendMindelay);
        }
        nextSendTime := t;
      } else if currentState != sentStates[0].state && lastHeard + ACTIVE_RETRY_TIMEOUT > now {
        nextSendTime := back.timestamp + timeout + ACK_DELAY;
      } else {
        nextSendTime := NEVER;
      }
    }

    method CalculateTimers(now: nat, timeout: nat, interval: nat)
      requires State().Valid()
      modifies this
      ensures State() == SenderSpec.CalculateTimers(old(State()), now, timeout, interval)
    {
      hide Settled, Rationalize, AssumedFrom, SenderSpec.ScheduleSend, SenderSpec.CalculateTimers;
      TimersAre(old(State()), now, timeout, interval);
      UpdateAssumedReceiverState(now, timeout);
      RationalizeStates();
      ghost var settled := Settled(old(State()), now, timeout);
      if pendingDataAck && nextAckTime > now + ACK_DELAY {
        nextAckTime := now + ACK_DELAY;
      }
      assert State() == HurryDataAck(settled, now);
      ScheduleSend(now, timeout, interval);
      // Shutting down, acknowledgements go out at the pace of data.
      if shutdownInProgress || ackNum == SHUTDOWN_NUM {
        nextAckTime := sentStates[|sentStates| - 1].timestamp + interval;
      }
    }

    /** How long the caller may sleep. */
    method WaitTime(now: nat, timeout: nat, interval: nat, hasRemote: bool) returns (wait: nat)
      requires State().Valid()
      modifies this
      ensures State() == SenderSpec.CalculateTimers(old(State()), now, timeout, interval)
      ensures !hasRemote ==> wait == NEVER
      ensures hasRemote ==> (wait == 0 <==> now >= State().nextAckTime || now >= State().nextSendTime)
      ensures hasRemote && wait > 0 ==> now + wait <= State().nextAckTime && now + wait <= State().nextSendTime
      ensures hasRemote && wait > 0 ==> now + wait == State().nextAckTime || now + wait == State().nextSendTime
    {
      CalculateTimers(now, timeout, interval);
      if !hasRemote {
        return NEVER;
      }
      var next := if nextAckTime < nextSendTime then nextAckTime else nextSendTime;
      return SaturatingSub(next, now);
    }

    method AddSentState(timestamp: nat, num: nat, state: Content)
      requires State().Valid()
      modifies this`sentStates, this`assumedReceiverState
      ensures State() == SenderSpec.AddSentState(old(State()), timestamp, num, state)
    {
      sentStates := sentStates + [TimestampedState(timestamp, num, state)];
      if |sentStates| > MAX_SENT_STATES {
        var victim := |sentStates| - 16;
        sentStates := sentStates[..victim] + sentStates[victim + 1..];
        if assumedReceiverState >= victim && assumedReceiverState > 0 {
          assumedReceiverState := assumedReceiverState - 1;
        }
      }
    }

    /** Make the instruction and hand its fragments out; on failure none are. */
    method SendInFragments(diff: seq<Byte>, newNum: nat, env: Env) returns (pieces: seq<Fragment>, ok: bool)
      requires State().Valid()
      modifies this`shutdownTries, this`pendingDataAck, fragmenter
      ensures var inst := MakeInstruction(old(State()), diff, newNum, env.chaff);
              var made := Fragments.MakeFragments(old(fragmenter.State()), codec, inst, FragmentRoom(env.mtu));
              && fragmenter.State() == AfterFragmenting(old(fragmenter.State()), inst, PieceSize(FragmentRoom(env.mtu)))
              && ok == made.Ok? && pieces == (if made.Ok? then made.value else [])
              && State() == CountShutdown(old(State()), newNum).(pendingDataAck := !ok && old(pendingDataAck))
    {
      var inst := Instruction(PROTOCOL_VERSION, sentStates[assumedReceiverState].num, newNum, ackNum,
                              sentStates[0].num, diff, env.chaff);
      if newNum == SHUTDOWN_NUM {
        shutdownTries := shutdownTries + 1;
      }
      var made := fragmenter.MakeFragments(codec, inst, FragmentRoom(env.mtu));
      if made.Err? {
        return [], false;
      }
      pendingDataAck := false;
      return made.value, true;
    }

    method SendEmptyAck(env: Env) returns (pieces: seq<Fragment>, ok: bool)
      requires State().Valid()
      modifies this, fragmenter
      ensures var o := EmptyAck(old(State()), env);
              var made := Fragments.MakeFragments(old(fragmenter.State()), codec, o.inst, FragmentRoom(env.mtu));
              && fragmenter.State()
                == AfterFragmenting(old(fragmenter.State()), o.inst, PieceSize(FragmentRoom(env.mtu)))
              && ok == made.Ok? && pieces == (if made.Ok? then made.value else [])
              && State() == if !ok then o.sender else
                   o.sender.(pendingDataAck := false, nextAckTime := env.now + ACK_INTERVAL, nextSendTime := NEVER)
    {
      var newNum := if shutdownInProgress then SHUTDOWN_NUM else sentStates[|sentStates| - 1].num + 1;
      AddSentState(env.now, newNum, currentState);
      pieces, ok := SendInFragments([], newNum, env);
      if !ok {
        return;
      }
      nextAckTime := env.now + ACK_INTERVAL;
      nextSendTime := NEVER;
    }

    /** The number the current state goes out under; a state already at the back of the queue is sent again. */
    method NumberState(now: nat) returns (newNum: nat)
      requires State().Valid()
      modifies this`sentStates, this`assumedReceiverState
      ensures var s := old(State());
              && newNum == DataNum(s)
              && State() == if newNum == s.Back().num
                              then s.(sent := s.sent[|s.sent| - 1 := s.Back().(timestamp := now)])
                            else SenderSpec.AddSentState(s, now, newNum, s.current)
    {
      hide SenderSpec.AddSentState;
      var back := sentStates[|sentStates| - 1];
      newNum := if shutdownInProgress then SHUTDOWN_NUM
                else if currentState == back.state then back.num
                else back.num + 1;
      if newNum == back.num {
        sentStates := sentStates[|sentStates| - 1 := back.(timestamp := now)];
      } else {
        AddSentState(now, newNum, currentState);
      }
    }

    method SendToReceiver(diff: seq<Byte>, env: Env) returns (pieces: seq<Fragment>, ok: bool)
      requires State().Valid()
      modifies this, fragmenter
      ensures var o := Data(old(State()), diff, env);
              var made := Fragments.MakeFragments(old(fragmenter.State()), codec, o.inst, FragmentRoom(env.mtu));
              && fragmenter.State()
                == AfterFragmenting(old(fragmenter.State()), o.inst, PieceSize(FragmentRoom(env.mtu)))
              && ok == made.Ok? && pieces == (if made.Ok? then made.value else [])
              && State() == if !ok then o.sender else
                   o.sender.(pendingDataAck := false, assumed := |o.sender.sent| - 1,
                             nextAckTime := env.now + ACK_INTERVAL, nextSendTime := NEVER)
    {
      hide Data, DataNum, SenderSpec.AddSentState, MakeInstruction, Fragments.MakeFragments, AfterFragmenting;
      var newNum := NumberState(env.now);
      ghost var o := Data(old(State()), diff, env);
      DataIs(old(State()), State(), newNum, diff, env);
      pieces, ok := SendInFragments(diff, newNum, env);
      if !ok {
        return;
      }
      assumedReceiverState := |sentStates| - 1;
      nextAckTime := env.now + ACK_INTERVAL;
      nextSendTime := NEVER;
    }

    /** Take the difference from the front of the queue when it is hardly longer. */
    method AttemptProspectiveResendOptimization(proposed: seq<Byte>) returns (diff: seq<Byte>)
      requires State().Valid()
      modifies this`assumedReceiverState
      ensures (State(), diff) == ProspectiveResend(old(State()), proposed)
    {
      if assumedReceiverState == 0 {
        return proposed;
      }
      var resend := DiffFrom(currentState, sentStates[0].state);
      if |resend| <= |proposed| || (|resend| < 1000 && SaturatingSub(|resend|, |proposed|) < 100) {
        assumedReceiverState := 0;
        return resend;
      }
      return proposed;
    }

    /** One tick; `pieces` is what reaches the network. */
    method Tick(env: Env) returns (pieces: seq<Fragment>)
      requires State().Valid()
      modifies this, fragmenter
      ensures var r := SenderSpec.Tick(old(State()), old(fragmenter.State()), codec, env);
              State() == r.sender && fragmenter.State() == r.fragmenter && pieces == r.pieces
    {
      hide SenderSpec.CalculateTimers, ProspectiveResend, AttemptDue, AfterDue, SenderSpec.Tick;
      hide Fragments.MakeFragments, AfterFragmenting;
      TickIs(old(State()), old(fragmenter.State()), codec, env);
      CalculateTimers(env.now, env.timeout, env.interval);
      if !env.hasRemote {
        return [];
      }
      if env.now < nextAckTime && env.now < nextSendTime {
        return [];
      }
      var proposed := DiffFrom(currentState, sentStates[assumedReceiverState].state);
      var diff := AttemptProspectiveResendOptimization(proposed);
      pieces := Transmit(diff, env);
    }

    /** Send what a due tick has to say: the diff, or an acknowledgement if only that is due. */
    method Transmit(diff: seq<Byte>, env: Env) returns (pieces: seq<Fragment>)
      requires State().Valid() && Due(State(), env)
      modifies this, fragmenter
      ensures var o := AttemptDue(old(State()), diff, env);
              if o == None then
                pieces == [] && fragmenter.State() == old(fragmenter.State())
                  && State() == AfterDue(old(State()), diff, env, false)
              else
                var room := FragmentRoom(env.mtu);
                var made := Fragments.MakeFragments(old(fragmenter.State()), codec, o.value.inst, room);
                && pieces == (if made.Ok? then made.value else [])
                && fragmenter.State() == AfterFragmenting(old(fragmenter.State()), o.value.inst, PieceSize(room))
                && State() == AfterDue(old(State()), diff, env, made.Ok?)
    {
      hide Data, EmptyAck, AfterFragmenting, Fragments.MakeFragments;
      var ok;
      pieces := [];
      if diff == [] {
        if env.now >= nextAckTime {
          pieces, ok := SendEmptyAck(env);
          if !ok {
            return;
          }
          mindelayClock := None;
        }
        if env.now >= nextSendTime {
          nextSendTime := NEVER;
          mindelayClock := None;
        }
      } else if env.now >= nextSendTime || env.now >= nextAckTime {
        pieces, ok := SendToReceiver(diff, env);
        if !ok {
          return;
        }
        mindelayClock := None;
      }
    }

    method StartShutdown(now: nat)
      modifies this
      ensures State() == SenderSpec.StartShutdown(old(State()), now)
    {
      if !shutdownInProgress {
        shutdownStart := now;
        shutdownInProgress := true;
      }
    }

    /** The peer holds state `num`: older ones go, if that one is still queued. */
    method ProcessAcknowledgmentThrough(num: nat)
      requires State().Valid()
      modifies this`sentStates, this`assumedReceiverState
      ensures State() == ProcessAcknowledgment(old(State()), num)
      ensures State().Valid()
    {
      AtLeastKeepsHeld(sentStates, num);
      var known := false;
      var i := 0;
      while i < |sentStates| && !known
        invariant 0 <= i <= |sentStates|
        invariant known ==> Holds(sentStates, num)
        invariant !known ==> forall j | 0 <= j < i :: sentStates[j].num != num
      {
        if sentStates[i].num == num {
          known := true;
        }
        i := i + 1;
      }
      if known {
        sentStates := AtLeast(sentStates, num);
      }
      if assumedReceiverState >= |sentStates| {
        assumedReceiverState := |sentStates| - 1;
      }
    }
  }
}

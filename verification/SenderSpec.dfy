/** What the sending half of an endpoint computes, as functions of its state. */
module SenderSpec {
  import opened Arithmetic
  import opened Options
  import opened States
  import opened Instructions
  import opened Fragments

  const ACK_INTERVAL := 3000
  const ACK_DELAY := 100
  const ACTIVE_RETRY_TIMEOUT := 10000

  /** A queue longer than this is thinned by one. */
  const MAX_SENT_STATES := 32

  datatype TimestampedState = TimestampedState(timestamp: nat, num: nat, state: Content)

  /** The queue runs from the state the peer is known to hold to the one sent last. */
  datatype SenderState = SenderState(
    current: Content,
    sent: seq<TimestampedState>,
    assumed: nat,
    nextAckTime: nat,
    nextSendTime: nat,
    shutdown: bool,
    shutdownTries: nat,
    shutdownStart: nat,
    ackNum: nat,
    pendingDataAck: bool,
    sendMindelay: nat,
    lastHeard: nat,
    mindelayClock: Option<nat>)
  {
    /** The queue is never empty and the assumed state is in it. */
    predicate Valid() { assumed < |sent| }

    function Front(): TimestampedState
      requires Valid()
    { sent[0] }

    function Back(): TimestampedState
      requires Valid()
    { sent[|sent| - 1] }

    function Assumed(): TimestampedState
      requires Valid()
    { sent[assumed] }
  }

  function Initial(initial: Content, now: nat): (s: SenderState)
    ensures s.Valid()
  {
    SenderState(initial, [TimestampedState(now, 0, initial)], 0, now, now, false, 0, 0, 0, false, 8, 0, None)
  }

  /** What a tick learns from outside: the clock, the link's estimates, and the padding drawn for it. */
  datatype Env = Env(now: nat, timeout: nat, interval: nat, hasRemote: bool, mtu: nat, chaff: seq<Byte>)

  // ---------- timers ----------

  /** An acknowledgement of this state could still be in flight. */
  predicate Recent(s: TimestampedState, now: nat, timeout: nat) {
    SaturatingSub(now, s.timestamp) < timeout + ACK_DELAY
  }

  /** The last state of the unbroken run of recent ones that starts after `i`, or `i` if there is none. */
  function AssumedFrom(sent: seq<TimestampedState>, i: nat, now: nat, timeout: nat): (r: nat)
    requires i < |sent|
    ensures i <= r < |sent|
    decreases |sent| - i
  {
    if i + 1 < |sent| && Recent(sent[i + 1], now, timeout) then AssumedFrom(sent, i + 1, now, timeout) else i
  }

  function Strip(sent: seq<TimestampedState>, known: Content): (r: seq<TimestampedState>)
    ensures |r| == |sent|
  {
    seq(|sent|, i requires 0 <= i < |sent| => sent[i].(state := Subtract(sent[i].state, known)))
  }

  /** Every diff base drops the prefix all of them share. */
  function Rationalize(s: SenderState): (r: SenderState)
    requires s.Valid()
    ensures r.Valid()
  {
    var known := s.sent[0].state;
    s.(current := Subtract(s.current, known), sent := Strip(s.sent, known))
  }

  function CalculateTimers(s: SenderState, now: nat, timeout: nat, interval: nat): (r: SenderState)
    requires s.Valid()
    ensures r.Valid() && OnlyTimes(Settled(s, now, timeout), r)
  {
    ScheduleAck(ScheduleSend(HurryDataAck(Settled(s, now, timeout), now), now, timeout, interval), interval)
  }

  /** The part of the timer calculation that changes the states rather than the timers. */
  function Settled(s: SenderState, now: nat, timeout: nat): (r: SenderState)
    requires s.Valid()
    ensures r.Valid()
  {
    Rationalize(s.(assumed := AssumedFrom(s.sent, 0, now, timeout)))
  }

  /** Nothing but the timers differs. */
  ghost predicate OnlyTimes(s: SenderState, r: SenderState) {
    && r.current == s.current && r.sent == s.sent && r.assumed == s.assumed
    && r.shutdown == s.shutdown && r.shutdownTries == s.shutdownTries && r.shutdownStart == s.shutdownStart
    && r.ackNum == s.ackNum && r.pendingDataAck == s.pendingDataAck
    && r.sendMindelay == s.sendMindelay && r.lastHeard == s.lastHeard
  }

  function HurryDataAck(s: SenderState, now: nat): (r: SenderState)
    ensures OnlyTimes(s, r)
  {
    if s.pendingDataAck && s.nextAckTime > now + ACK_DELAY then s.(nextAckTime := now + ACK_DELAY) else s
  }

  function ScheduleSend(s: SenderState, now: nat, timeout: nat, interval: nat): (r: SenderState)
    requires s.Valid()
    ensures r.Valid() && OnlyTimes(s, r)
  {
    var listening := s.lastHeard + ACTIVE_RETRY_TIMEOUT > now;
    if s.current != s.Back().state then
      var clock := s.mindelayClock.GetOr(now);
      s.(mindelayClock := Some(clock),
         nextSendTime := Max(clock + s.sendMindelay, s.Back().timestamp + interval))
    else if s.current != s.Assumed().state && listening then
      var t := s.Back().timestamp + interval;
      s.(nextSendTime := if s.mindelayClock.Some? then Max(t, s.mindelayClock.value + s.sendMindelay) else t)
    else if s.current != s.Front().state && listening then
      s.(nextSendTime := s.Back().timestamp + timeout + ACK_DELAY)
    else
      s.(nextSendTime := NEVER)
  }

  function ScheduleAck(s: SenderState, interval: nat): (r: SenderState)
    requires s.Valid()
    ensures r.Valid() && OnlyTimes(s, r)
  {
    if s.shutdown || s.ackNum == SHUTDOWN_NUM then s.(nextAckTime := s.Back().timestamp + interval) else s
  }

  // ---------- sending ----------

  /** Diff against the acknowledged state instead when that costs little. */
  function ProspectiveResend(s: SenderState, proposed: seq<Byte>): (SenderState, seq<Byte>)
    requires s.Valid()
  {
    if s.assumed == 0 then (s, proposed)
    else
      var resend := DiffFrom(s.current, s.Front().state);
      if |resend| <= |proposed| || (|resend| < 1000 && SaturatingSub(|resend|, |proposed|) < 100)
      then (s.(assumed := 0), resend)
      else (s, proposed)
  }

  /** Index of the state a full queue gives up: from the middle, never the baseline or a likely target. */
  function Victim(sent: seq<TimestampedState>): nat
    requires |sent| > MAX_SENT_STATES
  {
    |sent| - 16
  }

  function Thin(sent: seq<TimestampedState>): (r: seq<TimestampedState>)
    ensures |r| == if |sent| > MAX_SENT_STATES then |sent| - 1 else |sent|
  {
    if |sent| > MAX_SENT_STATES then sent[..Victim(sent)] + sent[Victim(sent) + 1..] else sent
  }

  /** Append a sent state, thinning the middle of a full queue. */
  function AddSentState(s: SenderState, timestamp: nat, num: nat, state: Content): (r: SenderState)
    requires s.Valid()
    ensures r.Valid()
  {
    var sent := s.sent + [TimestampedState(timestamp, num, state)];
    s.(sent := Thin(sent),
       assumed := if |sent| > MAX_SENT_STATES && s.assumed >= Victim(sent) && s.assumed > 0 then s.assumed - 1
                  else s.assumed)
  }

  function MakeInstruction(s: SenderState, diff: seq<Byte>, newNum: nat, chaff: seq<Byte>): Instruction
    requires s.Valid()
  {
    Instruction(PROTOCOL_VERSION, s.Assumed().num, newNum, s.ackNum, s.Front().num, diff, chaff)
  }

  /** Bytes left for a fragment once the packet and the cipher have taken theirs. */
  function FragmentRoom(mtu: nat): nat {
    SaturatingSub(SaturatingSub(mtu, 12), 16)
  }

  /** The number a state sent now would get. */
  function FreshNum(s: SenderState): nat
    requires s.Valid()
  {
    if s.shutdown then SHUTDOWN_NUM else s.Back().num + 1
  }

  /** An instruction on its way out, with the sender state it was made from. */
  datatype Outgoing = Outgoing(sender: SenderState, inst: Instruction)

  /** The state an empty acknowledgement goes out under, and the instruction that carries it. */
  function EmptyAck(s: SenderState, env: Env): (o: Outgoing)
    requires s.Valid()
    ensures o.sender.Valid()
  {
    var num := FreshNum(s);
    var s1 := AddSentState(s, env.now, num, s.current);
    Outgoing(CountShutdown(s1, num), MakeInstruction(s1, [], num, env.chaff))
  }

  function CountShutdown(s: SenderState, num: nat): (r: SenderState)
    requires s.Valid()
    ensures r.Valid()
  {
    if num == SHUTDOWN_NUM then s.(shutdownTries := s.shutdownTries + 1) else s
  }

  function DataNum(s: SenderState): nat
    requires s.Valid()
  {
    if s.shutdown then SHUTDOWN_NUM
    else if s.current == s.Back().state then s.Back().num
    else s.Back().num + 1
  }

  /** The state a diff goes out under, and the instruction that carries it. */
  function Data(s: SenderState, diff: seq<Byte>, env: Env): (o: Outgoing)
    requires s.Valid()
    ensures o.sender.Valid()
  {
    var num := DataNum(s);
    var s1 :=
      if num == s.Back().num then s.(sent := s.sent[|s.sent| - 1 := s.Back().(timestamp := env.now)])
      else AddSentState(s, env.now, num, s.current);
    Outgoing(CountShutdown(s1, num), MakeInstruction(s1, diff, num, env.chaff))
  }

  predicate Due(s: SenderState, env: Env) {
    env.hasRemote && (env.now >= s.nextAckTime || env.now >= s.nextSendTime)
  }

  /** The sender and the diff it would send, once timers and the resend choice are settled. */
  function Chosen(s: SenderState, env: Env): (r: (SenderState, seq<Byte>))
    requires s.Valid()
    ensures r.0.Valid()
  {
    var s1 := CalculateTimers(s, env.now, env.timeout, env.interval);
    ProspectiveResend(s1, DiffFrom(s1.current, s1.Assumed().state))
  }

  /** The instruction a due tick tries to send for this diff, if any. */
  function AttemptDue(s: SenderState, diff: seq<Byte>, env: Env): (o: Option<Outgoing>)
    requires s.Valid()
    ensures o.Some? ==> o.value.sender.Valid()
  {
    if diff != [] then Some(Data(s, diff, env))
    else if env.now >= s.nextAckTime then Some(EmptyAck(s, env))
    else None
  }

  /** The instruction this tick tries to send, if any. */
  function Attempt(s: SenderState, env: Env): (o: Option<Outgoing>)
    requires s.Valid()
    ensures o.Some? ==> o.value.sender.Valid()
  {
    if !Due(CalculateTimers(s, env.now, env.timeout, env.interval), env) then None
    else
      var (s2, diff) := Chosen(s, env);
      AttemptDue(s2, diff, env)
  }

  /** The same states under the same numbers, whatever the timers and the assumption say. */
  ghost predicate SameQueue(s: SenderState, r: SenderState) {
    r.sent == s.sent && r.current == s.current && r.shutdown == s.shutdown && r.ackNum == s.ackNum
  }

  /** The sender after a due tick, given whether its instruction, if any, could be fragmented. */
  function AfterDue(s: SenderState, diff: seq<Byte>, env: Env, fragmented: bool): (r: SenderState)
    requires s.Valid()
    ensures r.Valid()
    ensures var o := AttemptDue(s, diff, env); SameQueue(if o.Some? then o.value.sender else s, r)
  {
    match AttemptDue(s, diff, env)
    case None =>
      if env.now >= s.nextSendTime then s.(nextSendTime := NEVER, mindelayClock := None) else s
    case Some(o) =>
      if !fragmented then o.sender
      else
        o.sender.(
          pendingDataAck := false,
          assumed := if diff == [] then o.sender.assumed else |o.sender.sent| - 1,
          nextAckTime := env.now + ACK_INTERVAL,
          nextSendTime := NEVER,
          mindelayClock := None)
  }

  /** The sender after a tick, given whether its instruction, if any, could be fragmented. */
  function AfterTick(s: SenderState, env: Env, fragmented: bool): (r: SenderState)
    requires s.Valid()
    ensures r.Valid()
    ensures Attempt(s, env).Some? ==> SameQueue(Attempt(s, env).value.sender, r)
    ensures Attempt(s, env) == None ==> SameQueue(CalculateTimers(s, env.now, env.timeout, env.interval), r)
  {
    var s1 := CalculateTimers(s, env.now, env.timeout, env.interval);
    if !Due(s1, env) then s1
    else
      var (s2, diff) := Chosen(s, env);
      AfterDue(s2, diff, env, fragmented)
  }

  datatype TickResult = TickResult(
    sender: SenderState, fragmenter: FragmenterState, pieces: seq<Fragment>, attempted: Option<Instruction>)

  /** A whole tick: the new sender and fragmenter, and the fragments handed to the network. */
  function Tick(s: SenderState, f: FragmenterState, codec: Codec, env: Env): (r: TickResult)
    requires s.Valid()
    ensures r.sender.Valid()
  {
    match Attempt(s, env)
    case None => TickResult(AfterTick(s, env, false), f, [], None)
    case Some(o) =>
      var made := MakeFragments(f, codec, o.inst, FragmentRoom(env.mtu));
      var f' := AfterFragmenting(f, o.inst, PieceSize(FragmentRoom(env.mtu)));
      TickResult(AfterTick(s, env, made.Ok?), f', if made.Ok? then made.value else [], Some(o.inst))
  }

  // ---------- the rest of the sender ----------

  function StartShutdown(s: SenderState, now: nat): SenderState {
    if s.shutdown then s else s.(shutdown := true, shutdownStart := now)
  }

  function AtLeast(sent: seq<TimestampedState>, num: nat): seq<TimestampedState> {
    if sent == [] then []
    else (if sent[0].num >= num then [sent[0]] else []) + AtLeast(sent[1..], num)
  }

  predicate Holds(queue: seq<TimestampedState>, num: nat) {
    exists i | 0 <= i < |queue| :: queue[i].num == num
  }

  /** The queue from state `num` on, if it holds that one. */
  function ProcessAcknowledgment(s: SenderState, num: nat): (r: SenderState)
    requires s.Valid()
    ensures r.Valid() && r == s.(sent := r.sent, assumed := r.assumed)
  {
    var sent := if Holds(s.sent, num) then AtLeast(s.sent, num) else s.sent;
    AtLeastKeepsHeld(s.sent, num);
    s.(sent := sent, assumed := if s.assumed >= |sent| then |sent| - 1 else s.assumed)
  }

  lemma {:induction false} AtLeastKeepsHeld(sent: seq<TimestampedState>, num: nat)
    ensures Holds(sent, num) ==> AtLeast(sent, num) != []
  {
    if Holds(sent, num) && sent[0].num != num {
      var i :| 0 <= i < |sent| && sent[i].num == num;
      assert sent[1..][i - 1].num == num;
      AtLeastKeepsHeld(sent[1..], num);
    }
  }
}

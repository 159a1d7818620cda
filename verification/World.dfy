/**
 * Two endpoints, each of which sends states of one kind, over a network that loses, repeats and reorders
 * datagrams, as a system of steps. Beside the program's own state an endpoint keeps the history
 * the properties speak of: what was ever written, what each state number stood for, and what was
 * ever handed to the network or to the caller.
 */
module World {
  import opened Options
  import opened States
  import opened Instructions
  import opened Fragments
  import opened SenderSpec
  import opened TransportSpec

  /** An instruction that was given a fragment id, and the piece size it was cut to. */
  datatype Issue = Issue(inst: Instruction, size: nat)

  datatype Endpoint = Endpoint(
    sender: SenderState,
    fragmenter: FragmenterState,
    receiver: ReceiverState,
    assembly: AssemblyState,
    clock: nat,
    // history
    wire: set<Fragment>,               // every fragment ever handed to the network
    written: Content,                   // everything ever written into the current state
    sentBase: Content,                  // content the sender has stripped from its states
    numbers: map<nat, Content>,         // absolute content of every number ever given
    attempted: set<Instruction>,       // every instruction ever made
    issued: map<nat, Issue>,           // what each fragment id was last used for
    receivedBase: Content,              // content the receiver has stripped from its states
    delivered: Content)                 // everything the caller was ever handed, put together

  datatype Side = Client | Server

  datatype World = World(client: Endpoint, server: Endpoint, codec: Codec)
  {
    function At(side: Side): Endpoint {
      if side == Client then client else server
    }

    function Peer(side: Side): Endpoint {
      if side == Client then server else client
    }

    function With(side: Side, x: Endpoint): World {
      if side == Client then this.(client := x) else this.(server := x)
    }
  }

  datatype Step =
    | Write(more: Growth)
    | Shutdown(now: nat)
    | Wait(now: nat, timeout: nat, interval: nat)
    | Tick(env: Env)
    | Deliver(frag: Fragment, now: nat)
    | Collect

  function Start(initial: Content, remote: Content, now: nat): Endpoint {
    Endpoint(Initial(initial, now), FRESH_FRAGMENTER, InitialReceiver(remote, now), FRESH_ASSEMBLY, now,
             {}, initial, Empty(initial), map[0 := initial], {}, map[], Empty(remote), remote)
  }

  ghost predicate Init(w: World) {
    && w.codec.Faithful()
    && exists a: Content, b: Content, s: nat, t: nat ::
         w.client == Start(a, b, s) && w.server == Start(b, a, t)
  }

  /** What the environment guarantees: clocks never go back, a fragment delivered was sent. */
  predicate Enabled(x: Endpoint, peer: Endpoint, step: Step) {
    match step
    case Write(more) => !x.sender.shutdown && Accepts(x.sender.current, more)
    case Shutdown(now) => now >= x.clock
    case Wait(now, _, _) => now >= x.clock && x.sender.Valid()
    case Tick(env) =>
      && env.now >= x.clock
      && x.sender.Valid()
      && Small(x.sender.current)
      && (x.sender.shutdown || x.sender.Back().num + 1 < SHUTDOWN_NUM)
    case Deliver(frag, now) => now >= x.clock && frag in peer.wire && x.sender.Valid() && x.receiver.Valid()
    case Collect => x.receiver.Valid() && Fits(x.receiver.Newest().state, x.receiver.last)
  }

  /** An endpoint takes one step; its peer notices nothing until something is delivered. */
  function Act(x: Endpoint, peer: Endpoint, codec: Codec, step: Step): Endpoint
    requires Enabled(x, peer, step)
  {
    match step
    case Write(more) => WriteTo(x, more)
    case Shutdown(now) => ShutDown(x, now)
    case Wait(now, timeout, interval) => CalculateTimersAt(x, now, timeout, interval)
    case Tick(env) => TickAt(x, codec, env)
    case Deliver(frag, now) => DeliverTo(x, codec, frag, now)
    case Collect => CollectFrom(x)
  }

  function Do(w: World, side: Side, step: Step): World
    requires Enabled(w.At(side), w.Peer(side), step)
  {
    w.With(side, Act(w.At(side), w.Peer(side), w.codec, step))
  }

  function ShutDown(x: Endpoint, now: nat): Endpoint {
    x.(sender := StartShutdown(x.sender, now), clock := now)
  }

  function WriteTo(x: Endpoint, more: Growth): Endpoint {
    x.(sender := x.sender.(current := Grown(x.sender.current, more)), written := Grown(x.written, more))
  }

  function CalculateTimersAt(x: Endpoint, now: nat, timeout: nat, interval: nat): Endpoint
    requires x.sender.Valid()
  {
    x.(sender := CalculateTimers(x.sender, now, timeout, interval),
       sentBase := Join(x.sentBase, x.sender.Front().state),
       clock := now)
  }

  function TickAt(x: Endpoint, codec: Codec, env: Env): Endpoint
    requires x.sender.Valid()
  {
    var r := SenderSpec.Tick(x.sender, x.fragmenter, codec, env);
    var x1 := x.(sender := r.sender, fragmenter := r.fragmenter, clock := env.now,
                 sentBase := Join(x.sentBase, x.sender.Front().state),
                 wire := x.wire + set p | p in r.pieces);
    match r.attempted
    case None => x1
    case Some(inst) =>
      x1.(numbers := x.numbers[inst.newNum := x.written],
          attempted := x.attempted + {inst},
          issued := x.issued[r.fragmenter.nextId := Issue(inst, PieceSize(FragmentRoom(env.mtu)))])
  }

  /** Nothing in the history is touched. */
  ghost predicate SameHistory(x: Endpoint, r: Endpoint) {
    && r.wire == x.wire && r.written == x.written && r.sentBase == x.sentBase && r.numbers == x.numbers
    && r.attempted == x.attempted && r.issued == x.issued && r.receivedBase == x.receivedBase
    && r.delivered == x.delivered && r.fragmenter == x.fragmenter
  }

  function DeliverTo(x: Endpoint, codec: Codec, frag: Fragment, now: nat): (r: Endpoint)
    requires x.sender.Valid() && x.receiver.Valid()
    ensures SameHistory(x, r) && r.sender.Valid() && r.receiver.Valid()
  {
    var (assembly, done) := AddFragment(x.assembly, frag);
    var x1 := x.(assembly := assembly, clock := now);
    if !done then x1
    else
      var (assembly', got) := GetAssembly(assembly, codec);
      match got
      case Err(_) => x1.(assembly := assembly')
      case Ok(inst) => ApplyAt(x1.(assembly := assembly'), inst, now)
  }

  function ApplyAt(x: Endpoint, inst: Instruction, now: nat): (r: Endpoint)
    requires x.sender.Valid() && x.receiver.Valid()
    ensures SameHistory(x, r)
  {
    var a := ApplyInstruction(x.receiver, x.sender, inst, now);
    x.(receiver := a.receiver, sender := a.sender)
  }

  /** The caller applies the diff it is handed to what it already has. */
  function CollectFrom(x: Endpoint): Endpoint
    requires x.receiver.Valid()
  {
    var (r, diff) := GetRemoteDiff(x.receiver);
    x.(receiver := r,
       receivedBase := Join(x.receivedBase, x.receiver.received[0].state),
       delivered := Advance(x.delivered, diff).GetOr(x.delivered))
  }

  // ---------- runs ----------

  ghost predicate IsRun(run: seq<World>, moves: seq<(Side, Step)>) {
    && |run| == |moves| + 1
    && Init(run[0])
    && forall i | 0 <= i < |moves| ::
         Enabled(run[i].At(moves[i].0), run[i].Peer(moves[i].0), moves[i].1)
           && run[i + 1] == Do(run[i], moves[i].0, moves[i].1)
  }

  ghost predicate Reachable(w: World) {
    exists run: seq<World>, moves: seq<(Side, Step)> :: IsRun(run, moves) && run[|run| - 1] == w
  }
}

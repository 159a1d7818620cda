/** How much of the user's typing the server has had time to echo. */
module EchoHistories {
  import opened Arithmetic

  /** How long to wait before a frame of input counts as echoed. */
  const ECHO_TIMEOUT := 50

  datatype Arrival = Arrival(frame: nat, at: nat)

  predicate Due(a: Arrival, now: nat) {
    a.at <= SaturatingSub(now, ECHO_TIMEOUT)
  }

  /** An arrival is due exactly when it is 50 ms old, save that one at time zero is due at once. */
  lemma DueWhenOld(a: Arrival, now: nat)
    ensures Due(a, now) <==> a.at + ECHO_TIMEOUT <= now || a.at == 0
  {
  }

  /** Frames grow, and the clock does not go back. */
  predicate InOrder(h: seq<Arrival>, clock: nat) {
    && (forall i | 0 <= i < |h| :: h[i].at <= clock && h[i].frame > 0)
    && (forall i, j | 0 <= i < j < |h| :: h[i].frame < h[j].frame && h[i].at <= h[j].at)
  }

  /** The newest frame of a history that is due, or 0. */
  function NewestDue(h: seq<Arrival>, now: nat): nat {
    if h == [] then 0
    else if Due(h[|h| - 1], now) then h[|h| - 1].frame
    else NewestDue(h[..|h| - 1], now)
  }

  /** It is one of the due frames and none of them is newer. */
  lemma {:induction false} NewestDueIs(h: seq<Arrival>, now: nat, clock: nat)
    requires InOrder(h, clock)
    ensures forall i | 0 <= i < |h| :: Due(h[i], now) <==> h[i].frame <= NewestDue(h, now)
    ensures NewestDue(h, now) == 0 || exists i | 0 <= i < |h| :: h[i].frame == NewestDue(h, now) && Due(h[i], now)
    decreases |h|
  {
    if h != [] {
      var init := h[..|h| - 1];
      NewestDueIs(init, now, clock);
      forall i | 0 <= i < |h|
        ensures Due(h[i], now) <==> h[i].frame <= NewestDue(h, now)
      {
        if i < |h| - 1 {
          assert init[i] == h[i];
        }
      }
      if !Due(h[|h| - 1], now) && NewestDue(init, now) != 0 {
        var i :| 0 <= i < |init| && init[i].frame == NewestDue(init, now) && Due(init[i], now);
        assert h[i] == init[i];
      }
    }
  }

  function Retained(h: seq<Arrival>, newest: nat): seq<Arrival> {
    if h == [] then [] else (if h[0].frame >= newest then [h[0]] else []) + Retained(h[1..], newest)
  }

  /** How many frames at the front of the history are older than `newest`. */
  function Outdated(h: seq<Arrival>, newest: nat): (k: nat)
    ensures k <= |h| && (forall i | 0 <= i < k :: h[i].frame < newest) && (k < |h| ==> h[k].frame >= newest)
  {
    if h == [] || h[0].frame >= newest then 0 else 1 + Outdated(h[1..], newest)
  }

  /** Keeping the frames from `newest` on drops those at the front and keeps the rest. */
  lemma {:induction false} RetainsTail(h: seq<Arrival>, newest: nat, clock: nat)
    requires InOrder(h, clock)
    ensures Retained(h, newest) == h[Outdated(h, newest)..]
    decreases |h|
  {
    hide InOrder;
    if h != [] {
      var rest := h[1..];
      RestInOrder(h, clock);
      RetainsTail(rest, newest, clock);
      if h[0].frame >= newest {
        assert Outdated(rest, newest) == 0;
        assert [h[0]] + rest == h;
      } else {
        assert rest[Outdated(rest, newest)..] == h[1 + Outdated(rest, newest)..];
      }
    }
  }

  lemma RestInOrder(h: seq<Arrival>, clock: nat)
    requires InOrder(h, clock) && h != []
    ensures InOrder(h[1..], clock) && (|h| > 1 ==> h[1..][0].frame > h[0].frame)
  {
  }

  /** What is kept is a tail of what was registered, and all that was let go is older than a kept frame that is due. */
  ghost predicate KeepsTail(h: seq<Arrival>, dropped: nat, clock: nat, kept: seq<Arrival>) {
    && InOrder(h, clock) && dropped <= |h| && kept == h[dropped..]
    && (dropped > 0 ==> dropped < |h| && Due(h[dropped], clock))
  }

  class EchoHistory {
    var inputHistory: seq<Arrival>
    var echoAck: nat

    /** Everything ever registered, the time of the last call, and how much of the history has been let go. */
    ghost var registered: seq<Arrival>
    ghost var clock: nat
    ghost var dropped: nat

    ghost predicate Valid()
      reads this
    {
      KeepsTail(registered, dropped, clock, inputHistory) && echoAck <= NewestDue(registered, clock)
    }

    constructor ()
      ensures Valid() && registered == [] && echoAck == 0 && clock == 0
    {
      inputHistory, echoAck := [], 0;
      registered, clock, dropped := [], 0, 0;
    }

    method RegisterInputFrame(n: nat, now: nat)
      requires Valid()
      modifies this
      ensures registered == old(registered) + [Arrival(n, now)] && inputHistory == old(inputHistory) + [Arrival(n, now)]
      ensures clock == now && echoAck == old(echoAck)
      ensures now >= old(clock) && n > 0 && (forall a <- old(registered) :: a.frame < n) ==> Valid()
    {
      hide KeepsTail, NewestDue, InOrder;
      if now >= clock && n > 0 && forall a <- registered :: a.frame < n {
        KeptInOrder(registered, dropped, clock, inputHistory);
        NewestDueGrows(registered, Arrival(n, now), clock, now);
        Registering(registered, dropped, clock, inputHistory, Arrival(n, now));
      }
      inputHistory := inputHistory + [Arrival(n, now)];
      registered := registered + [Arrival(n, now)];
      clock := now;
    }

    /**
     * Acknowledge every frame old enough. Although it starts from nothing and looks only at what has not been
     * let go, it finds the newest due frame of all that were ever registered, and so never goes back.
     */
    method SetEchoAck(now: nat) returns (moved: bool)
      requires Valid() && now >= clock
      modifies this
      ensures Valid() && clock == now && registered == old(registered)
      ensures echoAck == NewestDue(registered, now) && echoAck >= old(echoAck) && moved == (echoAck != old(echoAck))
    {
      hide KeepsTail, NewestDue, Retained, Outdated, InOrder;
      KeptInOrder(registered, dropped, clock, inputHistory);
      NewestDueMonotone(registered, clock, now, clock);
      var newest := FindNewest(now);
      Pruning(registered, dropped, clock, now, inputHistory);
      ghost var k := Outdated(inputHistory, newest);
      inputHistory := Retained(inputHistory, newest);
      moved := echoAck != newest;
      echoAck := newest;
      dropped := dropped + k;
      clock := now;
    }

    method FindNewest(now: nat) returns (newest: nat)
      ensures newest == NewestDue(inputHistory, now)
    {
      newest := 0;
      var i := 0;
      while i < |inputHistory|
        invariant 0 <= i <= |inputHistory| && newest == NewestDue(inputHistory[..i], now)
      {
        assert inputHistory[..i + 1][..i] == inputHistory[..i];
        if Due(inputHistory[i], now) {
          newest := inputHistory[i].frame;
        }
        i := i + 1;
      }
      assert inputHistory[..i] == inputHistory;
    }
  }

  lemma NewestDueMonotone(h: seq<Arrival>, before: nat, now: nat, clock: nat)
    requires InOrder(h, clock) && before <= now
    ensures NewestDue(h, before) <= NewestDue(h, now)
  {
    NewestDueIs(h, before, clock);
    NewestDueIs(h, now, clock);
    if NewestDue(h, before) != 0 {
      var i :| 0 <= i < |h| && h[i].frame == NewestDue(h, before) && Due(h[i], before);
      assert Due(h[i], now);
    }
  }

  lemma NewestDueGrows(h: seq<Arrival>, a: Arrival, clock: nat, now: nat)
    requires InOrder(h, clock) && clock <= now && a.at == now && forall i | 0 <= i < |h| :: h[i].frame < a.frame
    ensures NewestDue(h, clock) <= NewestDue(h + [a], now)
  {
    NewestDueMonotone(h, clock, now, clock);
    NewestDueIs(h, now, clock);
    assert (h + [a])[..|h|] == h;
  }

  /** What was let go does not matter, when a due frame newer than all of it is kept. */
  lemma NewestDueOfTail(h: seq<Arrival>, k: nat, clock: nat, now: nat)
    requires InOrder(h, clock) && clock <= now && k <= |h| && (k > 0 ==> k < |h| && Due(h[k], clock))
    ensures NewestDue(h[k..], now) == NewestDue(h, now)
  {
    var tail := h[k..];
    NewestDueIs(h, now, clock);
    NewestDueIs(tail, now, clock);
    if k == 0 {
      assert tail == h;
    } else {
      assert Due(tail[0], now);
      assert tail[0].frame <= NewestDue(tail, now);
      var j :| 0 <= j < |tail| && tail[j].frame == NewestDue(tail, now) && Due(tail[j], now);
      assert h[k + j] == tail[j];
      assert NewestDue(tail, now) <= NewestDue(h, now);
      var i :| 0 <= i < |h| && h[i].frame == NewestDue(h, now) && Due(h[i], now);
      assert h[k].frame == tail[0].frame <= h[i].frame;
      assert tail[i - k] == h[i];
    }
  }

  /** If anything is let go, the first frame kept is due. */
  lemma FirstKeptIsDue(tail: seq<Arrival>, now: nat, clock: nat)
    requires InOrder(tail, clock)
    ensures var k := Outdated(tail, NewestDue(tail, now)); k > 0 ==> k < |tail| && Due(tail[k], now)
  {
    NewestDueIs(tail, now, clock);
    var newest := NewestDue(tail, now);
    var k := Outdated(tail, newest);
    if k > 0 {
      var i :| 0 <= i < |tail| && tail[i].frame == newest && Due(tail[i], now);
      assert i >= k;
      assert tail[k].frame <= tail[i].frame;
    }
  }

  lemma KeptInOrder(h: seq<Arrival>, dropped: nat, clock: nat, kept: seq<Arrival>)
    requires KeepsTail(h, dropped, clock, kept)
    ensures InOrder(h, clock) && InOrder(kept, clock) && forall now: nat | clock <= now :: InOrder(h, now)
  {
  }

  lemma Registering(h: seq<Arrival>, dropped: nat, clock: nat, kept: seq<Arrival>, a: Arrival)
    requires KeepsTail(h, dropped, clock, kept) && clock <= a.at && a.frame > 0
    requires forall i | 0 <= i < |h| :: h[i].frame < a.frame
    ensures KeepsTail(h + [a], dropped, a.at, kept + [a])
  {
  }

  lemma Pruning(h: seq<Arrival>, dropped: nat, clock: nat, now: nat, kept: seq<Arrival>)
    requires KeepsTail(h, dropped, clock, kept) && clock <= now
    ensures var newest := NewestDue(kept, now);
      newest == NewestDue(h, now) && KeepsTail(h, dropped + Outdated(kept, newest), now, Retained(kept, newest))
  {
    hide NewestDue, Retained, Outdated, InOrder, KeepsTail;
    KeptInOrder(h, dropped, clock, kept);
    KeptIsTail(h, dropped, clock, now, kept);
    NewestDueOfTail(h, dropped, clock, now);
    var newest := NewestDue(kept, now);
    FirstKeptIsDue(kept, now, clock);
    RetainsTail(kept, newest, clock);
    KeepingLess(h, dropped, Outdated(kept, newest), now);
  }

  lemma KeptIsTail(h: seq<Arrival>, dropped: nat, clock: nat, now: nat, kept: seq<Arrival>)
    requires KeepsTail(h, dropped, clock, kept) && clock <= now
    ensures dropped <= |h| && kept == h[dropped..]
    ensures dropped > 0 ==> dropped < |h| && Due(h[dropped], clock) && Due(h[dropped], now)
  {
    hide InOrder;
  }

  /** Letting `k` more go leaves a tail still, when the first frame kept is due. */
  lemma KeepingLess(h: seq<Arrival>, dropped: nat, k: nat, now: nat)
    requires InOrder(h, now) && dropped <= |h| && k <= |h[dropped..]|
    requires dropped > 0 ==> dropped < |h| && Due(h[dropped], now)
    requires k > 0 ==> k < |h[dropped..]| && Due(h[dropped..][k], now)
    ensures KeepsTail(h, dropped + k, now, h[dropped..][k..])
  {
    hide InOrder, Due;
    TailOfTail(h, dropped, k);
  }

  lemma TailOfTail<T>(h: seq<T>, n: nat, k: nat)
    requires n + k <= |h|
    ensures h[n..][k..] == h[n + k..] && (n + k < |h| ==> h[n..][k] == h[n + k])
  {
  }
}

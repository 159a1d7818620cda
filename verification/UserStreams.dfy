/** Everything the user has done, in order, and the differences it is sent as. */
module UserStreams {
  import opened Options
  import opened Protobuf

  /** Runs of keystrokes shorter than this can be written, whatever stands beside them. */
  const EVENT_LIMIT := 0x8000_0000_0000_0000

  datatype Event = Key(byte: Byte) | Resize(width: Int32, height: Int32)

  /** One instruction of a difference; fields that are absent are so on the wire. */
  datatype Instruction = Instruction(
    keystroke: Option<Option<seq<Byte>>>, resize: Option<(Option<Int32>, Option<Int32>)>)

  function Keys(keys: seq<Byte>): Instruction {
    Instruction(Some(Some(keys)), None)
  }

  // ---------- what the loops compute ----------

  /** The events with the prefix taken off, as far as it really is one. */
  function Subtracted(actions: seq<Event>, prefix: seq<Event>): seq<Event>
    decreases |prefix|
  {
    if prefix == [] || actions == [] || actions[0] != prefix[0] then actions
    else Subtracted(actions[1..], prefix[1..])
  }

  /** One event appended to a difference: a keystroke joins a run of keystrokes. */
  function Appended(output: seq<Instruction>, e: Event): seq<Instruction> {
    match e
    case Resize(w, h) => output + [Instruction(None, Some((Some(w), Some(h))))]
    case Key(c) =>
      if output != [] && output[|output| - 1].keystroke.Some? then
        var last := output[|output| - 1];
        output[|output| - 1 := last.(keystroke := Some(Some(last.keystroke.value.GetOr([]) + [c])))]
      else output + [Keys([c])]
  }

  function AppendedAll(output: seq<Instruction>, events: seq<Event>): seq<Instruction>
    decreases |events|
  {
    if events == [] then output else AppendedAll(Appended(output, events[0]), events[1..])
  }

  function Diff(actions: seq<Event>, existing: seq<Event>): seq<Instruction> {
    if |existing| <= |actions| then AppendedAll([], actions[|existing|..]) else []
  }

  function KeyEvents(keys: seq<Byte>): seq<Event> {
    seq(|keys|, i requires 0 <= i < |keys| => Key(keys[i]))
  }

  /** What an instruction adds; keystrokes hide a resize beside them, and absent numbers read as -1. */
  function Effect(i: Instruction): seq<Event> {
    if i.keystroke.Some? then KeyEvents(i.keystroke.value.GetOr([]))
    else if i.resize.Some? then [Resize(i.resize.value.0.GetOr(-1), i.resize.value.1.GetOr(-1))]
    else []
  }

  function Effects(diff: seq<Instruction>): seq<Event> {
    if diff == [] then [] else Effects(diff[..|diff| - 1]) + Effect(diff[|diff| - 1])
  }

  // ---------- the difference as bytes ----------

  /** A negative number travels as the 64-bit number it is extended to. */
  function Unsigned(n: Int32): nat {
    n % TWO_TO_64
  }

  /** Of a longer number the low 32 bits count. */
  function Signed(n: nat): Int32 {
    var low := n % TWO_TO_32;
    if low < 0x8000_0000 then low else low - TWO_TO_32
  }

  function KeystrokeFields(keys: Option<seq<Byte>>): seq<Field> {
    if keys.Some? then [Chunk(4, keys.value)] else []
  }

  function ResizeFields(r: (Option<Int32>, Option<Int32>)): seq<Field> {
    (if r.0.Some? then [Number(5, Unsigned(r.0.value))] else [])
    + (if r.1.Some? then [Number(6, Unsigned(r.1.value))] else [])
  }

  function InstructionFields(i: Instruction): seq<Field> {
    (if i.keystroke.Some? then [Chunk(2, WriteAll(KeystrokeFields(i.keystroke.value)))] else [])
    + (if i.resize.Some? then [Chunk(3, WriteAll(ResizeFields(i.resize.value)))] else [])
  }

  function MessageFields(diff: seq<Instruction>): seq<Field> {
    if diff == [] then [] else [Chunk(1, WriteAll(InstructionFields(diff[0])))] + MessageFields(diff[1..])
  }

  function Encoded(diff: seq<Instruction>): seq<Byte> {
    WriteAll(MessageFields(diff))
  }

  /** Fields of other numbers are passed over, and one of these in another wire type is an error. */
  function ReadKeystroke(fields: seq<Field>, keys: Option<seq<Byte>>): Option<Option<seq<Byte>>>
    decreases |fields|
  {
    if fields == [] then Some(keys)
    else if fields[0].tag != 4 then ReadKeystroke(fields[1..], keys)
    else if fields[0].Chunk? then ReadKeystroke(fields[1..], Some(fields[0].bytes))
    else None
  }

  function ReadResize(fields: seq<Field>, r: (Option<Int32>, Option<Int32>)): Option<(Option<Int32>, Option<Int32>)>
    decreases |fields|
  {
    if fields == [] then Some(r)
    else if fields[0].tag !in {5, 6} then ReadResize(fields[1..], r)
    else if !fields[0].Number? then None
    else
      var n := Some(Signed(fields[0].value));
      ReadResize(fields[1..], if fields[0].tag == 5 then (n, r.1) else (r.0, n))
  }

  /** A part that comes twice is merged into what came before. */
  function ReadInstruction(fields: seq<Field>, i: Instruction): Option<Instruction>
    decreases |fields|
  {
    if fields == [] then Some(i)
    else if fields[0].tag !in {2, 3} then ReadInstruction(fields[1..], i)
    else if !fields[0].Chunk? then None
    else
      match TakeAll(fields[0].bytes)
      case None => None
      case Some(inner) =>
        if fields[0].tag == 2 then
          match ReadKeystroke(inner, i.keystroke.GetOr(None))
          case None => None
          case Some(k) => ReadInstruction(fields[1..], i.(keystroke := Some(k)))
        else
          match ReadResize(inner, i.resize.GetOr((None, None)))
          case None => None
          case Some(r) => ReadInstruction(fields[1..], i.(resize := Some(r)))
  }

  function ReadMessage(fields: seq<Field>): Option<seq<Instruction>>
    decreases |fields|
  {
    if fields == [] then Some([])
    else if fields[0].tag != 1 then ReadMessage(fields[1..])
    else if !fields[0].Chunk? then None
    else
      match ReadPart(fields[0].bytes)
      case None => None
      case Some(i) => match ReadMessage(fields[1..]) case None => None case Some(more) => Some([i] + more)
  }

  function ReadPart(bytes: seq<Byte>): Option<Instruction> {
    match TakeAll(bytes)
    case None => None
    case Some(fields) => ReadInstruction(fields, Instruction(None, None))
  }

  function Decoded(bytes: seq<Byte>): Option<seq<Instruction>> {
    match TakeAll(bytes)
    case None => None
    case Some(fields) => ReadMessage(fields)
  }

  // ---------- the stream ----------

  class UserStream {
    var actions: seq<Event>

    constructor ()
      ensures actions == []
    {
      actions := [];
    }

    method PushByte(c: Byte)
      modifies this
      ensures actions == old(actions) + [Key(c)]
    {
      actions := actions + [Key(c)];
    }

    method PushResize(width: Int32, height: Int32)
      modifies this
      ensures actions == old(actions) + [Resize(width, height)]
    {
      actions := actions + [Resize(width, height)];
    }

    /** Take the prefix off, as far as it matches. */
    method Subtract(prefix: UserStream)
      modifies this
      ensures actions == Subtracted(old(actions), old(prefix.actions))
    {
      if this == prefix {
        SubtractedSelf(actions, []);
        assert actions + [] == actions;
        actions := [];
        return;
      }
      var i := 0;
      assert prefix.actions[0..] == prefix.actions;
      while i < |prefix.actions|
        invariant 0 <= i <= |prefix.actions| && prefix.actions == old(prefix.actions)
        invariant Subtracted(actions, prefix.actions[i..]) == Subtracted(old(actions), prefix.actions)
      {
        assert prefix.actions[i..][0] == prefix.actions[i] && prefix.actions[i..][1..] == prefix.actions[i + 1..];
        if actions == [] || actions[0] != prefix.actions[i] { return; }
        actions := actions[1..];
        i := i + 1;
      }
    }

    /** The events beyond those of `existing`, as instructions. */
    method DiffFrom(existing: UserStream) returns (bytes: seq<Byte>)
      ensures bytes == Encoded(Diff(actions, existing.actions))
    {
      var output := [];
      var i := |existing.actions|;
      if i > |actions| { return Encoded(output); }
      while i < |actions|
        invariant |existing.actions| <= i <= |actions|
        invariant AppendedAll(output, actions[i..]) == Diff(actions, existing.actions)
      {
        assert actions[i..][0] == actions[i] && actions[i..][1..] == actions[i + 1..];
        match actions[i] {
          case Key(c) =>
            if output != [] && output[|output| - 1].keystroke.Some? {
              var last := output[|output| - 1];
              output := output[|output| - 1 := last.(keystroke := Some(Some(last.keystroke.value.GetOr([]) + [c])))];
            } else {
              output := output + [Keys([c])];
            }
          case Resize(w, h) => output := output + [Instruction(None, Some((Some(w), Some(h))))];
        }
        i := i + 1;
      }
      return Encoded(output);
    }

    method ApplyInstruction(inst: Instruction)
      modifies this
      ensures actions == old(actions) + Effect(inst)
    {
      if inst.keystroke.Some? {
        var keys := inst.keystroke.value.GetOr([]);
        var k := 0;
        while k < |keys|
          invariant 0 <= k <= |keys| && actions == old(actions) + KeyEvents(keys[..k])
        {
          assert KeyEvents(keys[..k + 1]) == KeyEvents(keys[..k]) + [Key(keys[k])];
          actions := actions + [Key(keys[k])];
          k := k + 1;
        }
        assert keys[..k] == keys;
      } else if inst.resize.Some? {
        actions := actions + [Resize(inst.resize.value.0.GetOr(-1), inst.resize.value.1.GetOr(-1))];
      }
    }

    method ApplyString(bytes: seq<Byte>) returns (ok: bool)
      modifies this
      ensures var diff := Decoded(bytes);
        && ok == diff.Some?
        && actions == if ok then old(actions) + Effects(diff.value) else old(actions)
    {
      var decoded := Decoded(bytes);
      if decoded == None { return false; }
      var diff := decoded.value;
      var i := 0;
      while i < |diff|
        invariant 0 <= i <= |diff| && actions == old(actions) + Effects(diff[..i])
      {
        assert diff[..i + 1][..i] == diff[..i];
        ApplyInstruction(diff[i]);
        i := i + 1;
      }
      assert diff[..i] == diff;
      return true;
    }
  }

  // ---------- the bytes read back ----------

  /** A run of keystrokes short enough for its length to be written. */
  predicate Sized(i: Instruction) {
    i.keystroke.Some? && i.keystroke.value.Some? ==> |i.keystroke.value.value| < EVENT_LIMIT
  }

  lemma SignedUnsigned(n: Int32)
    ensures Unsigned(n) < TWO_TO_64 && Signed(Unsigned(n)) == n
  {
  }

  lemma KeystrokeRead(keys: Option<seq<Byte>>)
    requires keys.Some? ==> |keys.value| < EVENT_LIMIT
    ensures var fields := KeystrokeFields(keys);
      && TakeAll(WriteAll(fields)) == Some(fields) && ReadKeystroke(fields, None) == Some(keys)
      && |WriteAll(fields)| <= 20 + |keys.GetOr([])|
  {
    var fields := KeystrokeFields(keys);
    TakeAllWritten(fields);
    if keys.Some? {
      WriteLength(fields[0]);
      assert fields[1..] == [];
    }
  }

  lemma AtMostTwo(fields: seq<Field>)
    requires |fields| <= 2 && forall f <- fields :: Protobuf.Fits(f)
    ensures |WriteAll(fields)| <= 20 * |fields| + (if |fields| > 0 && !fields[0].Number? then |fields[0].bytes| else 0)
      + (if |fields| > 1 && !fields[1].Number? then |fields[1].bytes| else 0)
    ensures |fields| > 0 ==> fields[1..] == if |fields| == 1 then [] else [fields[1]]
    ensures |fields| > 1 ==> [fields[1]][1..] == []
  {
    hide Write;
    if |fields| > 0 {
      WriteLength(fields[0]);
      if |fields| > 1 {
        WriteLength(fields[1]);
        assert fields[1..][1..] == [];
      } else {
        assert fields[1..] == [];
      }
    }
  }

  lemma ResizeRead(r: (Option<Int32>, Option<Int32>))
    ensures var fields := ResizeFields(r);
      && TakeAll(WriteAll(fields)) == Some(fields) && ReadResize(fields, (None, None)) == Some(r)
      && |WriteAll(fields)| <= 40
  {
    hide Write, WriteAll, TakeAll, Unsigned, Signed;
    var fields := ResizeFields(r);
    if r.0.Some? { SignedUnsigned(r.0.value); }
    if r.1.Some? { SignedUnsigned(r.1.value); }
    assert forall f <- fields :: Protobuf.Fits(f);
    TakeAllWritten(fields);
    AtMostTwo(fields);
    if r.0.Some? && r.1.Some? {
      assert ReadResize(fields[1..], (r.0, None)) == ReadResize([], r) == Some(r);
    }
  }

  lemma InstructionRead(i: Instruction)
    requires Sized(i)
    ensures var bytes := WriteAll(InstructionFields(i));
      |bytes| < TWO_TO_64 && ReadPart(bytes) == Some(i)
  {
    hide Write, WriteAll, TakeAll, ReadKeystroke, ReadResize, KeystrokeFields, ResizeFields;
    var fields := InstructionFields(i);
    if i.keystroke.Some? { KeystrokeRead(i.keystroke.value); }
    if i.resize.Some? { ResizeRead(i.resize.value); }
    assert forall f <- fields :: Protobuf.Fits(f);
    TakeAllWritten(fields);
    AtMostTwo(fields);
    if i.keystroke.Some? && i.resize.Some? {
      assert ReadInstruction(fields[1..], i.(resize := None)) == ReadInstruction([], i) == Some(i);
    } else if i.keystroke.Some? || i.resize.Some? {
      assert ReadInstruction(fields[1..], i) == Some(i);
    }
    assert ReadInstruction(fields, Instruction(None, None)) == Some(i);
  }

  lemma {:induction false} MessageRead(diff: seq<Instruction>)
    requires forall i <- diff :: Sized(i)
    ensures ReadMessage(MessageFields(diff)) == Some(diff)
    ensures forall f <- MessageFields(diff) :: Protobuf.Fits(f)
  {
    hide WriteAll, InstructionFields, ReadPart, Sized;
    if diff != [] {
      assert diff[0] in diff && forall i <- diff[1..] :: i in diff;
      InstructionRead(diff[0]);
      MessageRead(diff[1..]);
      assert [diff[0]] + diff[1..] == diff;
    }
  }

  lemma EncodedEmpty(diff: seq<Instruction>)
    ensures Encoded(diff) == [] <==> diff == []
  {
    hide Write;
  }

  /** Every difference reads back from its bytes. */
  lemma EncodedDecodes(diff: seq<Instruction>)
    requires forall i <- diff :: Sized(i)
    ensures Decoded(Encoded(diff)) == Some(diff)
  {
    MessageRead(diff);
    TakeAllWritten(MessageFields(diff));
  }

  // ---------- laws ----------

  /** Taking a prefix off leaves what follows it. */
  lemma {:induction false} SubtractedSelf(prefix: seq<Event>, rest: seq<Event>)
    ensures Subtracted(prefix + rest, prefix) == rest
    decreases |prefix|
  {
    if prefix == [] {
      assert [] + rest == rest;
    } else {
      assert (prefix + rest)[1..] == prefix[1..] + rest;
      SubtractedSelf(prefix[1..], rest);
    }
  }

  /** The length of the longest shared prefix. */
  function Shared(actions: seq<Event>, prefix: seq<Event>): (n: nat)
    ensures n <= |actions| && n <= |prefix| && actions[..n] == prefix[..n]
    ensures n < |actions| && n < |prefix| ==> actions[n] != prefix[n]
    decreases |prefix|
  {
    if prefix == [] || actions == [] || actions[0] != prefix[0] then 0
    else
      var n := Shared(actions[1..], prefix[1..]);
      assert actions[..n + 1] == [actions[0]] + actions[1..][..n] && prefix[..n + 1] == [prefix[0]] + prefix[1..][..n];
      n + 1
  }

  /** Nothing but the longest shared prefix is ever taken off. */
  lemma {:induction false} SubtractsWhatIsShared(actions: seq<Event>, prefix: seq<Event>)
    ensures Subtracted(actions, prefix) == actions[Shared(actions, prefix)..]
    decreases |prefix|
  {
    if prefix != [] && actions != [] && actions[0] == prefix[0] {
      SubtractsWhatIsShared(actions[1..], prefix[1..]);
    }
  }

  lemma AppendedEffect(output: seq<Instruction>, e: Event)
    ensures Effects(Appended(output, e)) == Effects(output) + [e]
    ensures Appended(output, e) != []
  {
    var after := Appended(output, e);
    if e.Key? && output != [] && output[|output| - 1].keystroke.Some? {
      var keys := output[|output| - 1].keystroke.value.GetOr([]);
      assert after[..|after| - 1] == output[..|output| - 1];
      assert KeyEvents(keys + [e.byte]) == KeyEvents(keys) + [e];
    } else {
      assert after[..|after| - 1] == output;
      assert e.Key? ==> KeyEvents([e.byte]) == [e];
    }
  }

  lemma {:induction false} AppendedAllEffects(output: seq<Instruction>, events: seq<Event>)
    ensures Effects(AppendedAll(output, events)) == Effects(output) + events
    ensures AppendedAll(output, events) == [] ==> output == [] && events == []
    decreases |events|
  {
    hide Effects, Appended;
    if events == [] {
      assert Effects(output) + [] == Effects(output);
    } else {
      AppendedEffect(output, events[0]);
      AppendedAllEffects(Appended(output, events[0]), events[1..]);
      assert Effects(output) + [events[0]] + events[1..] == Effects(output) + events;
    }
  }

  function KeyCount(i: Instruction): nat {
    if i.keystroke.Some? then |i.keystroke.value.GetOr([])| else 0
  }

  lemma {:induction false} KeyCounts(output: seq<Instruction>, events: seq<Event>, n: nat)
    requires forall i <- output :: KeyCount(i) <= n
    ensures forall i <- AppendedAll(output, events) :: KeyCount(i) <= n + |events|
    decreases |events|
  {
    if events != [] {
      forall i <- Appended(output, events[0])
        ensures KeyCount(i) <= n + 1
      {
        assert output != [] ==> output[|output| - 1] in output;
        assert i in output || KeyCount(i) <= n + 1;
      }
      KeyCounts(Appended(output, events[0]), events[1..], n + 1);
    }
  }

  /** A difference of so few events reads back from its bytes. */
  lemma DiffDecodes(actions: seq<Event>, existing: seq<Event>)
    requires existing <= actions && |actions| - |existing| < EVENT_LIMIT
    ensures var diff := Diff(actions, existing); Decoded(Encoded(diff)) == Some(diff)
  {
    KeyCounts([], actions[|existing|..], 0);
    EncodedDecodes(Diff(actions, existing));
  }

  /** A difference applied to the stream it was taken from gives the stream it leads to. */
  lemma DiffThenApply(existing: seq<Event>, actions: seq<Event>)
    requires existing <= actions
    ensures existing + Effects(Diff(actions, existing)) == actions
  {
    AppendedAllEffects([], actions[|existing|..]);
    assert Effects([]) + actions[|existing|..] == actions[|existing|..];
  }

  /** A difference, and its bytes, are empty exactly when there is none. */
  lemma DiffEmptyIffEqual(existing: seq<Event>, actions: seq<Event>)
    requires existing <= actions
    ensures Diff(actions, existing) == [] <==> actions == existing
    ensures Encoded(Diff(actions, existing)) == [] <==> actions == existing
  {
    EncodedEmpty(Diff(actions, existing));
    AppendedAllEffects([], actions[|existing|..]);
  }

  /** Both ends may forget a shared prefix, each when it likes: the difference stays the same. */
  lemma DiffIgnoresPrefix(prefix: seq<Event>, existing: seq<Event>, actions: seq<Event>)
    requires prefix <= existing <= actions
    ensures Diff(Subtracted(actions, prefix), Subtracted(existing, prefix)) == Diff(actions, existing)
  {
    var n := |prefix|;
    assert actions == prefix + actions[n..] && existing == prefix + existing[n..];
    SubtractedSelf(prefix, actions[n..]);
    SubtractedSelf(prefix, existing[n..]);
    assert actions[n..][|existing| - n..] == actions[|existing|..];
  }

  /** Runs of keystrokes are joined as far as they go, and every instruction says one thing. */
  ghost predicate Coalesced(output: seq<Instruction>) {
    && (forall i | 0 <= i < |output| :: output[i].keystroke.Some? != output[i].resize.Some?)
    && (forall i | 0 <= i < |output| && output[i].keystroke.Some? ::
          output[i].keystroke.value.Some? && output[i].keystroke.value.value != [])
    && (forall i | 0 < i < |output| :: output[i - 1].keystroke.None? || output[i].keystroke.None?)
  }

  lemma {:induction false} RunsAreJoined(output: seq<Instruction>, events: seq<Event>)
    requires Coalesced(output)
    ensures Coalesced(AppendedAll(output, events))
    decreases |events|
  {
    if events != [] {
      RunsAreJoined(Appended(output, events[0]), events[1..]);
    }
  }

  lemma {:induction false} EffectsStartAt(diff: seq<Instruction>)
    requires diff != []
    ensures Effects(diff) == Effect(diff[0]) + Effects(diff[1..])
    decreases |diff|
  {
    hide Effect;
    var init := diff[..|diff| - 1];
    if |diff| == 1 {
      assert init == [] && diff[1..] == [];
    } else {
      EffectsStartAt(init);
      assert diff[1..][..|diff| - 2] == init[1..];
    }
  }

  /**
   * The joined form is the only one: two differences in it that do the same are the same.
   */
  lemma {:induction false} JoinedFormIsUnique(a: seq<Instruction>, b: seq<Instruction>)
    requires Coalesced(a) && Coalesced(b) && Effects(a) == Effects(b)
    requires forall i | 0 <= i < |a| && a[i].resize.Some? :: a[i].resize.value.0.Some? && a[i].resize.value.1.Some?
    requires forall i | 0 <= i < |b| && b[i].resize.Some? :: b[i].resize.value.0.Some? && b[i].resize.value.1.Some?
    ensures a == b
    decreases |a| + |b|
  {
    hide Effects, Effect, Coalesced;
    if a == [] || b == [] {
      NothingDone(a);
      NothingDone(b);
    } else {
      EffectsStartAt(a);
      EffectsStartAt(b);
      FirstRun(a);
      FirstRun(b);
      var ea, eb := Effect(a[0]), Effect(b[0]);
      var ra, rb := Effects(a[1..]), Effects(b[1..]);
      assert ea + ra == eb + rb;
      SameFirstRun(a, b);
      SameFirstRun(b, a);
      assert ea == (ea + ra)[..|ea|] && eb == (eb + rb)[..|eb|];
      assert ra == (ea + ra)[|ea|..] && rb == (eb + rb)[|eb|..];
      SameEffect(a[0], b[0]);
      JoinedFormIsUnique(a[1..], b[1..]);
      assert a == [a[0]] + a[1..] && b == [b[0]] + b[1..];
    }
  }

  lemma NothingDone(a: seq<Instruction>)
    requires Coalesced(a)
    ensures Effects(a) == [] <==> a == []
  {
    hide Effect, Coalesced;
    if a != [] {
      EffectsStartAt(a);
      FirstRun(a);
    }
  }

  /** In joined form the first instruction takes all the keystrokes there are before a resize, or one resize. */
  lemma FirstRun(a: seq<Instruction>)
    requires Coalesced(a) && a != []
    ensures Coalesced(a[1..]) && |Effect(a[0])| > 0
    ensures a[0].keystroke.Some? ==> forall i | 0 <= i < |Effect(a[0])| :: Effect(a[0])[i].Key?
    ensures a[0].keystroke.Some? && |a| > 1 ==> |Effects(a[1..])| > 0 && Effects(a[1..])[0].Resize?
    ensures a[0].keystroke.None? ==> |Effect(a[0])| == 1 && Effect(a[0])[0].Resize?
    ensures |a| == 1 ==> Effects(a[1..]) == []
    ensures SaysOneThing(a[0])
  {
    if |a| > 1 {
      EffectsStartAt(a[1..]);
    }
  }

  /** The first instructions of two such differences that do the same reach equally far. */
  lemma SameFirstRun(a: seq<Instruction>, b: seq<Instruction>)
    requires Coalesced(a) && Coalesced(b) && a != [] && b != []
    requires Effect(a[0]) + Effects(a[1..]) == Effect(b[0]) + Effects(b[1..])
    ensures |Effect(a[0])| >= |Effect(b[0])|
  {
    hide Effects, Effect, Coalesced;
    FirstRun(a);
    FirstRun(b);
    SharedStart(Effect(a[0]), Effects(a[1..]), Effect(b[0]), Effects(b[1..]));
  }

  lemma SharedStart(ea: seq<Event>, ra: seq<Event>, eb: seq<Event>, rb: seq<Event>)
    requires ea + ra == eb + rb
    ensures |ea| > 0 && |eb| > 0 ==> ea[0] == eb[0]
    ensures |ea| < |eb| ==> |ra| > 0 && ra[0] == eb[|ea|]
  {
    assert |ea| > 0 && |eb| > 0 ==> ea[0] == (ea + ra)[0] == (eb + rb)[0] == eb[0];
    assert |ea + ra| == |ea| + |ra| && |eb + rb| == |eb| + |rb|;
    assert |ea| < |eb| ==> ra[0] == (ea + ra)[|ea|] == (eb + rb)[|ea|] == eb[|ea|];
  }

  ghost predicate SaysOneThing(i: Instruction) {
    i.keystroke.Some? != i.resize.Some? && (i.keystroke.Some? ==> i.keystroke.value.Some?)
  }

  lemma SameEffect(i: Instruction, j: Instruction)
    requires Effect(i) == Effect(j) && |Effect(i)| > 0
    requires SaysOneThing(i) && SaysOneThing(j)
    requires i.resize.Some? ==> i.resize.value.0.Some? && i.resize.value.1.Some?
    requires j.resize.Some? ==> j.resize.value.0.Some? && j.resize.value.1.Some?
    ensures i == j
  {
    if i.keystroke.Some? {
      assert Effect(i)[0].Key?;
      var a, b := i.keystroke.value.value, j.keystroke.value.value;
      assert |a| == |b|;
      forall k | 0 <= k < |a|
        ensures a[k] == b[k]
      {
        assert Effect(i)[k] == Effect(j)[k];
      }
      assert a == b;
    } else {
      assert Effect(i)[0].Resize? && j.resize.Some?;
    }
  }
}

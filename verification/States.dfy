/**
 * The states the transport carries, of either kind: what was written to a pipe, or what a user did. An endpoint sends
 * states of one kind and receives states of one kind; the operations and the laws are those of that kind.
 */
module States {
  import opened Options
  import Streams
  import UserStreams

  datatype Content = Piped(pipe: Streams.Stream) | Typed(events: seq<UserStreams.Event>)

  function Empty(s: Content): Content {
    if s.Piped? then Piped(Streams.EMPTY) else Typed([])
  }

  // ---------- the operations a state offers the transport ----------

  function Subtract(s: Content, prefix: Content): Content {
    match (s, prefix)
    case (Piped(a), Piped(b)) => Piped(Streams.Subtract(a, b))
    case (Typed(a), Typed(b)) => Typed(UserStreams.Subtracted(a, b))
    case _ => s
  }

  function DiffFrom(s: Content, existing: Content): seq<Byte> {
    match (s, existing)
    case (Piped(a), Piped(b)) => Streams.DiffFrom(a, b)
    case (Typed(a), Typed(b)) => UserStreams.Encoded(UserStreams.Diff(a, b))
    case _ => []
  }

  function Apply(s: Content, diff: seq<Byte>): Option<Content> {
    match s
    case Piped(a) =>
      (match Streams.Apply(a, diff)
       case None => None
       case Some(r) => Some(Piped(r)))
    case Typed(a) =>
      (match UserStreams.Decoded(diff)
       case None => None
       case Some(d) => Some(Typed(a + UserStreams.Effects(d))))
  }

  /** What a receiver makes of a diff: an empty one changes nothing and is never parsed. */
  function Advance(s: Content, diff: seq<Byte>): Option<Content> {
    if diff == [] then Some(s) else Apply(s, diff)
  }

  // ---------- growth ----------

  /** What is added to a state: output and perhaps its end, or a key or a resize. */
  datatype Growth = Output(out: seq<Byte>, err: seq<Byte>, end: Option<Streams.ExitCode>)
                  | Input(event: UserStreams.Event)

  /** A pipe is ended once. */
  predicate Accepts(s: Content, g: Growth) {
    s.Piped? == g.Output? && (g.Output? ==> g.end.Some? ==> s.pipe.end == None)
  }

  function Grown(s: Content, g: Growth): Content {
    match (s, g)
    case (Piped(a), Output(out, err, end)) =>
      Piped(Streams.Stream(a.out + out, a.err + err, if end.Some? then end else a.end))
    case (Typed(a), Input(event)) => Typed(a + [event])
    case _ => s
  }

  // ---------- the laws the transport relies on ----------

  /** `a` was written before `b` by the same writer. */
  ghost predicate Before(a: Content, b: Content) {
    match (a, b)
    case (Piped(p), Piped(q)) => Streams.Before(p, q)
    case (Typed(p), Typed(q)) => p <= q
    case _ => false
  }

  /** The absolute content of a state from which the content of `base` has been stripped. */
  function Join(base: Content, s: Content): Content {
    match (base, s)
    case (Piped(a), Piped(b)) => Piped(Streams.Join(a, b))
    case (Typed(a), Typed(b)) => Typed(a + b)
    case _ => s
  }

  /** Every length this diff would write can be written. */
  predicate Fits(s: Content, existing: Content) {
    match (s, existing)
    case (Piped(a), Piped(b)) => Streams.Fits(a, b)
    case (Typed(a), Typed(b)) => |a| - |b| < UserStreams.EVENT_LIMIT
    case _ => true
  }

  /** So little that its difference from any part of it fits. */
  predicate Small(s: Content) {
    match s
    case Piped(a) => |a.out| < Streams.LENGTH_LIMIT && |a.err| < Streams.LENGTH_LIMIT
    case Typed(a) => |a| < UserStreams.EVENT_LIMIT
  }

  lemma SmallerStays(s: Content, known: Content)
    requires Small(s)
    ensures Small(Subtract(s, known))
  {
    if s.Typed? && known.Typed? {
      UserStreams.SubtractsWhatIsShared(s.events, known.events);
    }
  }

  lemma DiffEmptyIffEqual(s: Content, existing: Content)
    requires Before(existing, s)
    ensures DiffFrom(s, existing) == [] <==> s == existing
  {
    match (s, existing)
    case (Piped(a), Piped(b)) => Streams.DiffEmptyIffEqual(a, b);
    case (Typed(a), Typed(b)) => UserStreams.DiffEmptyIffEqual(b, a);
  }

  lemma DiffThenApply(s: Content, existing: Content)
    requires Before(existing, s) && Fits(s, existing)
    ensures Advance(existing, DiffFrom(s, existing)) == Some(s)
  {
    match (s, existing)
    case (Piped(a), Piped(b)) => Streams.DiffThenApply(a, b);
    case (Typed(a), Typed(b)) =>
      UserStreams.DiffDecodes(a, b);
      UserStreams.DiffEmptyIffEqual(b, a);
      UserStreams.DiffThenApply(b, a);
  }

  /** A diff depends on absolute contents only: a prefix both states lack never shows in it. */
  lemma DiffIgnoresBase(base: Content, s: Content, existing: Content)
    requires Before(Join(base, existing), Join(base, s))
    ensures DiffFrom(Join(base, s), Join(base, existing)) == DiffFrom(s, existing)
    ensures Before(existing, s)
  {
    BeforeRelative(base, existing, s);
    match (base, s)
    case (Piped(c), Piped(a)) => Streams.DiffIgnoresBase(c, a, existing.pipe);
    case (Typed(c), Typed(a)) =>
      assert (c + a)[|c + existing.events|..] == a[|existing.events|..];
    case _ =>
  }

  /** Applying a diff commutes with putting back a stripped prefix. */
  lemma AdvanceCommutesWithBase(base: Content, s: Content, diff: seq<Byte>)
    ensures Advance(Join(base, s), diff).Some? <==> Advance(s, diff).Some?
    ensures Advance(s, diff).Some? ==> Advance(Join(base, s), diff) == Some(Join(base, Advance(s, diff).value))
  {
    match (base, s)
    case (Piped(c), Piped(a)) => Streams.AdvanceCommutesWithBase(c, a, diff);
    case (Typed(c), Typed(a)) =>
      var d := UserStreams.Decoded(diff);
      if d.Some? {
        assert c + a + UserStreams.Effects(d.value) == c + (a + UserStreams.Effects(d.value));
      }
    case _ =>
  }

  /** Stripping a shared prefix moves it into the base and leaves the absolute content alone. */
  lemma SubtractMovesIntoBase(base: Content, s: Content, known: Content)
    requires Before(Join(base, known), Join(base, s))
    ensures Join(Join(base, known), Subtract(s, known)) == Join(base, s)
  {
    BeforeRelative(base, known, s);
    match (s, known)
    case (Piped(a), Piped(b)) =>
      Streams.SubtractMovesIntoBase(Streams.EMPTY, a, b);
      if base.Piped? { Streams.SubtractMovesIntoBase(base.pipe, a, b); }
    case (Typed(a), Typed(b)) =>
      assert a == b + a[|b|..];
      UserStreams.SubtractedSelf(b, a[|b|..]);
      if base.Typed? { assert base.events + b + a[|b|..] == base.events + a; }
  }

  /** Subtracting a prefix both states share leaves the bytes of the diff unchanged. */
  lemma SubtractKeepsDiff(s: Content, existing: Content, known: Content)
    requires Before(known, existing) && Before(existing, s)
    ensures DiffFrom(Subtract(s, known), Subtract(existing, known)) == DiffFrom(s, existing)
  {
    match (s, existing)
    case (Piped(a), Piped(b)) => Streams.SubtractKeepsDiff(a, b, known.pipe);
    case (Typed(a), Typed(b)) => UserStreams.DiffIgnoresPrefix(known.events, b, a);
  }

  lemma BeforeRelative(base: Content, a: Content, b: Content)
    requires Before(Join(base, a), Join(base, b))
    ensures Before(a, b)
  {
    match (base, a)
    case (Piped(c), Piped(p)) => Streams.BeforeRelative(c, p, b.pipe);
    case (Typed(c), Typed(p)) =>
      var q := b.events;
      assert p == (c + p)[|c|..] == (c + q)[|c|..|c| + |p|];
    case _ =>
  }

  lemma BeforeTransitive(a: Content, b: Content, c: Content)
    requires Before(a, b) && Before(b, c)
    ensures Before(a, c)
  {
  }

  lemma JoinEmpty(s: Content)
    ensures Join(Empty(s), s) == s
  {
  }

  /** A state grows in its place: under whatever was stripped from it, and after what it was. */
  lemma GrownInPlace(base: Content, s: Content, g: Growth)
    requires Accepts(s, g)
    ensures Join(base, Grown(s, g)) == Grown(Join(base, s), g)
    ensures Before(s, Grown(s, g))
  {
    match (base, s)
    case (Piped(c), Piped(a)) =>
      assert c.out + (a.out + g.out) == c.out + a.out + g.out;
      assert c.err + (a.err + g.err) == c.err + a.err + g.err;
    case (Typed(c), Typed(a)) => assert c + (a + [g.event]) == c + a + [g.event];
    case _ =>
  }
}

/** The screen as a state to be kept in step: a difference, performed on the old screen, gives the new one. */
module Completes {
  import opened Rendition
  import opened Screens
  import opened Actions
  import opened ScreenLaws
  import opened Views
  import opened FrameStates
  import opened Displays

  /** Nothing anyone can see has changed: the rows are the very same rows. */
  predicate SameScreen(a: Snapshot, b: Snapshot) {
    && |a.rows| == |b.rows| && (forall y | 0 <= y < |a.rows| :: a.rows[y].id == b.rows[y].id)
    && SameSize(a.ds, b.ds) && a.ds.cursorCol == b.ds.cursorCol && a.ds.cursorRow == b.ds.cursorRow
    && a.ds.modes.cursorVisible == b.ds.modes.cursorVisible && a.ds.modes.reverseVideo == b.ds.modes.reverseVideo
    && a.ds.ren == b.ds.ren && a.ds.modes.bracketedPaste == b.ds.modes.bracketedPaste
  }

  /** What a difference asks of its two screens: the new one can be drawn and rows keep their identity. */
  ghost predicate Comparable(last: Snapshot, f: Snapshot, blank: Line) {
    && Drawable(f) && WellFormedState(last.ds) && Shaped(last.rows, last.ds.width, last.ds.height)
    && IdentityHolds(f.rows, last.rows)
    && blank.cells == BlankRow(f.ds.width, 0) && forall i | 0 <= i < |f.rows| :: f.rows[i].id != blank.id
  }

  function Hosted(ops: seq<Action>): seq<Event> {
    seq(|ops|, i requires 0 <= i < |ops| => Host(ops[i]))
  }

  lemma {:induction false} HostedLives(t: Screen, ops: seq<Action>)
    requires WellFormed(t)
    ensures Live(t, Hosted(ops)) == RunAll(t, ops)
    decreases |ops|
  {
    hide Act, WellFormed;
    if ops != [] {
      assert Hosted(ops)[0] == Host(ops[0]) && Hosted(ops)[1..] == Hosted(ops[1..]);
      HostedLives(Act(t, ops[0]), ops[1..]);
    }
  }

  lemma {:induction false} LiveAppend(t: Screen, xs: seq<Event>, ys: seq<Event>)
    requires WellFormed(t)
    ensures Live(t, xs + ys) == Live(Live(t, xs), ys)
    decreases |xs|
  {
    hide Happen, WellFormed;
    if xs == [] {
      assert xs + ys == ys;
    } else {
      assert (xs + ys)[1..] == xs[1..] + ys;
      LiveAppend(Happen(t, xs[0]), xs[1..], ys);
    }
  }

  lemma ResizeKeepsModes(t: Screen, ds: DrawState)
    requires Ready(t) && WellFormedState(ds)
    ensures var r := Resize(t, ds.width, ds.height);
      Ready(r) && SameSize(r.ds, ds) && r.ds.modes.reverseVideo == t.ds.modes.reverseVideo
  {
    hide ResizeState, ResizedRows, WellFormedRows;
  }

  lemma SameScreenShows(t: Screen, last: Snapshot, f: Snapshot, off: nat)
    requires ShowsOff(t, last, off) && SameScreen(last, f) && IdentityHolds(f.rows, last.rows)
    ensures ShowsOff(t, f, off)
  {
    hide Ready, RowsAlike;
    forall y | 0 <= y < |f.rows|
      ensures RowsAlike(t.rows[y], f.rows[y].cells)
    {
      assert f.rows[y] == last.rows[y];
      assert RowsAlike(t.rows[y], last.rows[y].cells);
    }
  }

  // ---------- a cursor that stands left of where it is believed to be ----------

  /** What says nothing of the cursor's column. */
  predicate IsIdle(op: Action) {
    op.Run? && op.f in {SelectRendition, SetPrivateMode, ClearPrivateMode}
      && (op.f != SelectRendition ==> forall p <- op.params :: p in {5, 25, 2004})
  }

  predicate Idle(ops: seq<Action>) {
    forall op <- ops :: IsIdle(op)
  }

  /** The first of these operations that concerns the cursor's column gives it one. */
  predicate Rights(ops: seq<Action>) {
    ops != [] && ((ops[0].Run? && ops[0].f in {CarriageReturn, CursorPosition})
                  || ((IsIdle(ops[0]) || (ops[0].Run? && ops[0].f == SetMargins)) && Rights(ops[1..])))
  }

  /** Two terminals that differ only in the cursor's column. */
  predicate SameButColumn(t: Screen, u: Screen) {
    u == t.(ds := t.ds.(cursorCol := u.ds.cursorCol))
  }

  predicate StateButColumn(a: DrawState, b: DrawState) {
    b == a.(cursorCol := b.cursorCol, combiningCol := b.combiningCol)
  }

  lemma RowMoves(a: DrawState, b: DrawState, n: int)
    requires StateButColumn(a, b)
    ensures StateButColumn(MoveRow(a, n, false), MoveRow(b, n, false))
  {
  }

  lemma ColumnMoves(a: DrawState, b: DrawState, n: int)
    requires StateButColumn(a, b)
    ensures MoveCol(a, n, false) == MoveCol(b, n, false)
  {
  }

  lemma SetsTheColumn(t: Screen, u: Screen, op: Action)
    requires WellFormed(t) && WellFormed(u) && SameButColumn(t, u)
    requires op.Run? && op.f in {CarriageReturn, CursorPosition}
    ensures Act(t, op) == Act(u, op)
  {
    StateAction(t, op.f, op.params);
    StateAction(u, op.f, op.params);
    hide Act, WellFormed, WellFormedState, MoveRow, MoveCol, GetParam;
    var a, b := Canceled(t.ds, op.f), Canceled(u.ds, op.f);
    if op.f == CarriageReturn {
      ColumnMoves(a, b, 0);
    } else {
      var y, x := GetParam(op.params, 0, 1) - 1, GetParam(op.params, 1, 1) - 1;
      RowMoves(a, b, y);
      ColumnMoves(MoveRow(a, y, false), MoveRow(b, y, false), x);
    }
  }

  lemma LeavesTheColumn(t: Screen, u: Screen, op: Action)
    requires WellFormed(t) && WellFormed(u) && SameButColumn(t, u) && IsIdle(op)
    ensures var t', u' := Act(t, op), Act(u, op);
      SameButColumn(t', u') && t'.ds.cursorCol == t.ds.cursorCol && u'.ds.cursorCol == u.ds.cursorCol
  {
    if op.f == SelectRendition {
      StateAction(t, op.f, op.params);
      StateAction(u, op.f, op.params);
      hide Act, WellFormed;
    } else {
      CellsAction(t, op.f, op.params);
      CellsAction(u, op.f, op.params);
      ModesLeaveColumn(CancelWrap(t, op.f), CancelWrap(u, op.f), op.params, op.f == SetPrivateMode);
    }
  }

  lemma ModeLeavesColumn(t: Screen, u: Screen, p: int, on: bool)
    requires WellFormed(t) && WellFormed(u) && SameButColumn(t, u) && p in {5, 25, 2004}
    ensures var t', u' := SetDecMode(t, p, on), SetDecMode(u, p, on);
      SameButColumn(t', u') && t'.ds.cursorCol == t.ds.cursorCol && u'.ds.cursorCol == u.ds.cursorCol
  {
    hide WellFormed, ResetRows, Home;
  }

  lemma {:induction false} ModesLeaveColumn(t: Screen, u: Screen, params: seq<int>, on: bool)
    requires WellFormed(t) && WellFormed(u) && SameButColumn(t, u) && forall p <- params :: p in {5, 25, 2004}
    ensures var t', u' := SetDecModes(t, params, on), SetDecModes(u, params, on);
      SameButColumn(t', u') && t'.ds.cursorCol == t.ds.cursorCol && u'.ds.cursorCol == u.ds.cursorCol
    decreases |params|
  {
    hide WellFormed, SetDecMode, SameButColumn;
    if params != [] {
      var p := GetParam(params, 0, 0);
      assert params[0] in params && forall q <- params[1..] :: q in params;
      ModeLeavesColumn(t, u, p, on);
      ModesLeaveColumn(SetDecMode(t, p, on), SetDecMode(u, p, on), params[1..], on);
    }
  }

  lemma RegionAlike(a: DrawState, b: DrawState, top: int, bottom: int)
    requires StateButColumn(a, b)
    ensures StateButColumn(SetScrollingRegion(a, top, bottom), SetScrollingRegion(b, top, bottom))
  {
  }

  lemma MarginAlike(a: DrawState, b: DrawState, top: int, bottom: int)
    requires b == a.(cursorCol := b.cursorCol)
    ensures var a', b' := SetMargin(a, top, bottom), SetMargin(b, top, bottom); b' == a'.(cursorCol := b'.cursorCol)
  {
    hide MoveRow, MoveCol, SetScrollingRegion;
    RegionAlike(a, b, top - 1, bottom - 1);
    var a', b' := SetScrollingRegion(a, top - 1, bottom - 1), SetScrollingRegion(b, top - 1, bottom - 1);
    RowMoves(a', b', 0);
    ColumnMoves(MoveRow(a', 0, false), MoveRow(b', 0, false), 0);
  }

  lemma MarginsAlike(t: Screen, u: Screen, params: seq<int>)
    requires WellFormed(t) && WellFormed(u) && SameButColumn(t, u)
    ensures SameButColumn(Act(t, Run(Function.SetMargins, params)), Act(u, Run(Function.SetMargins, params)))
  {
    StateAction(t, Function.SetMargins, params);
    StateAction(u, Function.SetMargins, params);
    hide Act, WellFormed, WellFormedState, SetMargin, GetParam;
    var a, b := Canceled(t.ds, Function.SetMargins), Canceled(u.ds, Function.SetMargins);
    MarginAlike(a, b, GetParam(params, 0, 1), GetParam(params, 1, a.height));
  }

  /** After that it no longer matters where the cursor was. */
  lemma {:induction false} RightsTheCursor(t: Screen, u: Screen, ops: seq<Action>)
    requires WellFormed(t) && WellFormed(u) && SameButColumn(t, u) && Rights(ops)
    ensures RunAll(t, ops) == RunAll(u, ops)
    decreases |ops|
  {
    hide Act, WellFormed, SameButColumn, IsIdle;
    var op := ops[0];
    if op.Run? && op.f in {CarriageReturn, CursorPosition} {
      SetsTheColumn(t, u, op);
    } else {
      if IsIdle(op) { LeavesTheColumn(t, u, op); } else { MarginsAlike(t, u, op.params); }
      RightsTheCursor(Act(t, op), Act(u, op), ops[1..]);
    }
  }

  lemma {:induction false} IdleLeavesTheColumn(t: Screen, u: Screen, ops: seq<Action>)
    requires WellFormed(t) && WellFormed(u) && SameButColumn(t, u) && Idle(ops)
    ensures var t', u' := RunAll(t, ops), RunAll(u, ops);
      SameButColumn(t', u') && t'.ds.cursorCol == t.ds.cursorCol && u'.ds.cursorCol == u.ds.cursorCol
    decreases |ops|
  {
    hide Act, WellFormed, SameButColumn, IsIdle;
    if ops != [] {
      assert ops[0] in ops;
      LeavesTheColumn(t, u, ops[0]);
      IdleLeavesTheColumn(Act(t, ops[0]), Act(u, ops[0]), ops[1..]);
    }
  }

  // ---------- differences ----------

  /** The frame a difference holds, unless nothing has changed. */
  function FrameTo(d: Display, last: Snapshot, f: Snapshot, blank: Line): seq<Action>
    requires Drawable(f) && |last.rows| == last.ds.height
  {
    DrawableWritable(f);
    d.FrameOps(true, last, f, blank)
  }

  /** A frame between two screens that look the same by their very rows is empty. */
  lemma SameScreenWritesNothing(d: Display, last: Snapshot, f: Snapshot, blank: Line)
    requires Drawable(f) && WellFormedState(last.ds) && |last.rows| == last.ds.height && SameScreen(last, f)
    ensures FrameTo(d, last, f, blank) == []
  {
    assert f.ds.height >= 1;
    hide Writable, DrawableRow, WellFormedState, Display.RowsDraft;
    DrawableWritable(f);
    assert FirstMatch(f.rows[0], last.rows, 0) == 0;
    assert FindScroll(f.rows, last.rows) == Scrolling(0, 0);
    var start := d.BeginDraft(true, last, f);
    assert start == Draft([], last.ds.cursorCol, last.ds.cursorRow, last.ds.ren, last.ds.modes.cursorVisible);
    d.RowsUnchanged(start, f.rows, last.rows, 0);
  }

  predicate Differs(last: Snapshot, f: Snapshot, elsewhere: bool) {
    elsewhere || !SameScreen(last, f)
  }

  /**
   * The frame draws, or moves by distance, from a cursor that stands `off` columns left of where it is believed to be.
   */
  predicate Misdraws(d: Display, last: Snapshot, f: Snapshot, blank: Line, elsewhere: bool, off: nat)
    requires Drawable(f) && |last.rows| == last.ds.height
  {
    && off > 0 && Differs(last, f, elsewhere) && SameSize(last.ds, f.ds)
    && var ops := FrameTo(d, last, f, blank); !Rights(ops) && !Idle(ops)
  }

  /** How far left of its place the difference leaves a cursor that stood `off` columns left of its own. */
  function OffAfter(d: Display, last: Snapshot, f: Snapshot, blank: Line, elsewhere: bool, off: nat): nat
    requires Drawable(f) && |last.rows| == last.ds.height
  {
    if !Differs(last, f, elsewhere) then off
    else
      (if SameSize(last.ds, f.ds) && !Rights(FrameTo(d, last, f, blank)) then off else 0)
      + (if Overshoots(d.hasBce, true, last, f, blank) then 1 else 0)
  }

  /** The terminal with its cursor where the screen has it. */
  ghost function Righted(t: Screen, f: Snapshot): Screen {
    t.(ds := t.ds.(cursorCol := f.ds.cursorCol))
  }

  lemma RightedShows(t: Screen, f: Snapshot, off: nat)
    requires ShowsOff(t, f, off) && WellFormedState(f.ds)
    ensures Shows(Righted(t, f), f) && SameButColumn(t, Righted(t, f)) && t.ds.cursorCol == f.ds.cursorCol - off
  {
    hide LooksLike;
  }

  lemma StillOff(t: Screen, u: Screen, f: Snapshot, off: nat, more: nat)
    requires WellFormed(t) && ShowsOff(u, f, off) && SameButColumn(t, u) && t.ds.cursorCol == u.ds.cursorCol - more
    ensures ShowsOff(t, f, off + more)
  {
    hide LooksLike, WellFormed;
  }

  /** A frame between two screens of one size, on a terminal whose cursor may stand left of its place. */
  method FrameFrom(d: Display, last: Snapshot, f: Snapshot, blank: Line, ghost t: Screen, ghost off: nat)
    returns (ops: seq<Action>)
    requires Comparable(last, f, blank) && ShowsOff(t, last, off) && SameSize(last.ds, f.ds)
    requires off > 0 ==> Rights(FrameTo(d, last, f, blank)) || Idle(FrameTo(d, last, f, blank))
    ensures WellFormed(t) && ops == FrameTo(d, last, f, blank)
    ensures ShowsOff(RunAll(t, ops), f, (if Rights(ops) then 0 else off)
      + (if Overshoots(d.hasBce, true, last, f, blank) then 1 else 0))
  {
    hide Act, RunAll, Drawable, RowsAlike, LooksLike, Overshoots, IdentityHolds, BlankRow, Rights, Idle;
    ghost var u := Righted(t, last);
    RightedShows(t, last, off);
    ops := d.NewFrame(true, last, f, blank, u);
    ghost var missed := if Overshoots(d.hasBce, true, last, f, blank) then 1 else 0;
    if Rights(ops) {
      RightsTheCursor(t, u, ops);
    } else if off > 0 {
      IdleLeavesTheColumn(t, u, ops);
      StillOff(RunAll(t, ops), RunAll(u, ops), f, missed, off);
    } else {
      assert u == t;
    }
  }

  /** A resize and a frame that starts over, which find the cursor wherever it is. */
  method AfterResize(d: Display, last: Snapshot, f: Snapshot, blank: Line, ghost t: Screen) returns (events: seq<Event>)
    requires Comparable(last, f, blank) && Ready(t) && t.ds.modes.reverseVideo == last.ds.modes.reverseVideo
    requires !SameSize(last.ds, f.ds)
    ensures WellFormed(t)
    ensures ShowsOff(Live(t, events), f, if Overshoots(d.hasBce, true, last, f, blank) then 1 else 0)
  {
    hide Act, RunAll, Live, Resize, Drawable, RowsAlike, LooksLike, Overshoots, IdentityHolds, BlankRow;
    events := [Resized(f.ds.width, f.ds.height)];
    ghost var sized := Resize(t, f.ds.width, f.ds.height);
    assert WellFormedState(f.ds) by { DrawableSized(f); }
    ResizeKeepsModes(t, f.ds);
    assert Live(t, events) == sized by { LiveOne(t, events, sized); }
    var ops := d.NewFrame(true, last, f, blank, sized);
    HostedLives(sized, ops);
    LiveAppend(t, events, Hosted(ops));
    events := events + Hosted(ops);
  }

  /**
   * The difference from `last` to `f`: a resize if the size changed, and a frame. `elsewhere` says that something
   * outside the model, such as the title, changed as well. Performed by a terminal that shows `last`, with the cursor
   * possibly left of its place, it leaves one that shows `f`, with the cursor as far off as stated; unless it draws
   * from such a cursor.
   */
  method DiffFrom(d: Display, last: Snapshot, f: Snapshot, blank: Line, elsewhere: bool, ghost t: Screen,
                  ghost off: nat)
    returns (events: seq<Event>)
    requires Comparable(last, f, blank) && ShowsOff(t, last, off) && !Misdraws(d, last, f, blank, elsewhere, off)
    ensures WellFormed(t)
    ensures ShowsOff(Live(t, events), f, OffAfter(d, last, f, blank, elsewhere, off))
  {
    hide Act, RunAll, Live, Resize, Drawable, RowsAlike, LooksLike, Overshoots, IdentityHolds, BlankRow, SameScreen,
      Rights, Idle, FrameTo;
    events := [];
    if !(elsewhere || !SameScreen(last, f)) {
      assert Live(t, events) == t by { LiveOne(t, events, t); }
      SameScreenShows(t, last, f, off);
    } else if last.ds.width != f.ds.width || last.ds.height != f.ds.height {
      events := AfterResize(d, last, f, blank, t);
    } else {
      var ops := FrameFrom(d, last, f, blank, t, off);
      HostedLives(t, ops);
      events := Hosted(ops);
    }
  }

  lemma DrawableSized(f: Snapshot)
    requires Drawable(f)
    ensures WellFormedState(f.ds) && |f.rows| == f.ds.height
  {
  }

  lemma LiveOne(t: Screen, events: seq<Event>, r: Screen)
    requires WellFormed(t)
    requires (events == [] && r == t)
      || (|events| == 1 && events[0].Resized? && r == Resize(t, events[0].width, events[0].height))
    ensures Live(t, events) == r
  {
    hide Resize;
    if |events| == 1 {
      assert events[1..] == [];
    }
  }

  /** What is asked of a series of screens, each with a blank row of its own, for differences between neighbours. */
  ghost predicate Series(frames: seq<Snapshot>, blanks: seq<Line>) {
    |frames| == |blanks| && forall i | 1 <= i < |frames| :: Comparable(frames[i - 1], frames[i], blanks[i])
  }

  /** How far left of its place the cursor stands once screen `i` of a series is drawn. */
  ghost function OffAt(d: Display, frames: seq<Snapshot>, blanks: seq<Line>, elsewhere: seq<bool>, i: nat): nat
    requires Series(frames, blanks) && |elsewhere| == |frames| && i < |frames|
  {
    if i == 0 then 0
    else OffAfter(d, frames[i - 1], frames[i], blanks[i], elsewhere[i], OffAt(d, frames, blanks, elsewhere, i - 1))
  }

  /**
   * One difference after another, from a terminal that shows the first screen. As long as none of them draws from a
   * cursor that was missed, the terminal shows each screen in turn, whatever their sizes, with the cursor as far off
   * as stated.
   */
  method Follow(d: Display, frames: seq<Snapshot>, blanks: seq<Line>, elsewhere: seq<bool>, ghost t: Screen)
    returns (events: seq<Event>)
    requires |elsewhere| == |frames| > 0 && Shows(t, frames[0]) && Series(frames, blanks)
    requires forall i | 1 <= i < |frames| ::
      !Misdraws(d, frames[i - 1], frames[i], blanks[i], elsewhere[i], OffAt(d, frames, blanks, elsewhere, i - 1))
    ensures WellFormed(t)
    ensures ShowsOff(Live(t, events), frames[|frames| - 1], OffAt(d, frames, blanks, elsewhere, |frames| - 1))
  {
    hide Live, Comparable, Misdraws, OffAfter, LooksLike, Matches;
    events := [];
    assert Live(t, events) == t by { LiveOne(t, events, t); }
    var i := 1;
    while i < |frames|
      invariant 1 <= i <= |frames|
      invariant WellFormed(t) && ShowsOff(Live(t, events), frames[i - 1], OffAt(d, frames, blanks, elsewhere, i - 1))
    {
      ghost var now, off := Live(t, events), OffAt(d, frames, blanks, elsewhere, i - 1);
      var more := DiffFrom(d, frames[i - 1], frames[i], blanks[i], elsewhere[i], now, off);
      LiveAppend(t, events, more);
      events := events + more;
      i := i + 1;
    }
  }

  // ---------- when the cursor was missed ----------

  /** The smallest screens on which the cursor is missed: two columns, the second of which has just been written. */
  function Two(generation: nat, rowId: nat, cells: Row, cursorCol: int): Snapshot {
    Snapshot([Line(cells, generation, rowId)], InitialState(2, 1).(cursorCol := cursorCol))
  }

  const NOTHING := Two(0, 0, BlankRow(2, 0), 0)
  const AN_X := Two(1, 1, [Blank(0), Glyph('x', INITIAL)], 1)
  const A_Y := Two(2, 2, [Blank(0), Glyph('y', INITIAL)], 1)
  const FRESH := Line(BlankRow(2, 0), 0, 3)

  lemma StartsBlank()
    ensures Shows(NewScreen(2, 1), NOTHING)
  {
    assert NewScreen(2, 1).rows == [BlankRow(2, 0)];
    RowAlikeItself(BlankRow(2, 0));
  }

  lemma CursorIsMissed(hasBce: bool)
    ensures Shows(NewScreen(2, 1), NOTHING) && Comparable(NOTHING, AN_X, FRESH)
      && Overshoots(hasBce, true, NOTHING, AN_X, FRESH)
  {
    StartsBlank();
    hide Shows, NewScreen;
    var last, f := NOTHING, AN_X;
    var cells := f.rows[0].cells;
    assert cells[1] != BlankRow(2, 0)[1];
    assert !SameLine(f.rows[0], last.rows[0]);
    assert FirstMatch(f.rows[0], last.rows, 0) == FirstMatch(f.rows[0], last.rows, 1) == 1;
    assert FindScroll(f.rows, last.rows) == Scrolling(0, 0);
    assert !Changed(true, cells, last.rows[0].cells, 0) && Changed(true, cells, last.rows[0].cells, 1);
    assert Waiting(true, cells, last.rows[0].cells, 0, 0).None?;
    assert Waiting(true, cells, last.rows[0].cells, 0, 1).None?;
    assert ReachesEdge(hasBce, true, f.rows[0], last.rows[0], 0);
  }

  /**
   * What the frame after a missed cursor does first. It trusts the cursor of the screen last drawn, so that a character
   * it moves to by distance, or finds itself at, is written one column left of its place; any other is in its place.
   */
  lemma ChangeAfterMiss(t: Screen, f: Snapshot, visible: bool, y: int, x: int, ch: char)
    requires ShowsOff(t, f, 1) && WellFormedState(f.ds) && 0 <= y < f.ds.height && 0 <= x < f.ds.width
    ensures InShape(Look(t)) && WellFormed(t)
    ensures var ops := SilentMoveOps(visible, f.ds.cursorCol, f.ds.cursorRow, y, x) + [Print(ch, 1)];
      var at := if GoesByDistance(f.ds.cursorCol, f.ds.cursorRow, y, x) then x - 1 else x;
      0 <= at && RunAll(t, ops).rows == t.rows[y := t.rows[y][at := Glyph(ch, t.ds.ren)]]
  {
    hide Act, WellFormed, WellFormedState, LooksLike, SilentMoveOps;
    InBounds(f.ds);
    ReadyInShape(t);
    StaleMove(t, visible, y, x);
    var move := SilentMoveOps(visible, f.ds.cursorCol, f.ds.cursorRow, y, x);
    var moved := RunAll(t, move);
    Writes(moved, ch);
    RunAllAppend(t, move, [Print(ch, 1)]);
    assert RunAll(moved, [Print(ch, 1)]) == RunAll(Act(moved, Print(ch, 1)), []);
  }

  lemma InBounds(ds: DrawState)
    requires WellFormedState(ds)
    ensures 0 <= ds.cursorCol < ds.width && 0 <= ds.cursorRow < ds.height
  {
  }

  /** The frame that turns the `x` into a `y`: it takes the cursor to be where the letter goes. */
  lemma OneLetterOps(d: Display)
    ensures Comparable(AN_X, A_Y, FRESH)
    ensures FrameTo(d, AN_X, A_Y, FRESH) == [Print('y', 1), Run(Backspace, [])]
  {
    var goal, rows := A_Y.rows, AN_X.rows;
    var cells, was := goal[0].cells, rows[0].cells;
    DrawableWritable(A_Y);
    assert FirstMatch(goal[0], rows, 0) == FirstMatch(goal[0], rows, 1) == 1;
    assert FindScroll(goal, rows) == Scrolling(0, 0);
    assert !Changed(true, cells, was, 0) && Changed(true, cells, was, 1);
    var start := Draft([], 1, 0, INITIAL, true);
    var written := Draft([Print('y', 1)], 2, 0, INITIAL, true);
    d.CellsDraftStep(start, true, cells, was, 0, 0, 0, INITIAL);
    d.CellsDraftStep(start, true, cells, was, 0, 1, 0, INITIAL);
    d.CellsDraftEnd(written, true, cells, was, 0, 0, INITIAL);
    assert start.Move(0, 1).Style(INITIAL, false) == start && [] + [Print('y', 1)] == [Print('y', 1)];
    assert d.RowDraft(start, true, goal[0], rows[0], 0, 1, false) == written;
    assert d.RowsDraft(start, true, goal, rows, 0, false) == d.RowsDraft(written, true, goal, rows, 1, false);
    assert d.RowsDraft(written, true, goal, rows, 1, false) == written;
    assert d.BeginDraft(true, AN_X, A_Y) == start;
    assert MoveOps(2, 0, 0, 1) == Repeated(Run(Backspace, []), 1) == [Run(Backspace, [])];
  }

  /** What those operations do to a terminal whose cursor stands in the first column. */
  lemma LetterThenBack(t: Screen)
    requires ShowsOff(t, AN_X, 1)
    ensures WellFormed(t) && |t.rows| == 1 && |t.rows[0]| == 2
    ensures RunAll(t, [Print('y', 1), Run(Backspace, [])]).rows == [[Glyph('y', INITIAL), t.rows[0][1]]]
  {
    hide Act, WellFormed;
    assert WellFormedState(AN_X.ds);
    ReadyInShape(t);
    Writes(t, 'y');
    var u := Act(t, Print('y', 1));
    BacksUp(u);
    assert RunAll(t, [Print('y', 1), Run(Backspace, [])]) == RunAll(u, [Run(Backspace, [])])
      == RunAll(Act(u, Run(Backspace, [])), []);
    assert Look(t).rows == t.rows && Look(u).rows == u.rows && Look(t).ren == INITIAL && Look(t).x == 0;
    assert u.rows == t.rows[0 := t.rows[0][0 := Glyph('y', INITIAL)]];
    assert t.rows[0][0 := Glyph('y', INITIAL)] == [Glyph('y', INITIAL), t.rows[0][1]];
  }

  /**
   * Two frames of which the second spoils the screen: on any terminal the first one leaves, the letter overwrites the
   * column before its own, which stays as it was.
   */
  lemma NextFrameSpoilsCells(d: Display, t: Screen)
    requires ShowsOff(t, AN_X, 1)
    ensures Comparable(AN_X, A_Y, FRESH) && Misdraws(d, AN_X, A_Y, FRESH, false, 1) && WellFormed(t)
    ensures var r := RunAll(t, FrameTo(d, AN_X, A_Y, FRESH));
      |r.rows| == 1 && |r.rows[0]| == 2 && Alike(r.rows[0][0], A_Y.rows[0].cells[1])
        && Alike(r.rows[0][1], AN_X.rows[0].cells[1])
  {
    OneLetterOps(d);
    LetterThenBack(t);
    assert RowsAlike(t.rows[0], AN_X.rows[0].cells);
    assert A_Y.rows[0].cells[1] == Glyph('y', INITIAL);
    var ops := FrameTo(d, AN_X, A_Y, FRESH);
    assert ops[0] in ops && !IsIdle(ops[0]) && !Rights(ops);
    assert A_Y.rows[0].id != AN_X.rows[0].id;
    hide RunAll, FrameTo, WellFormed, Matches;
  }
}

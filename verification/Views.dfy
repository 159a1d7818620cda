/** What the operations a frame is written in do to a terminal, as far as a person looking at it can tell. */
module Views {
  import opened Rendition
  import opened Screens
  import opened Actions

  datatype ViewModes = ViewModes(reverse: bool, paste: bool)

  /** The visible part of a terminal: everything but tabs, saved state and where the next accent would go. */
  datatype View = View(
    width: int,
    height: int,
    rows: seq<Row>,
    y: int,
    x: int,
    pending: bool,
    top: int,
    bottom: int,
    ren: Renditions,
    visible: bool,
    modes: ViewModes)

  function Look(t: Screen): View {
    View(t.ds.width, t.ds.height, t.rows, t.ds.cursorRow, t.ds.cursorCol, t.ds.nextPrintWillWrap, t.ds.top, t.ds.bottom,
         t.ds.ren, t.ds.modes.cursorVisible, ViewModes(t.ds.modes.reverseVideo, t.ds.modes.bracketedPaste))
  }

  /** A terminal in the modes a frame relies on. */
  ghost predicate Ready(t: Screen) {
    WellFormed(t) && t.ds.modes.autoWrap && !t.ds.modes.insertMode && !t.ds.modes.originMode
  }

  ghost predicate WholeRegion(v: View) {
    v.top == 0 && v.bottom == v.height - 1
  }

  predicate InShape(v: View) {
    && 1 <= v.width <= MAX_DIMENSION && 1 <= v.height <= MAX_DIMENSION
    && 0 <= v.y < v.height && 0 <= v.x < v.width
    && 0 <= v.top <= v.bottom < v.height
    && |v.rows| == v.height
    && forall i | 0 <= i < |v.rows| :: |v.rows[i]| == v.width
  }

  lemma ReadyInShape(t: Screen)
    requires Ready(t)
    ensures InShape(Look(t))
  {
    forall i | 0 <= i < |t.rows|
      ensures |t.rows[i]| == t.ds.width
    {
      assert WellFormedRow(t.rows[i], t.ds.width);
    }
  }

  function Glyph(ch: char, ren: Renditions): Cell {
    Cell([ch], ren, false, false, false)
  }

  function Canceled(ds: DrawState, f: Function): DrawState {
    if ClearsWrap(f) then ds.(nextPrintWillWrap := false) else ds
  }

  lemma StateAction(t: Screen, f: Function, params: seq<int>)
    requires WellFormed(t) && OnState(f)
    ensures WellFormedState(Canceled(t.ds, f))
    ensures Act(t, Run(f, params)) == Screen(t.rows, PerformOnState(Canceled(t.ds, f), f, params))
  {
    hide PerformOnState, WellFormedRows;
  }

  lemma CellsAction(t: Screen, f: Function, params: seq<int>)
    requires WellFormed(t) && !OnState(f)
    ensures Act(t, Run(f, params)) == PerformOnCells(CancelWrap(t, f), f, params)
  {
    hide PerformOnCells, CancelWrap, WellFormed;
  }

  // ---------- moving ----------

  function MovedTo(v: View, y: int, x: int): View {
    v.(y := y, x := x, pending := false)
  }

  lemma Returns(t: Screen)
    requires Ready(t)
    ensures var t' := Act(t, Run(CarriageReturn, [])); Ready(t') && Look(t') == MovedTo(Look(t), t.ds.cursorRow, 0)
  {
  }

  lemma BacksUp(t: Screen)
    requires Ready(t)
    ensures var t' := Act(t, Run(Backspace, []));
      Ready(t') && Look(t') == MovedTo(Look(t), t.ds.cursorRow, if t.ds.cursorCol == 0 then 0 else t.ds.cursorCol - 1)
  {
  }

  lemma Positions(t: Screen, y: int, x: int)
    requires Ready(t) && 0 <= y < t.ds.height && 0 <= x < t.ds.width
    ensures var t' := Act(t, Run(CursorPosition, [y + 1, x + 1])); Ready(t') && Look(t') == MovedTo(Look(t), y, x)
  {
  }

  lemma GoesHome(t: Screen)
    requires Ready(t)
    ensures var t' := Act(t, Run(CursorPosition, [])); Ready(t') && Look(t') == MovedTo(Look(t), 0, 0)
  {
  }

  /** A line feed moves down, and at the bottom of the region moves the region up instead. */
  function Fed(v: View): View
    requires InShape(v)
  {
    if v.y == v.bottom then
      v.(pending := false, rows := LinesDeleted(v.rows, v.top, v.bottom, v.top, 1, BlankRow(v.width, v.ren.bg)))
    else MovedTo(v, if v.y == v.height - 1 then v.y else v.y + 1, v.x)
  }

  lemma FeedsUnpended(s: Screen)
    requires Ready(s) && !s.ds.nextPrintWillWrap && (s.ds.bottom > 0 || s.ds.height == 1)
    ensures InShape(Look(s))
    ensures var r := MoveRowsAutoscroll(s, 1); Ready(r) && Look(r) == Fed(Look(s))
  {
    ReadyInShape(s);
    hide LinesDeleted, WellFormedRows;
    if s.ds.cursorRow == s.ds.bottom {
      var scrolled := Screens.Scroll(s, 1);
      assert scrolled == s.(rows := LinesDeleted(s.rows, s.ds.top, s.ds.bottom, s.ds.top, 1, NewRow(s)));
      assert MoveRowsAutoscroll(s, 1) == WithState(scrolled, MoveRow(MoveRow(s.ds, -1, true), 1, true));
      hide MoveRowsAutoscroll, Screens.Scroll;
    } else {
      assert MoveRowsAutoscroll(s, 1) == WithState(s, MoveRow(s.ds, 1, true));
      hide MoveRowsAutoscroll, Screens.Scroll;
    }
  }

  lemma Feeds(t: Screen)
    requires Ready(t) && (t.ds.bottom > 0 || t.ds.height == 1)
    ensures InShape(Look(t))
    ensures var t' := Act(t, Run(LineFeed, [])); Ready(t') && Look(t') == Fed(Look(t))
  {
    hide MoveRowsAutoscroll, Act, LinesDeleted, WellFormed;
    ReadyInShape(t);
    var s := CancelWrap(t, LineFeed);
    FeedsUnpended(s);
    CellsAction(t, LineFeed, []);
    assert Look(s) == Look(t).(pending := false);
  }

  // ---------- writing ----------

  function Written(v: View, ch: char): View
    requires InShape(v)
  {
    v.(rows := v.rows[v.y := v.rows[v.y][v.x := Glyph(ch, v.ren)]],
       x := if v.x + 1 < v.width then v.x + 1 else v.x,
       pending := v.x + 1 >= v.width)
  }

  lemma Writes(t: Screen, ch: char)
    requires Ready(t) && !t.ds.nextPrintWillWrap
    ensures InShape(Look(t))
    ensures var t' := Act(t, Print(ch, 1)); Ready(t') && Look(t') == Written(Look(t), ch)
  {
    ReadyInShape(t);
  }

  /** A pending wrap above the bottom row marks the row and takes the cursor to the start of the next. */
  function Wrapped(v: View): View
    requires InShape(v) && v.y < v.height - 1
  {
    MovedTo(v, v.y + 1, 0).(rows := v.rows[v.y := SetRowWrap(v.rows[v.y], true)])
  }

  lemma WrapsAndWrites(t: Screen, ch: char)
    requires Ready(t) && t.ds.nextPrintWillWrap && t.ds.cursorRow < t.ds.height - 1
    requires WholeRegion(Look(t))
    ensures InShape(Look(t)) && InShape(Wrapped(Look(t)))
    ensures var t' := Act(t, Print(ch, 1)); Ready(t') && Look(t') == Written(Wrapped(Look(t)), ch)
  {
    ReadyInShape(t);
    WrapsLine(t);
    var w := WrapLine(t);
    ReadyInShape(w);
    assert Act(t, Print(ch, 1)) == Placed(w, ch, 1);
    hide Act, WrapLine, WellFormedRows, SetRowWrap;
  }

  lemma WrapsLine(t: Screen)
    requires Ready(t) && t.ds.nextPrintWillWrap && t.ds.cursorRow < t.ds.height - 1
    requires WholeRegion(Look(t))
    ensures InShape(Look(t))
    ensures var w := WrapLine(t); Ready(w) && !w.ds.nextPrintWillWrap && Look(w) == Wrapped(Look(t))
  {
    ReadyInShape(t);
    hide SetRowWrap, WellFormedRows;
    var marked := WithRow(t, t.ds.cursorRow, SetRowWrap(CursorRow(t), true));
    var returned := WithState(marked, MoveCol(marked.ds, 0, false));
    assert WrapLine(t) == MoveRowsAutoscroll(returned, 1);
    FeedsUnpended(returned);
    hide WrapLine, MoveRowsAutoscroll;
  }

  lemma Selects(t: Screen, r: Renditions)
    requires Ready(t) && Canonical(r)
    ensures var t' := Act(t, Run(SelectRendition, Sgr(r))); Ready(t') && Look(t') == Look(t).(ren := r)
  {
    SgrRoundTrip(t.ds.ren, r);
    hide Sgr, ApplySgr;
  }

  // ---------- erasing ----------

  function ErasedTo(v: View, end: int): View
    requires InShape(v)
  {
    v.(pending := false, rows := v.rows[v.y := Erased(v.rows[v.y], v.x, end, v.ren.bg)])
  }

  lemma ErasesChars(t: Screen, n: int)
    requires Ready(t) && 1 <= n && t.ds.cursorCol + n <= t.ds.width
    ensures InShape(Look(t))
    ensures var t' := Act(t, Run(EraseChars, [n])); Ready(t') && Look(t') == ErasedTo(Look(t), t.ds.cursorCol + n - 1)
  {
    ReadyInShape(t);
    hide Erased;
  }

  lemma ErasesLine(t: Screen)
    requires Ready(t)
    ensures InShape(Look(t))
    ensures var t' := Act(t, Run(EraseLine, [])); Ready(t') && Look(t') == ErasedTo(Look(t), t.ds.width - 1)
  {
    ReadyInShape(t);
    hide Erased;
  }

  lemma ErasesAll(t: Screen)
    requires Ready(t)
    ensures var t' := Act(t, Run(EraseDisplay, [2]));
      && Ready(t')
      && Look(t') == Look(t).(pending := false, rows := seq(t.ds.height, _ => BlankRow(t.ds.width, t.ds.ren.bg)))
  {
    ReadyInShape(t);
    var t' := Act(t, Run(EraseDisplay, [2]));
    var blank := BlankRow(t.ds.width, t.ds.ren.bg);
    assert t'.rows == seq(t.ds.height, _ => blank);
    assert seq(t.ds.height, _ => blank) == seq(t.ds.height, _ => BlankRow(t.ds.width, t.ds.ren.bg));
  }

  // ---------- margins and modes ----------

  /** Setting margins takes the cursor home; a one-line screen has no margins to set and ignores the request. */
  function Margins(v: View, top: int, bottom: int): View {
    if top < bottom then MovedTo(v, 0, 0).(top := top, bottom := bottom) else v.(pending := false)
  }

  lemma MarginsSet(ds: DrawState, bottom: int)
    requires WellFormedState(ds) && !ds.modes.originMode && 0 <= bottom < ds.height
    ensures SetMargin(ds, 1, bottom + 1) == if bottom == 0 then ds else Home(ds.(top := 0, bottom := bottom))
  {
    if bottom > 0 {
      assert SetScrollingRegion(ds, 0, bottom) == ds.(top := 0, bottom := bottom);
      hide SetScrollingRegion, Home;
    }
  }

  lemma HomeIsTopLeft(ds: DrawState)
    requires WellFormedState(ds) && !ds.modes.originMode
    ensures Home(ds) == ds.(cursorRow := 0, cursorCol := 0, combiningRow := 0, combiningCol := 0,
      nextPrintWillWrap := false)
  {
  }

  lemma MarginsLook(t: Screen, params: seq<int>, bottom: int)
    requires Ready(t) && 0 <= bottom < t.ds.height
    requires GetParam(params, 0, 1) == 1 && GetParam(params, 1, t.ds.height) == bottom + 1
    ensures var t' := Act(t, Run(SetMargins, params)); Ready(t') && Look(t') == Margins(Look(t), 0, bottom)
  {
    hide SetMargin, Home, GetParam, Act, PerformOnState, WellFormedRows;
    StateAction(t, SetMargins, params);
    var ds := Canceled(t.ds, SetMargins);
    MarginsSet(ds, bottom);
    HomeIsTopLeft(ds.(top := 0, bottom := bottom));
    MarginsPerform(ds, params);
  }

  lemma MarginsPerform(ds: DrawState, params: seq<int>)
    requires WellFormedState(ds)
    ensures PerformOnState(ds, SetMargins, params)
      == SetMargin(ds, GetParam(params, 0, 1), GetParam(params, 1, ds.height))
  {
    hide SetMargin, GetParam, WellFormedState;
  }

  lemma SetsMargins(t: Screen, bottom: int)
    requires Ready(t) && 0 <= bottom < t.ds.height
    ensures var t' := Act(t, Run(SetMargins, [1, bottom + 1])); Ready(t') && Look(t') == Margins(Look(t), 0, bottom)
  {
    MarginsLook(t, [1, bottom + 1], bottom);
  }

  lemma ResetsMargins(t: Screen)
    requires Ready(t)
    ensures var t' := Act(t, Run(SetMargins, [])); Ready(t') && Look(t') == Margins(Look(t), 0, t.ds.height - 1)
  {
    MarginsLook(t, [], t.ds.height - 1);
  }

  datatype Mode = Reverse | Visible | Paste

  function Number(m: Mode): int {
    match m
    case Reverse => 5
    case Visible => 25
    case Paste => 2004
  }

  function Switched(v: View, m: Mode, on: bool): View {
    match m
    case Reverse => v.(modes := v.modes.(reverse := on))
    case Visible => v.(visible := on)
    case Paste => v.(modes := v.modes.(paste := on))
  }

  function Switch(m: Mode, on: bool): Action {
    Run(if on then SetPrivateMode else ClearPrivateMode, [Number(m)])
  }

  lemma Switches(t: Screen, m: Mode, on: bool)
    requires Ready(t)
    ensures var t' := Act(t, Switch(m, on)); Ready(t') && Look(t') == Switched(Look(t), m, on)
  {
    hide Act, WellFormed;
    var f := if on then SetPrivateMode else ClearPrivateMode;
    CellsAction(t, f, [Number(m)]);
    PrivateModes(t, [Number(m)], on);
  }

  lemma PrivateModes(t: Screen, params: seq<int>, on: bool)
    requires WellFormed(t) && |params| == 1
    ensures var f := if on then SetPrivateMode else ClearPrivateMode;
      PerformOnCells(CancelWrap(t, f), f, params) == SetDecMode(t, GetParam(params, 0, 0), on)
  {
    hide SetDecMode, WellFormed;
    assert params[1..] == [];
    assert SetDecModes(t, params, on) == SetDecModes(SetDecMode(t, GetParam(params, 0, 0), on), [], on);
  }
}

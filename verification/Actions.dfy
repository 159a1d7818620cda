/** What each control function does to a screen, and what a run of them keeps. */
module Actions {
  import opened Rendition
  import opened Screens

  /** The control functions that act on the screen; `Other` stands for those that only cancel a pending wrap. */
  datatype Function =
    | EraseLine | EraseDisplay | EraseChars
    | CursorUp | CursorDown | CursorForward | CursorBack | CursorPosition | LinePosition | CharPosition
    | TabForward | TabBackward | TabClear | TabSet | Tab
    | SetPrivateMode | ClearPrivateMode | SetMode | ClearMode | SetMargins
    | SelectRendition | InsertLines | DeleteLines | InsertChars | DeleteChars | ScrollUp | ScrollDown
    | SoftReset | HardReset | Alignment | SaveCursor | RestoreCursor
    | LineFeed | CarriageReturn | Backspace | ReverseIndex | NextLine
    | Other

  datatype Action =
    | Print(ch: char, width: int)
    | Run(f: Function, params: seq<int>)

  /** Selecting a rendition, tabbing and private modes leave a pending wrap pending. */
  predicate ClearsWrap(f: Function) {
    !(f in {TabForward, TabBackward, TabClear, Tab, SetPrivateMode, ClearPrivateMode, SelectRendition})
  }

  function EraseInLine(s: Screen, mode: int): (r: Screen)
    requires WellFormed(s)
    ensures WellFormed(r)
  {
    match mode
    case 0 => ClearLine(s, s.ds.cursorCol, s.ds.width - 1)
    case 1 => ClearLine(s, 0, s.ds.cursorCol)
    case 2 => ResetRows(s, s.ds.cursorRow, s.ds.cursorRow + 1)
    case _ => s
  }

  function EraseInDisplay(s: Screen, mode: int): (r: Screen)
    requires WellFormed(s)
    ensures WellFormed(r)
  {
    match mode
    case 0 => ResetRows(ClearLine(s, s.ds.cursorCol, s.ds.width - 1), s.ds.cursorRow + 1, s.ds.height)
    case 1 => ClearLine(ResetRows(s, 0, s.ds.cursorRow), 0, s.ds.cursorCol)
    case 2 => ResetRows(s, 0, s.ds.height)
    case _ => s
  }

  function EraseForward(s: Screen, count: int): (r: Screen)
    requires WellFormed(s)
    ensures WellFormed(r)
  {
    var last := s.ds.cursorCol + count - 1;
    ClearLine(s, s.ds.cursorCol, if last >= s.ds.width then s.ds.width - 1 else last)
  }

  /** A tab keeps a pending wrap pending, though the cursor moves. */
  function TabBy(ds: DrawState, count: int): (r: DrawState)
    ensures WellFormedState(ds) ==> WellFormedState(r) && r.width == ds.width && r.height == ds.height
  {
    var col := NextTab(ds, count);
    MoveCol(ds, if col == -1 then ds.width - 1 else col, false).(nextPrintWillWrap := ds.nextPrintWillWrap)
  }

  function ClearTabs(ds: DrawState, mode: int): (r: DrawState)
    ensures WellFormedState(ds) ==> WellFormedState(r) && r.width == ds.width && r.height == ds.height
  {
    match mode
    case 0 => ClearTab(ds, ds.cursorCol)
    case 3 => ds.(defaultTabs := false,
      tabs := seq(|ds.tabs|, x requires 0 <= x < |ds.tabs| => x >= ds.width && ds.tabs[x]))
    case _ => ds
  }

  function Home(ds: DrawState): (r: DrawState)
    ensures WellFormedState(ds) ==> WellFormedState(r) && r.width == ds.width && r.height == ds.height
  {
    MoveCol(MoveRow(ds, 0, false), 0, false)
  }

  function WithModes(s: Screen, modes: Modes): (r: Screen)
    requires WellFormed(s)
    ensures WellFormed(r)
  {
    WithState(s, s.ds.(modes := modes))
  }

  function SetDecMode(s: Screen, param: int, on: bool): (r: Screen)
    requires WellFormed(s)
    ensures WellFormed(r)
  {
    match param
    case 1 => WithModes(s, s.ds.modes.(applicationKeys := on))
    case 3 => ResetRows(WithState(s, Home(s.ds)), 0, s.ds.height)
    case 5 => WithModes(s, s.ds.modes.(reverseVideo := on))
    case 6 => WithModes(WithState(s, Home(s.ds)), s.ds.modes.(originMode := on))
    case 7 => WithModes(s, s.ds.modes.(autoWrap := on))
    case 25 => WithModes(s, s.ds.modes.(cursorVisible := on))
    case 2004 => WithModes(s, s.ds.modes.(bracketedPaste := on))
    case _ => s
  }

  /** Private modes in the order they are named. */
  function SetDecModes(s: Screen, params: seq<int>, on: bool): (r: Screen)
    requires WellFormed(s)
    ensures WellFormed(r)
    decreases |params|
  {
    if params == [] then s
    else SetDecModes(SetDecMode(s, GetParam(params, 0, 0), on), params[1..], on)
  }

  function SetMargin(ds: DrawState, top: int, bottom: int): DrawState {
    if bottom <= top || top > ds.height then ds
    else Home(SetScrollingRegion(ds, top - 1, bottom - 1))
  }

  lemma SetMarginWellFormed(ds: DrawState, top: int, bottom: int)
    requires WellFormedState(ds) && top >= 1
    ensures var r := SetMargin(ds, top, bottom); WellFormedState(r) && r.width == ds.width && r.height == ds.height
  {
    hide SetScrollingRegion, Home, WellFormedState;
  }

  function Align(s: Screen): (r: Screen)
    requires WellFormed(s)
    ensures WellFormed(r)
  {
    var row := seq(s.ds.width, _ => Blank(Background(s)).(contents := "E"));
    s.(rows := seq(s.ds.height, _ => row))
  }

  function CancelWrap(s: Screen, f: Function): (r: Screen)
    requires WellFormed(s)
    ensures WellFormed(r)
  {
    if ClearsWrap(f) then WithState(s, s.ds.(nextPrintWillWrap := false)) else s
  }

  /** Functions that change cells. */
  function PerformOnCells(s: Screen, f: Function, params: seq<int>): (r: Screen)
    requires WellFormed(s)
    ensures WellFormed(r)
  {
    var n := GetParam(params, 0, 1);
    match f
    case EraseLine => EraseInLine(s, GetParam(params, 0, 0))
    case EraseDisplay => EraseInDisplay(s, GetParam(params, 0, 0))
    case EraseChars => EraseForward(s, n)
    case InsertLines => var r := InsertLine(s, s.ds.cursorRow, n); WithState(r, MoveCol(r.ds, 0, false))
    case DeleteLines => var r := DeleteLine(s, s.ds.cursorRow, n); WithState(r, MoveCol(r.ds, 0, false))
    case InsertChars => InsertCells(s, n)
    case DeleteChars => DeleteCells(s, n)
    case ScrollUp => Scroll(s, n)
    case ScrollDown => Scroll(s, -n)
    case Alignment => Align(s)
    case HardReset => Reset(s)
    case SetPrivateMode => SetDecModes(s, params, true)
    case ClearPrivateMode => SetDecModes(s, params, false)
    case LineFeed => MoveRowsAutoscroll(s, 1)
    case ReverseIndex => MoveRowsAutoscroll(s, -1)
    case NextLine => ReturnAndFeed(s)
    case _ => s
  }

  /** Of the modes that are not private only insertion, numbered 4, is known. */
  predicate NamesInsert(params: seq<int>) {
    exists i | 0 <= i < |params| :: GetParam(params, i, 0) == 4
  }

  /** Functions that change only the state beside the cells. */
  function PerformOnState(ds: DrawState, f: Function, params: seq<int>): DrawState
    requires WellFormedState(ds)
  {
    var n := GetParam(params, 0, 1);
    match f
    case CursorUp => MoveRow(ds, -n, true)
    case CursorDown => MoveRow(ds, n, true)
    case CursorForward => MoveCol(ds, n, true)
    case CursorBack => MoveCol(ds, -n, true)
    case CursorPosition => MoveCol(MoveRow(ds, n - 1, false), GetParam(params, 1, 1) - 1, false)
    case LinePosition => MoveRow(ds, n - 1, false)
    case CharPosition => MoveCol(ds, n - 1, false)
    case CarriageReturn => MoveCol(ds, 0, false)
    case Backspace => MoveCol(ds, -1, true)
    case TabForward => TabBy(ds, n)
    case TabBackward => TabBy(ds, -n)
    case Tab => TabBy(ds, 1)
    case TabClear => ClearTabs(ds, GetParam(params, 0, 0))
    case TabSet => SetTab(ds)
    case SetMode => if NamesInsert(params) then ds.(modes := ds.modes.(insertMode := true)) else ds
    case ClearMode => if NamesInsert(params) then ds.(modes := ds.modes.(insertMode := false)) else ds
    case SetMargins => SetMargin(ds, n, GetParam(params, 1, ds.height))
    case SelectRendition => ds.(ren := ApplySgr(ds.ren, params, 0))
    case SaveCursor => Screens.SaveCursor(ds)
    case RestoreCursor => Screens.RestoreCursor(ds)
    case SoftReset => Screens.SoftReset(ds)
    case _ => ds
  }

  predicate MovesCursor(f: Function) {
    f in {CursorUp, CursorDown, CursorForward, CursorBack, CursorPosition, LinePosition, CharPosition,
          CarriageReturn, Backspace, TabForward, TabBackward, Tab, RestoreCursor, SetMargins}
  }

  lemma MovingKeepsShape(ds: DrawState, f: Function, params: seq<int>)
    requires WellFormedState(ds) && MovesCursor(f)
    ensures var r := PerformOnState(ds, f, params);
      WellFormedState(r) && r.width == ds.width && r.height == ds.height
  {
    hide MoveRow, MoveCol, SetMargin, TabBy, Screens.RestoreCursor, WellFormedState;
    if f == SetMargins {
      SetMarginWellFormed(ds, GetParam(params, 0, 1), GetParam(params, 1, ds.height));
    }
  }

  lemma SettingKeepsShape(ds: DrawState, f: Function, params: seq<int>)
    requires WellFormedState(ds) && !MovesCursor(f)
    ensures var r := PerformOnState(ds, f, params);
      WellFormedState(r) && r.width == ds.width && r.height == ds.height
  {
    hide ApplySgr, Screens.SoftReset, SetTab, ClearTabs, GetParam, WellFormedState;
    if f != SoftReset && f != TabSet && f != TabClear {
      ShapeKept(ds, PerformOnState(ds, f, params));
    }
  }

  lemma ShapeKept(ds: DrawState, r: DrawState)
    requires WellFormedState(ds) && r.width == ds.width && r.height == ds.height && r.tabs == ds.tabs
    requires r.cursorCol == ds.cursorCol && r.cursorRow == ds.cursorRow
    requires r.combiningCol == ds.combiningCol && r.combiningRow == ds.combiningRow && r.top == ds.top
      && r.bottom == ds.bottom
    ensures WellFormedState(r)
  {
  }

  lemma PerformOnStateWellFormed(ds: DrawState, f: Function, params: seq<int>)
    requires WellFormedState(ds)
    ensures var r := PerformOnState(ds, f, params);
      WellFormedState(r) && r.width == ds.width && r.height == ds.height
  {
    hide PerformOnState, WellFormedState;
    if MovesCursor(f) {
      MovingKeepsShape(ds, f, params);
    } else {
      SettingKeepsShape(ds, f, params);
    }
  }

  predicate OnState(f: Function) {
    f in {CursorUp, CursorDown, CursorForward, CursorBack, CursorPosition, LinePosition, CharPosition,
          CarriageReturn, Backspace, TabForward, TabBackward, Tab, TabClear, TabSet, SetMode, ClearMode,
          SetMargins, SelectRendition, SaveCursor, RestoreCursor, SoftReset}
  }

  function Perform(s: Screen, f: Function, params: seq<int>): (r: Screen)
    requires WellFormed(s)
    ensures WellFormed(r)
  {
    var ready := CancelWrap(s, f);
    if OnState(f) then
      PerformOnStateWellFormed(ready.ds, f, params);
      WithState(ready, PerformOnState(ready.ds, f, params))
    else PerformOnCells(ready, f, params)
  }

  /** One action: a character to print, or a control function to run. */
  function Act(s: Screen, a: Action): (r: Screen)
    requires WellFormed(s)
    ensures WellFormed(r)
  {
    match a
    case Print(ch, width) => Screens.Print(s, ch, width)
    case Run(f, params) => Perform(s, f, params)
  }

  function RunAll(s: Screen, actions: seq<Action>): (r: Screen)
    requires WellFormed(s)
    ensures WellFormed(r)
    decreases |actions|
  {
    if actions == [] then s else RunAll(Act(s, actions[0]), actions[1..])
  }

  lemma {:induction false} RunAllAppend(s: Screen, xs: seq<Action>, ys: seq<Action>)
    requires WellFormed(s)
    ensures RunAll(s, xs + ys) == RunAll(RunAll(s, xs), ys)
    decreases |xs|
  {
    hide Act, WellFormed;
    if xs == [] {
      assert xs + ys == ys;
    } else {
      assert (xs + ys)[1..] == xs[1..] + ys;
      RunAllAppend(Act(s, xs[0]), xs[1..], ys);
    }
  }
}

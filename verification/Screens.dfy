/** The screen of a terminal: cells, rows, cursor state, and what each operation makes of them. */
module Screens {
  import opened Rendition
  import opened Utf8

  /** A cell takes no more combining characters once it holds this many bytes. */
  const MAX_CELL_BYTES := 32

  /** Largest terminal represented, in either direction. */
  const MAX_DIMENSION := 2048

  // ---------- cells and rows ----------

  datatype Cell = Cell(contents: string, ren: Renditions, wide: bool, fallback: bool, wrap: bool)

  type Row = seq<Cell>

  function Blank(bg: Color): Cell {
    Cell("", Plain(bg), false, false, false)
  }

  function Append(c: Cell, ch: char): Cell {
    if ByteLength(c.contents) >= MAX_CELL_BYTES then c else c.(contents := c.contents + [ch])
  }

  /** What a cell displays: a space when empty, and a base to combine with when it lacks one. */
  function Grapheme(c: Cell): string {
    if c.contents == "" then " " else (if c.fallback then ['\U{A0}'] else "") + c.contents
  }

  function BlankRow(width: nat, bg: Color): Row {
    seq(width, _ => Blank(bg))
  }

  function RowWrap(row: Row): bool {
    row != [] && row[|row| - 1].wrap
  }

  function SetRowWrap(row: Row, w: bool): Row {
    if row == [] then row else row[|row| - 1 := row[|row| - 1].(wrap := w)]
  }

  /** The row with columns `start` to `end`, both included, erased. */
  function Erased(row: Row, start: int, end: int, bg: Color): (r: Row)
    ensures WellFormedRow(row, |row|) ==> WellFormedRow(r, |row|)
  {
    var r := seq(|row|, x requires 0 <= x < |row| => if start <= x <= end then Blank(bg) else row[x]);
    assert forall x | 0 <= x < |row| :: r[x] == Blank(bg) || r[x] == row[x];
    r
  }

  function InsertedCells(row: Row, col: nat, count: nat, bg: Color): Row {
    if col >= |row| then row
    else
      var n := if count < |row| - col then count else |row| - col;
      row[..col] + BlankRow(n, bg) + row[col..|row| - n]
  }

  function DeletedCells(row: Row, col: nat, count: nat, bg: Color): Row {
    if col >= |row| then row
    else
      var n := if count < |row| - col then count else |row| - col;
      row[..col] + row[col + n..] + BlankRow(n, bg)
  }

  function ResizedRow(row: Row, width: nat, bg: Color): (r: Row)
    ensures WellFormedRow(row, |row|) ==> WellFormedRow(r, width)
  {
    var r := SetRowWrap(row, false);
    if width <= |r| then r[..width] else r + BlankRow(width - |r|, bg)
  }

  // ---------- everything but the cells ----------

  datatype SavedCursor = SavedCursor(col: int, row: int, ren: Renditions, autoWrap: bool, originMode: bool)

  const NO_SAVE := SavedCursor(0, 0, INITIAL, true, false)

  datatype Modes = Modes(
    originMode: bool,
    autoWrap: bool,
    insertMode: bool,
    cursorVisible: bool,
    reverseVideo: bool,
    bracketedPaste: bool,
    applicationKeys: bool)

  const INITIAL_MODES := Modes(false, true, false, true, false, false, false)

  datatype DrawState = DrawState(
    width: int,
    height: int,
    cursorCol: int,
    cursorRow: int,
    combiningCol: int,
    combiningRow: int,
    defaultTabs: bool,
    tabs: seq<bool>,
    top: int,
    bottom: int,
    ren: Renditions,
    save: SavedCursor,
    nextPrintWillWrap: bool,
    modes: Modes)

  function DefaultTabs(width: nat): seq<bool> {
    seq(width, x => x % 8 == 0)
  }

  function InitialState(width: nat, height: nat): DrawState {
    DrawState(width, height, 0, 0, 0, 0, true, DefaultTabs(width), 0, height - 1, INITIAL, NO_SAVE,
              false, INITIAL_MODES)
  }

  function Clamp(n: int, low: int, high: int): int {
    if n < low then low else if n > high then high else n
  }

  function LimitTop(ds: DrawState): int {
    if ds.modes.originMode then ds.top else 0
  }

  function LimitBottom(ds: DrawState): int {
    if ds.modes.originMode then ds.bottom else ds.height - 1
  }

  function NewGrapheme(ds: DrawState): DrawState {
    ds.(combiningCol := ds.cursorCol, combiningRow := ds.cursorRow)
  }

  function Snap(ds: DrawState): (r: DrawState)
    ensures r == ds.(cursorRow := r.cursorRow, cursorCol := r.cursorCol)
    ensures 0 < ds.width && 0 <= ds.top <= ds.bottom < ds.height ==>
      0 <= r.cursorCol < ds.width && 0 <= r.cursorRow < ds.height
  {
    ds.(cursorRow := Clamp(ds.cursorRow, LimitTop(ds), LimitBottom(ds)),
        cursorCol := Clamp(ds.cursorCol, 0, ds.width - 1))
  }

  function MoveRow(ds: DrawState, n: int, relative: bool): (r: DrawState)
    ensures WellFormedState(ds) ==> WellFormedState(r) && r.width == ds.width && r.height == ds.height
  {
    var row := if relative then ds.cursorRow + n else n + LimitTop(ds);
    NewGrapheme(Snap(ds.(cursorRow := row))).(nextPrintWillWrap := false)
  }

  /** An explicit move of the column: it starts a grapheme where it lands and cancels a pending wrap. */
  function MoveCol(ds: DrawState, n: int, relative: bool): (r: DrawState)
    ensures WellFormedState(ds) ==> WellFormedState(r) && r.width == ds.width && r.height == ds.height
  {
    NewGrapheme(Snap(ds.(cursorCol := if relative then ds.cursorCol + n else n))).(nextPrintWillWrap := false)
  }

  /** The move a printed character makes: the grapheme is where it was printed, and leaving the row arms a wrap. */
  function Advance(ds: DrawState, n: int): (r: DrawState)
    ensures WellFormedState(ds) ==> WellFormedState(r) && r.width == ds.width && r.height == ds.height
  {
    var moved := NewGrapheme(ds).(cursorCol := ds.cursorCol + n);
    Snap(moved.(nextPrintWillWrap := moved.cursorCol >= ds.width))
  }

  function SetTab(ds: DrawState): (r: DrawState)
    ensures WellFormedState(ds) ==> WellFormedState(r) && r.width == ds.width && r.height == ds.height
  {
    if 0 <= ds.cursorCol < |ds.tabs| then ds.(tabs := ds.tabs[ds.cursorCol := true]) else ds
  }

  function ClearTab(ds: DrawState, col: int): (r: DrawState)
    ensures WellFormedState(ds) ==> WellFormedState(r) && r.width == ds.width && r.height == ds.height
  {
    if 0 <= col < |ds.tabs| then ds.(tabs := ds.tabs[col := false]) else ds
  }

  /** The `count`th tab stop at or after column `x`, or -1. */
  function TabAfter(ds: DrawState, x: int, count: int): int
    decreases ds.width - x
  {
    if x < 0 || x >= ds.width || x >= |ds.tabs| then -1
    else if !ds.tabs[x] then TabAfter(ds, x + 1, count)
    else if count == 1 then x
    else TabAfter(ds, x + 1, count - 1)
  }

  /** The `count`th tab stop at or before column `x`, column 0 standing for all that are missing. */
  function TabBefore(ds: DrawState, x: int, count: int): int
    decreases x
  {
    if x <= 0 || x >= |ds.tabs| then 0
    else if !ds.tabs[x] then TabBefore(ds, x - 1, count)
    else if count == 1 then x
    else TabBefore(ds, x - 1, count - 1)
  }

  function NextTab(ds: DrawState, count: int): int {
    if count >= 0 then TabAfter(ds, ds.cursorCol + 1, count)
    else TabBefore(ds, ds.cursorCol - 1, -count)
  }

  function SetScrollingRegion(ds: DrawState, top: int, bottom: int): (r: DrawState)
    ensures WellFormedState(ds) && top < ds.height ==>
      WellFormedState(r) && r.width == ds.width && r.height == ds.height
  {
    hide Snap;
    if ds.height < 1 then ds
    else
      var t := if top < 0 then 0 else top;
      var b := if bottom >= ds.height then ds.height - 1 else bottom;
      var region := ds.(top := t, bottom := if b < t then t else b);
      if ds.modes.originMode then NewGrapheme(Snap(region)) else region
  }

  function SaveCursor(ds: DrawState): DrawState {
    ds.(save := SavedCursor(ds.cursorCol, ds.cursorRow, ds.ren, ds.modes.autoWrap, ds.modes.originMode))
  }

  function RestoreCursor(ds: DrawState): (r: DrawState)
    ensures WellFormedState(ds) ==> WellFormedState(r) && r.width == ds.width && r.height == ds.height
  {
    NewGrapheme(Snap(ds.(cursorCol := ds.save.col, cursorRow := ds.save.row, ren := ds.save.ren,
                         modes := ds.modes.(autoWrap := ds.save.autoWrap, originMode := ds.save.originMode))))
  }

  /** Tab stops keep to the columns that remain; new columns take the default ones unless those were cleared. */
  function ResizedTabs(ds: DrawState, width: nat): seq<bool> {
    seq(width, x requires 0 <= x < width =>
      if ds.defaultTabs && x >= ds.width then x % 8 == 0 else x < |ds.tabs| && ds.tabs[x])
  }

  // ---------- the screen ----------

  datatype Screen = Screen(rows: seq<Row>, ds: DrawState)

  predicate WellFormedState(ds: DrawState) {
    && 1 <= ds.width <= MAX_DIMENSION
    && 1 <= ds.height <= MAX_DIMENSION
    && 0 <= ds.cursorCol < ds.width
    && 0 <= ds.cursorRow < ds.height
    && ((ds.combiningCol == -1 && ds.combiningRow == -1)
        || (0 <= ds.combiningCol < ds.width && 0 <= ds.combiningRow < ds.height))
    && |ds.tabs| == ds.width
    && 0 <= ds.top <= ds.bottom < ds.height
  }

  /** An empty cell carries a background colour, and perhaps the mark of a wrapped line, but nothing else. */
  predicate WellFormedCell(c: Cell) {
    c.contents == "" ==> c == Blank(c.ren.bg).(wrap := c.wrap)
  }

  predicate WellFormedRow(row: Row, width: int) {
    |row| == width && forall x | 0 <= x < |row| :: WellFormedCell(row[x])
  }

  predicate WellFormedRows(rows: seq<Row>, width: int, height: int) {
    |rows| == height && forall y | 0 <= y < |rows| :: WellFormedRow(rows[y], width)
  }

  /** What every operation keeps. */
  predicate WellFormed(s: Screen) {
    WellFormedState(s.ds) && WellFormedRows(s.rows, s.ds.width, s.ds.height)
  }

  function Background(s: Screen): Color {
    s.ds.ren.bg
  }

  function NewScreen(width: int, height: int): Screen {
    var w, h := Clamp(width, 1, MAX_DIMENSION), Clamp(height, 1, MAX_DIMENSION);
    Screen(seq(h, _ => BlankRow(w, 0)), InitialState(w, h))
  }

  function NewRow(s: Screen): (row: Row)
    requires WellFormedState(s.ds)
    ensures WellFormedRow(row, s.ds.width)
  {
    BlankRow(s.ds.width, Background(s))
  }

  function WithRow(s: Screen, y: int, row: Row): (r: Screen)
    requires WellFormed(s) && 0 <= y < s.ds.height && WellFormedRow(row, s.ds.width)
    ensures WellFormed(r)
  {
    s.(rows := s.rows[y := row])
  }

  function WithState(s: Screen, ds: DrawState): (r: Screen)
    requires WellFormed(s) && WellFormedState(ds) && ds.width == s.ds.width && ds.height == s.ds.height
    ensures WellFormed(r)
  {
    s.(ds := ds)
  }

  function CursorRow(s: Screen): (row: Row)
    requires WellFormed(s)
    ensures WellFormedRow(row, s.ds.width)
  {
    s.rows[s.ds.cursorRow]
  }

  function ClearLine(s: Screen, start: int, end: int): (r: Screen)
    requires WellFormed(s)
    ensures WellFormed(r)
  {
    WithRow(s, s.ds.cursorRow, Erased(CursorRow(s), start, end, Background(s)))
  }

  /** The screen with rows `from` to `to - 1` erased. */
  function ResetRows(s: Screen, from: int, to: int): (r: Screen)
    requires WellFormed(s)
    ensures WellFormed(r)
  {
    var blank, rows := NewRow(s), s.rows;
    s.(rows := seq(|rows|, y requires 0 <= y < |rows| => if from <= y < to then blank else rows[y]))
  }

  function LinesInserted<R>(rows: seq<R>, top: int, bottom: int, before: int, count: int, blank: R): (r: seq<R>)
    requires 0 <= top <= bottom < |rows|
    ensures |r| == |rows|
  {
    if before < top || before > bottom + 1 then rows
    else
      var n := if count < bottom + 1 - before then count else bottom + 1 - before;
      if n <= 0 then rows
      else rows[..before] + seq(n, _ => blank) + rows[before..bottom + 1 - n] + rows[bottom + 1..]
  }

  function LinesDeleted<R>(rows: seq<R>, top: int, bottom: int, row: int, count: int, blank: R): (r: seq<R>)
    requires 0 <= top <= bottom < |rows|
    ensures |r| == |rows|
  {
    if row < top || row > bottom then rows
    else
      var n := if count < bottom + 1 - row then count else bottom + 1 - row;
      if n <= 0 then rows
      else rows[..row] + rows[row + n..bottom + 1] + seq(n, _ => blank) + rows[bottom + 1..]
  }

  function InsertLine(s: Screen, before: int, count: int): (r: Screen)
    requires WellFormed(s)
    ensures WellFormed(r)
  {
    s.(rows := LinesInserted(s.rows, s.ds.top, s.ds.bottom, before, count, NewRow(s)))
  }

  function DeleteLine(s: Screen, row: int, count: int): (r: Screen)
    requires WellFormed(s)
    ensures WellFormed(r)
  {
    s.(rows := LinesDeleted(s.rows, s.ds.top, s.ds.bottom, row, count, NewRow(s)))
  }

  function Scroll(s: Screen, n: int): (r: Screen)
    requires WellFormed(s)
    ensures WellFormed(r) && r.ds == s.ds
  {
    if n >= 0 then DeleteLine(s, s.ds.top, n) else InsertLine(s, s.ds.top, -n)
  }

  /** Move the cursor by rows, scrolling the region when the move would leave it. */
  function MoveRowsAutoscroll(s: Screen, n: int): (r: Screen)
    requires WellFormed(s)
    ensures WellFormed(r) && r.ds.width == s.ds.width && r.ds.height == s.ds.height
  {
    var ds := s.ds;
    if ds.cursorRow < ds.top || ds.cursorRow > ds.bottom then WithState(s, MoveRow(ds, n, true))
    else
      var beyond := if ds.cursorRow + n > ds.bottom then ds.cursorRow + n - ds.bottom
                    else if ds.cursorRow + n < ds.top then ds.cursorRow + n - ds.top
                    else 0;
      if beyond == 0 then WithState(s, MoveRow(ds, n, true))
      else WithState(Scroll(s, beyond), MoveRow(MoveRow(ds, -beyond, true), n, true))
  }

  function InsertCells(s: Screen, count: nat): (r: Screen)
    requires WellFormed(s)
    ensures WellFormed(r)
  {
    WithRow(s, s.ds.cursorRow, InsertedCells(CursorRow(s), s.ds.cursorCol, count, Background(s)))
  }

  function DeleteCells(s: Screen, count: nat): (r: Screen)
    requires WellFormed(s)
    ensures WellFormed(r)
  {
    WithRow(s, s.ds.cursorRow, DeletedCells(CursorRow(s), s.ds.cursorCol, count, Background(s)))
  }

  function ReturnAndFeed(s: Screen): (r: Screen)
    requires WellFormed(s)
    ensures WellFormed(r)
  {
    MoveRowsAutoscroll(WithState(s, MoveCol(s.ds, 0, false)), 1)
  }

  /** A character is about to be printed past the end of its row: start the next one. */
  function WrapLine(s: Screen): (r: Screen)
    requires WellFormed(s)
    ensures WellFormed(r)
  {
    ReturnAndFeed(WithRow(s, s.ds.cursorRow, SetRowWrap(CursorRow(s), true)))
  }

  /** A two-column character finds one column left: that column is blanked and the line not marked as wrapped. */
  function WrapEarly(s: Screen): (r: Screen)
    requires WellFormed(s)
    ensures WellFormed(r)
  {
    var row := CursorRow(s)[s.ds.cursorCol := Blank(Background(s))];
    ReturnAndFeed(WithRow(s, s.ds.cursorRow, SetRowWrap(row, false)))
  }

  function Placed(s: Screen, ch: char, width: int): (r: Screen)
    requires WellFormed(s) && width >= 0
    ensures WellFormed(r)
  {
    hide Advance;
    var col := s.ds.cursorCol;
    var cell := Cell([ch], s.ds.ren, width == 2, false, false);
    var row := CursorRow(s)[col := cell];
    var covered := if width == 2 && col + 1 < s.ds.width then row[col + 1 := Blank(Background(s))] else row;
    WithState(WithRow(s, s.ds.cursorRow, covered), Advance(s.ds, width))
  }

  /** A combining character joins the cell that holds its base, if a resize has left that on the screen. */
  function Combined(s: Screen, ch: char): (r: Screen)
    requires WellFormed(s)
    ensures WellFormed(r)
  {
    hide Advance;
    var x, y := s.ds.combiningCol, s.ds.combiningRow;
    if x < 0 || y < 0 || x >= s.ds.width || y >= s.ds.height then s
    else
      var cell := s.rows[y][x];
      if cell.contents == "" then
        WithState(WithRow(s, y, s.rows[y][x := Append(cell.(fallback := true), ch)]), Advance(s.ds, 1))
      else
        WithRow(s, y, s.rows[y][x := Append(cell, ch)])
  }

  /** Print a character that occupies `width` columns, 0 for one that combines and below that for none at all. */
  function Print(s: Screen, ch: char, width: int): (r: Screen)
    requires WellFormed(s)
    ensures WellFormed(r)
  {
    if width == 1 || width == 2 then
      var here := if s.ds.modes.autoWrap && s.ds.nextPrintWillWrap then WrapLine(s)
                  else if s.ds.modes.autoWrap && width == 2 && s.ds.cursorCol == s.ds.width - 1 then WrapEarly(s)
                  else s;
      var room := if here.ds.modes.insertMode then InsertCells(here, width) else here;
      Placed(room, ch, width)
    else if width == 0 then Combined(s, ch)
    else s
  }

  /** A resize gives the whole screen back to the scrolling region. */
  function ResizedRegion(ds: DrawState, width: nat, height: nat): (r: DrawState)
    requires WellFormedState(ds)
    requires 1 <= width <= MAX_DIMENSION && 1 <= height <= MAX_DIMENSION
    ensures r.width == width && r.height == height && |r.tabs| == width && 0 <= r.top <= r.bottom < height
    ensures r.combiningCol == ds.combiningCol && r.combiningRow == ds.combiningRow && r.ren == ds.ren
    ensures r.modes == ds.modes
  {
    var tabs := ResizedTabs(ds, width);
    if ds.width != width || ds.height != height then
      ds.(top := 0, bottom := height - 1, tabs := tabs, width := width, height := height)
    else ds.(tabs := tabs)
  }

  function ResizeState(ds: DrawState, width: nat, height: nat): (r: DrawState)
    requires WellFormedState(ds)
    requires 1 <= width <= MAX_DIMENSION && 1 <= height <= MAX_DIMENSION
    ensures WellFormedState(r) && r.width == width && r.height == height && r.ren == ds.ren
    ensures r.modes == ds.modes
  {
    hide ResizedTabs, ResizedRegion, Snap;
    var sized := Snap(ResizedRegion(ds, width, height));
    if sized.combiningCol >= width || sized.combiningRow >= height then sized.(combiningCol := -1, combiningRow := -1)
    else sized
  }

  function ResizedLine(rows: seq<Row>, y: nat, oldWidth: nat, width: nat, bg: Color): (r: Row)
    requires y < |rows| ==> WellFormedRow(rows[y], oldWidth)
    ensures WellFormedRow(r, width)
  {
    if y >= |rows| then BlankRow(width, bg)
    else if width == oldWidth then rows[y]
    else ResizedRow(rows[y], width, bg)
  }

  function ResizedRows(rows: seq<Row>, oldWidth: nat, width: nat, height: nat, bg: Color): (r: seq<Row>)
    requires WellFormedRows(rows, oldWidth, |rows|)
    ensures WellFormedRows(r, width, height)
  {
    seq(height, y requires 0 <= y < height => ResizedLine(rows, y, oldWidth, width, bg))
  }

  function Resize(s: Screen, width: int, height: int): (r: Screen)
    requires WellFormed(s)
    ensures WellFormed(r)
  {
    var w, h := Clamp(width, 1, MAX_DIMENSION), Clamp(height, 1, MAX_DIMENSION);
    Screen(ResizedRows(s.rows, s.ds.width, w, h, Background(s)), ResizeState(s.ds, w, h))
  }

  function Reset(s: Screen): (r: Screen)
    requires WellFormed(s)
    ensures WellFormed(r)
  {
    Screen(seq(s.ds.height, _ => BlankRow(s.ds.width, 0)), InitialState(s.ds.width, s.ds.height))
  }

  function SoftReset(ds: DrawState): (r: DrawState)
    requires WellFormedState(ds)
    ensures WellFormedState(r) && r.width == ds.width && r.height == ds.height
  {
    var plain := ds.(modes := ds.modes.(insertMode := false, originMode := false, cursorVisible := true,
      applicationKeys := false));
    SetScrollingRegion(plain, 0, ds.height - 1).(ren := SetRendition(ds.ren, 0), save := NO_SAVE)
  }
}

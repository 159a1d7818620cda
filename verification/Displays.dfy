/** Turning one screen into another with as few operations as the terminal allows. */
module Displays {
  import opened Options
  import opened Rendition
  import opened Screens
  import opened Actions
  import opened Views
  import opened FrameStates
  import ScreenLaws

  /** A row with what tells copies of it apart: rows with one identity are one row, and so equal. */
  datatype Line = Line(cells: Row, gen: nat, id: nat)

  datatype Snapshot = Snapshot(rows: seq<Line>, ds: DrawState)

  // ---------- what can be drawn ----------

  /** One-column characters without accents, in colours a terminal can be told. */
  predicate DrawableCell(c: Cell) {
    && !c.wide && !c.fallback && |c.contents| <= 1
    && Canonical(c.ren)
    && (c.contents == "" ==> c.ren == Plain(c.ren.bg))
  }

  predicate DrawableRow(row: Row, width: int) {
    |row| == width && forall x | 0 <= x < |row| :: DrawableCell(row[x])
  }

  predicate Drawable(f: Snapshot) {
    && WellFormedState(f.ds) && Canonical(f.ds.ren)
    && |f.rows| == f.ds.height
    && forall y | 0 <= y < |f.rows| :: DrawableRow(f.rows[y].cells, f.ds.width)
  }

  /** A row is written a character a column. */
  predicate WritableLine(line: Line) {
    line.cells != [] && forall j | 0 <= j < |line.cells| :: |line.cells[j].contents| <= 1
  }

  predicate Writable(lines: seq<Line>) {
    forall y | 0 <= y < |lines| :: WritableLine(lines[y])
  }

  predicate Shaped(rows: seq<Line>, width: int, height: int) {
    |rows| == height && forall y | 0 <= y < |rows| :: |rows[y].cells| == width
  }

  predicate SameSize(a: DrawState, b: DrawState) {
    a.width == b.width && a.height == b.height
  }

  /** Rows with one identity are equal. */
  predicate IdentityHolds(a: seq<Line>, b: seq<Line>) {
    forall i, j | 0 <= i < |a| && 0 <= j < |b| && a[i].id == b[j].id :: a[i] == b[j]
  }

  // ---------- one row ----------

  /** Whether a cell has to be drawn, when nothing to its left is waiting to be erased. */
  predicate Changed(initialized: bool, cells: Row, was: Row, x: nat)
    requires x < |cells|
  {
    !(initialized && x < |was| && cells[x] == was[x])
  }

  /** The style of the run of blank cells waiting to be erased just before column `x`, if there is one. */
  function Waiting(initialized: bool, cells: Row, was: Row, from: nat, x: nat): Option<Renditions>
    requires x <= |cells|
    decreases x
  {
    if x <= from then None
    else if cells[x - 1].contents == ""
            && (Waiting(initialized, cells, was, from, x - 1).Some? || Changed(initialized, cells, was, x - 1)) then
      Some(cells[x - 1].ren)
    else None
  }

  predicate CanErase(hasBce: bool, ren: Renditions) {
    hasBce || ren == INITIAL
  }

  /** The last column is drawn: with its own character, or with a space for want of a way to erase it. */
  predicate PutsLast(hasBce: bool, initialized: bool, cells: Row, was: Row, from: nat)
    requires from < |cells|
  {
    || EndsWithCharacter(initialized, cells, was, from)
    || (Waiting(initialized, cells, was, from, |cells|).Some?
        && (RowWrap(cells) || !CanErase(hasBce, cells[|cells| - 1].ren)))
  }

  /** Whether drawing the row puts a character in its last column. */
  predicate ReachesEdge(hasBce: bool, initialized: bool, line: Line, was: Line, from: nat) {
    && !(initialized && line.id == was.id)
    && from < |line.cells|
    && PutsLast(hasBce, initialized, line.cells, was.cells, from)
  }

  /** The last column holds a character that has to be drawn. */
  predicate EndsWithCharacter(initialized: bool, cells: Row, was: Row, from: nat)
    requires from < |cells|
  {
    var last := |cells| - 1;
    cells[last].contents != ""
      && (Waiting(initialized, cells, was, from, last).Some? || Changed(initialized, cells, was, last))
  }

  // ---------- rows kept by scrolling ----------

  predicate SameLine(a: Line, b: Line) {
    a.gen == b.gen && a.cells == b.cells
  }

  /** The first of the old rows, from the `i`th on, that is the line given. */
  function FirstMatch(line: Line, rows: seq<Line>, i: nat): (r: nat)
    requires i <= |rows|
    ensures i <= r <= |rows|
    ensures r < |rows| ==> line.id == rows[r].id || SameLine(line, rows[r])
    decreases |rows| - i
  {
    if i == |rows| || line.id == rows[i].id || SameLine(line, rows[i]) then i else FirstMatch(line, rows, i + 1)
  }

  /** How many rows, from the `k`th on, are the old rows `up` further down. */
  function MatchHeight(goal: seq<Line>, rows: seq<Line>, up: nat, k: nat): (r: nat)
    requires |goal| == |rows| && up + k <= |rows|
    ensures k <= r && up + r <= |rows|
    ensures forall i | k <= i < r :: goal[i].cells == rows[up + i].cells
    decreases |rows| - k
  {
    if up + k < |rows| && SameLine(goal[k], rows[up + k]) then MatchHeight(goal, rows, up, k + 1) else k
  }

  /** The screen moved up by `up` lines, of which `height` are still there; no movement is a height of 0. */
  datatype Scrolling = Scrolling(up: nat, height: nat)

  function FindScroll(goal: seq<Line>, rows: seq<Line>): (s: Scrolling)
    requires |goal| == |rows| && |rows| > 0
    ensures s.up + s.height <= |rows| && s.height < |rows| && (s.height == 0 <==> s.up == 0)
  {
    var up := FirstMatch(goal[0], rows, 0);
    if up == 0 || up == |rows| then Scrolling(0, 0) else Scrolling(up, MatchHeight(goal, rows, up, 1))
  }

  /** The old rows after that movement. */
  function Mirrored(rows: seq<Line>, s: Scrolling, blank: Line): (r: seq<Line>)
    requires s.up + s.height <= |rows|
    ensures |r| == |rows|
  {
    seq(|rows|, i requires 0 <= i < |rows| =>
      if i >= s.up + s.height then rows[i] else if i < s.height then rows[i + s.up] else blank)
  }

  // ---------- a whole frame ----------

  function Widened(line: Line, width: int, bg: Color): Line {
    if width <= |line.cells| then line else line.(cells := line.cells + BlankRow(width - |line.cells|, bg))
  }

  /** The old rows made to fill the new size; a new size redraws everything, so what they hold no longer matters. */
  function Prepared(last: Snapshot, f: Snapshot, blank: Line): (r: seq<Line>)
    requires f.ds.height >= 1
    ensures |r| >= f.ds.height
    ensures SameSize(last.ds, f.ds) && |last.rows| == last.ds.height ==> r == last.rows
  {
    var rows := if last.ds.width < f.ds.width then
                  seq(|last.rows|, i requires 0 <= i < |last.rows| => Widened(last.rows[i], f.ds.width, f.ds.ren.bg))
                else last.rows;
    if |rows| < f.ds.height then rows + seq(f.ds.height - |rows|, _ => blank) else rows
  }

  /** Where the drawing of rows begins, and what the rows from there on held before it. */
  datatype Remaining = Remaining(from: nat, rows: seq<Line>)

  function Remains(known: bool, last: Snapshot, f: Snapshot, blank: Line): (r: Remaining)
    requires |f.rows| == f.ds.height >= 1 && |last.rows| == last.ds.height && (known ==> SameSize(last.ds, f.ds))
    ensures r.from < f.ds.height <= |r.rows|
  {
    var rows := Prepared(last, f, blank);
    if !known then Remaining(0, rows)
    else
      var s := FindScroll(f.rows, rows);
      if s.height == 0 then Remaining(0, rows) else Remaining(s.height, Mirrored(rows, s, blank))
  }

  /** The column row `y` is drawn from: 1 when the row above wraps into it, and so has drawn its first cell. */
  function StartColumn(hasBce: bool, initialized: bool, goal: seq<Line>, rows: seq<Line>, from: nat, y: nat): nat
    requires y < |goal| <= |rows|
    decreases y
  {
    if y > from && RowWrap(goal[y - 1].cells)
       && ReachesEdge(hasBce, initialized, goal[y - 1], rows[y - 1],
         StartColumn(hasBce, initialized, goal, rows, from, y - 1))
    then 1 else 0
  }

  /** Whether the last thing drawn is the bottom right corner. */
  predicate DrawsCorner(hasBce: bool, initialized: bool, last: Snapshot, f: Snapshot, blank: Line)
    requires f.ds.height >= 1 && |f.rows| == f.ds.height && |last.rows| == last.ds.height
  {
    var known := initialized && SameSize(last.ds, f.ds);
    var left := Remains(known, last, f, blank);
    var y := f.ds.height - 1;
    ReachesEdge(hasBce, known, f.rows[y], left.rows[y], StartColumn(hasBce, known, f.rows, left.rows, left.from, y))
  }

  /**
   * The frame leaves the cursor one column left of where it belongs: having drawn the bottom right corner it
   * backs up from the column past the end, but the terminal's cursor never left the last column.
   */
  predicate Overshoots(hasBce: bool, initialized: bool, last: Snapshot, f: Snapshot, blank: Line)
    requires f.ds.height >= 1 && |f.rows| == f.ds.height && |last.rows| == last.ds.height
  {
    && f.ds.cursorRow == f.ds.height - 1
    && 0 < f.ds.cursorCol && f.ds.cursorCol > f.ds.width - 5
    && DrawsCorner(hasBce, initialized, last, f, blank)
  }

  predicate Sized(v: View, ds: DrawState) {
    v.width == ds.width && v.height == ds.height
  }

  /** What is seen beside the rows is as the state has it, but for the cursor standing `off` columns left of it. */
  ghost predicate Matches(v: View, ds: DrawState, off: int) {
    && WholeRegion(v) && Sized(v, ds)
    && v.y == ds.cursorRow && v.x == ds.cursorCol - off && !v.pending
    && v.ren == ds.ren && v.visible == ds.modes.cursorVisible
    && v.modes.reverse == ds.modes.reverseVideo && v.modes.paste == ds.modes.bracketedPaste
  }

  ghost predicate LooksLike(rows: seq<Row>, lines: seq<Line>, from: int, to: int) {
    forall y | from <= y < to && 0 <= y < |rows| && y < |lines| :: RowsAlike(rows[y], lines[y].cells)
  }

  /** The terminal looks like the snapshot, but for the cursor standing `off` columns left of it. */
  ghost predicate ShowsOff(t: Screen, f: Snapshot, off: int) {
    Ready(t) && Matches(Look(t), f.ds, off) && |f.rows| == |t.rows| && LooksLike(t.rows, f.rows, 0, |f.rows|)
  }

  ghost predicate Shows(t: Screen, f: Snapshot) {
    ShowsOff(t, f, 0)
  }

  class Display {
    /** The terminal can erase a number of characters. */
    const hasEch: bool

    /** Erasing fills with the background colour. */
    const hasBce: bool

    constructor (ech: bool, bce: bool)
      ensures hasEch == ech && hasBce == bce
    {
      hasEch, hasBce := ech, bce;
    }

    // ---------- what a frame is written as ----------

    function AfterWrapDraft(d: Draft, cell: Cell): Draft
      requires |cell.contents| <= 1
    {
      var e := d.Style(cell.ren, false).Emit([Print(Character(cell), 1)]);
      e.At(e.y, e.x + 1)
    }

    function CellDraft(d: Draft, cell: Cell, y: int, x: int, forget: bool): Draft
      requires |cell.contents| <= 1
    {
      var e := if forget then d.At(-1, -1) else d;
      e.Move(y, x).Style(cell.ren, false).Emit([Print(Character(cell), 1)]).At(y, x + 1)
    }

    /** A run of blank cells that ends before column `x`. */
    function GapDraft(d: Draft, blank: Renditions, y: int, x: int, count: nat): Draft {
      var e := d.Move(y, x - count).Style(blank, false);
      if CanErase(hasBce, blank) && hasEch && count > 4 then e.Emit([Run(EraseChars, [count])])
      else e.Emit(Repeated(Print(' ', 1), count)).At(y, x)
    }

    /** A run of blank cells that reaches the end of the row. */
    function EndDraft(d: Draft, blank: Renditions, y: int, width: int, count: nat, wraps: bool): Draft {
      var e := d.Move(y, width - count).Style(blank, false);
      if CanErase(hasBce, blank) && !wraps then e.Emit([Run(EraseLine, [])])
      else e.Emit(Repeated(Print(' ', 1), count)).At(y, width)
    }

    /** The columns of a row from `x` on, with `clear` blank cells styled `blank` before them still to be erased. */
    function CellsDraft(d: Draft, initialized: bool, cells: Row, was: Row, y: int, x: nat, clear: nat,
                        blank: Renditions): Draft
      requires x <= |cells| && forall j | 0 <= j < |cells| :: |cells[j].contents| <= 1
      decreases |cells| - x
    {
      if x == |cells| then if clear != 0 then EndDraft(d, blank, y, x, clear, RowWrap(cells)) else d
      else
        var cell := cells[x];
        if clear == 0 && !Changed(initialized, cells, was, x) then
          CellsDraft(d, initialized, cells, was, y, x + 1, 0, blank)
        else if cell.contents == "" && (clear == 0 || cell.ren == blank) then
          CellsDraft(d, initialized, cells, was, y, x + 1, clear + 1, cell.ren)
        else
          var e := if clear == 0 then d else GapDraft(d, blank, y, x, clear);
          if cell.contents == "" then CellsDraft(e, initialized, cells, was, y, x + 1, 1, cell.ren)
          else
            CellsDraft(CellDraft(e, cell, y, x, RowWrap(cells) && x + 1 == |cells|), initialized, cells, was, y, x + 1,
                       0, blank)
    }

    function RowDraft(d: Draft, initialized: bool, line: Line, was: Line, y: int, height: int, wrap: bool): Draft
      requires WritableLine(line)
    {
      var cells, from := line.cells, if wrap then 1 else 0;
      var e := if wrap then AfterWrapDraft(d, cells[0]) else d;
      if initialized && line.id == was.id then e
      else
        var g := CellsDraft(e, initialized, cells, was.cells, y, from, 0, INITIAL);
        if y == height - 1 || !ReachesEdge(hasBce, initialized, line, was, from) then g
        else if RowWrap(cells) then g.At(g.y + 1, 0)
        else g.Emit([Run(CarriageReturn, []), Run(LineFeed, [])]).At(g.y + 1, 0)
    }

    function RowsDraft(d: Draft, known: bool, goal: seq<Line>, rows: seq<Line>, y: nat, wrap: bool): Draft
      requires Writable(goal) && y <= |goal| <= |rows|
      decreases |goal| - y
    {
      if y == |goal| then d
      else
        RowsDraft(RowDraft(d, known, goal[y], rows[y], y, |goal|, wrap), known, goal, rows, y + 1,
                  WrapsNext(known, goal, rows, y, wrap))
    }

    /** Whether drawing row `y` leaves a wrap into the next one pending. */
    predicate WrapsNext(known: bool, goal: seq<Line>, rows: seq<Line>, y: nat, wrap: bool)
      requires y < |goal| <= |rows|
    {
      y < |goal| - 1 && RowWrap(goal[y].cells) && ReachesEdge(hasBce, known, goal[y], rows[y], if wrap then 1 else 0)
    }

    function BeginDraft(initialized: bool, last: Snapshot, f: Snapshot): Draft {
      var d := Draft([], 0, 0, INITIAL, last.ds.modes.cursorVisible);
      var e := if !initialized || f.ds.modes.reverseVideo != last.ds.modes.reverseVideo
        then d.Emit([Switch(Reverse, f.ds.modes.reverseVideo)]) else d;
      if initialized && SameSize(last.ds, f.ds) then
        Draft(e.ops, last.ds.cursorCol, last.ds.cursorRow, last.ds.ren, e.visible)
      else Draft(e.ops + CLEARING + [Switch(Visible, false)], 0, 0, INITIAL, false)
    }

    function RegionDraft(d: Draft, bottom: int, n: nat): Draft {
      d.Emit([Run(Function.SetMargins, [1, bottom + 1])]).At(-1, -1).Move(bottom, 0)
      .Emit(Repeated(Run(LineFeed, []), n)).Emit([Run(Function.SetMargins, [])]).At(-1, -1)
    }

    function ScrollDraft(d: Draft, s: Scrolling, height: int): Draft {
      var e := d.Style(INITIAL, true);
      if s.height + s.up == height && e.y + 1 == height then
        e.Emit([Run(CarriageReturn, [])]).Emit(Repeated(Run(LineFeed, []), s.up)).At(e.y, 0)
      else RegionDraft(e, s.up + s.height - 1, s.up)
    }

    function PlaceDraft(d: Draft, known: bool, f: Snapshot): Draft {
      if !known || f.ds.cursorRow != d.y || f.ds.cursorCol != d.x then
        d.Emit(MoveOps(d.x, d.y, f.ds.cursorRow, f.ds.cursorCol)).At(f.ds.cursorRow, f.ds.cursorCol)
      else d
    }

    function FinishDraft(d: Draft, known: bool, last: Snapshot, f: Snapshot): Draft {
      var e := PlaceDraft(d, known, f);
      var g := if !known || f.ds.modes.cursorVisible != e.visible
        then e.Emit([Switch(Visible, f.ds.modes.cursorVisible)]) else e;
      var h := g.Style(f.ds.ren, !known);
      if !known || f.ds.modes.bracketedPaste != last.ds.modes.bracketedPaste
      then h.Emit([Switch(Paste, f.ds.modes.bracketedPaste)]) else h
    }

    function SkipDraft(d: Draft, known: bool, last: Snapshot, f: Snapshot, blank: Line): Draft
      requires |f.rows| == |last.rows| == f.ds.height >= 1 || !known
    {
      if !known then d
      else
        var s := FindScroll(f.rows, Prepared(last, f, blank));
        if s.height == 0 then d else ScrollDraft(d, s, f.ds.height)
    }

    /** All the operations of a frame, as a function of the two screens. */
    function FrameOps(initialized: bool, last: Snapshot, f: Snapshot, blank: Line): seq<Action>
      requires |f.rows| == f.ds.height >= 1 && |last.rows| == last.ds.height && Writable(f.rows)
    {
      var known := initialized && SameSize(last.ds, f.ds);
      var left := Remains(known, last, f, blank);
      var d := SkipDraft(BeginDraft(initialized, last, f), known, last, f, blank);
      FinishDraft(RowsDraft(d, known, f.rows, left.rows, left.from, false), known, last, f).ops
    }

    lemma {:induction false} RowsUnchanged(d: Draft, goal: seq<Line>, rows: seq<Line>, y: nat)
      requires Writable(goal) && y <= |goal| <= |rows| && forall i | 0 <= i < |goal| :: goal[i].id == rows[i].id
      ensures RowsDraft(d, true, goal, rows, y, false) == d
      decreases |goal| - y
    {
      hide CellsDraft;
      if y < |goal| {
        RowsUnchanged(d, goal, rows, y + 1);
      }
    }

    lemma CellsDraftStep(d: Draft, initialized: bool, cells: Row, was: Row, y: int, x: nat, clear: nat,
                         blank: Renditions)
      requires x < |cells| && forall j | 0 <= j < |cells| :: |cells[j].contents| <= 1
      ensures var cell, changed := cells[x], clear > 0 || Changed(initialized, cells, was, x);
        var e := if clear == 0 then d else GapDraft(d, blank, y, x, clear);
        CellsDraft(d, initialized, cells, was, y, x, clear, blank) ==
          if !changed then CellsDraft(d, initialized, cells, was, y, x + 1, 0, blank)
          else if cell.contents == "" && (clear == 0 || cell.ren == blank) then
            CellsDraft(d, initialized, cells, was, y, x + 1, clear + 1, cell.ren)
          else if cell.contents == "" then CellsDraft(e, initialized, cells, was, y, x + 1, 1, cell.ren)
          else
            CellsDraft(CellDraft(e, cell, y, x, RowWrap(cells) && x + 1 == |cells|), initialized, cells, was, y, x + 1,
                       0, blank)
    {
      hide Changed, GapDraft, CellDraft, EndDraft;
    }

    lemma CellsDraftEnd(d: Draft, initialized: bool, cells: Row, was: Row, y: int, clear: nat, blank: Renditions)
      requires forall j | 0 <= j < |cells| :: |cells[j].contents| <= 1
      ensures CellsDraft(d, initialized, cells, was, y, |cells|, clear, blank)
        == if clear != 0 then EndDraft(d, blank, y, |cells|, clear, RowWrap(cells)) else d
    {
      hide EndDraft;
    }

    /** The first column of a row, drawn by letting the terminal wrap into it. */
    method DrawAfterWrap(frame: FrameState, cell: Cell, y: int)
      requires frame.AboutToWrap(y) && y < frame.Seen().height && DrawableCell(cell)
      modifies frame`ops, frame`term, frame`ren, frame`cursorX
      ensures frame.Tracking() && frame.cursorX == 1 && frame.cursorY == y
      ensures DrewAfterWrap(old(frame.Seen()).(ren := cell.ren), frame.Seen(), cell, y)
      ensures frame.Drafted() == AfterWrapDraft(old(frame.Drafted()), cell)
    {
      hide FrameState.Valid, FrameState.Seen, InShape, Written, Wrapped, Canonical, DrewAfterWrap;
      frame.UpdateRendition(cell.ren, false);
      ghost var v := frame.Seen();
      assert v == old(frame.Seen()).(ren := cell.ren);
      AfterWrap(v, cell, y);
      frame.WriteWrapped(Character(cell));
      frame.cursorX := frame.cursorX + 1;
    }

    /** Draw one cell where it belongs. */
    method DrawCell(frame: FrameState, cell: Cell, y: int, x: int, forget: bool)
      requires frame.Tracking() && DrawableCell(cell)
      requires 0 <= y < frame.Seen().height && 0 <= x < frame.Seen().width
      requires frame.cursorX == frame.Seen().width ==> frame.cursorY != y || x == 0 || forget
      modifies frame`ops, frame`term, frame`ren, frame`cursorX, frame`cursorY, frame`visible
      ensures frame.Tracking() && frame.cursorX == x + 1 && frame.cursorY == y
      ensures Drew(old(frame.Seen()), frame.Seen(), cell, y, x)
      ensures frame.Drafted() == CellDraft(old(frame.Drafted()), cell, y, x, forget)
    {
      hide FrameState.Valid, FrameState.Seen, InShape, Written, Canonical, Drew;
      if forget {
        frame.cursorX, frame.cursorY := -1, -1;
      }
      ghost var v := frame.Seen();
      frame.Approach(y, x, cell.ren);
      Drawing(v, frame.visible, cell, y, x);
      frame.Write(Character(cell));
      frame.cursorX := frame.cursorX + 1;
    }

    /** Erase a run of blank cells that ends before column `x`, by erasing or by writing spaces. */
    method FlushBlanks(frame: FrameState, blank: Renditions, y: int, x: int, count: nat)
      requires frame.Tracking() && Canonical(blank) && blank == Plain(blank.bg) && count > 0
      requires 0 <= y < frame.Seen().height && 0 <= x - count && x < frame.Seen().width
      requires frame.cursorX < frame.Seen().width
      modifies frame`ops, frame`term, frame`ren, frame`cursorX, frame`cursorY, frame`visible
      ensures frame.Tracking() && frame.cursorX < frame.Seen().width
      ensures Blanked(old(frame.Seen()), frame.Seen(), blank, y, x - count, x)
      ensures frame.Drafted() == GapDraft(old(frame.Drafted()), blank, y, x, count)
    {
      hide FrameState.Valid, FrameState.Seen, InShape, Canonical, Plain, Erased, Alike, SameButRow, SameOutside,
        Blanked, Draft.Move, Draft.Style, Repeated;
      ghost var v := frame.Seen();
      frame.Approach(y, x - count, blank);
      ghost var before := frame.Seen();
      if CanErase(hasBce, frame.ren) && hasEch && count > 4 {
        frame.EraseNext(count);
        BlankByErasing(v, before, frame.Seen(), blank, y, x - count, x);
      } else {
        frame.WriteSpaces(count);
        frame.cursorX := x;
        BlankBySpaces(v, before, frame.Seen(), blank, y, x - count, x);
      }
    }

    /** Erase a run of blank cells that reaches the end of the row. */
    method FlushToEnd(frame: FrameState, blank: Renditions, y: int, width: int, count: nat, wraps: bool)
      returns (wroteLast: bool)
      requires frame.Tracking() && Canonical(blank) && blank == Plain(blank.bg)
      requires 0 <= y < frame.Seen().height && 0 < count <= width == frame.Seen().width
      requires frame.cursorX == width ==> frame.cursorY != y || count == width
      modifies frame`ops, frame`term, frame`ren, frame`cursorX, frame`cursorY, frame`visible
      ensures wroteLast == (wraps || !CanErase(hasBce, blank))
      ensures frame.Tracking() && frame.cursorY == y
      ensures if wroteLast then frame.cursorX == width else frame.cursorX < width
      ensures Blanked(old(frame.Seen()), frame.Seen(), blank, y, width - count, width)
      ensures frame.Drafted() == EndDraft(old(frame.Drafted()), blank, y, width, count, wraps)
    {
      hide FrameState.Valid, FrameState.Seen, InShape, Canonical, Plain, Erased, Alike, SameButRow, SameOutside,
        Blanked, Draft.Move, Draft.Style, Repeated;
      ghost var v := frame.Seen();
      frame.Approach(y, width - count, blank);
      ghost var before := frame.Seen();
      if CanErase(hasBce, frame.ren) && !wraps {
        frame.EraseRest();
        wroteLast := false;
        BlankByErasing(v, before, frame.Seen(), blank, y, width - count, width);
      } else {
        frame.WriteSpaces(count);
        frame.cursorX := width;
        wroteLast := true;
        BlankBySpaces(v, before, frame.Seen(), blank, y, width - count, width);
      }
    }

    /**
     * Draw the columns of a row from `from` on, skipping the cells that have not changed and gathering runs of
     * blank ones. Returns whether a character was put in the last column.
     */
    method DrawCells(frame: FrameState, initialized: bool, cells: Row, was: Row, y: int, from: nat, ghost v: View)
      returns (wrote: bool)
      requires frame.Tracking() && frame.Seen().width == |cells| && 0 <= y < frame.Seen().height && from <= |cells|
      requires DrawableRow(cells, |cells|) && Partly(v, frame.Seen(), initialized, cells, was, y, from, 0)
      requires |cells| >= 2 ==> frame.cursorX < |cells|
      modifies frame`ops, frame`term, frame`ren, frame`cursorX, frame`cursorY, frame`visible
      ensures frame.Tracking() && Painted(v, frame.Seen(), cells, y)
      ensures frame.Seen().width == old(frame.Seen()).width && frame.Seen().height == old(frame.Seen()).height
      ensures wrote == (from < |cells| && PutsLast(hasBce, initialized, cells, was, from))
      ensures wrote ==> frame.cursorX == |cells| && frame.cursorY == y
      ensures |cells| >= 2 && !wrote ==> frame.cursorX < |cells|
      ensures frame.Drafted() == CellsDraft(old(frame.Drafted()), initialized, cells, was, y, from, 0, INITIAL)
    {
      hide FrameState.Valid, FrameState.Seen, Canonical, RowsAlike, Alike, WellFormedState, Drew, DrewAfterWrap,
        Blanked, Waiting, Changed;
      hide OnlyRowTouched, Partly, Painted, Plain, EndsWithCharacter, CellsDraft, CellDraft, GapDraft, EndDraft,
        RowWrap, InShape, WholeRegion, Ready;
      var width, wraps := |cells|, RowWrap(cells);
      var x := from;
      wrote := false;
      var clear := 0;
      var blank := INITIAL;
      ghost var whole := CellsDraft(frame.Drafted(), initialized, cells, was, y, from, 0, INITIAL);
      assert Waiting(initialized, cells, was, from, x) == None by { WaitingNone(initialized, cells, was, from); }
      while x < width
        invariant from <= x <= width && 0 <= clear <= x - from
        invariant frame.Tracking() && frame.Seen().width == width && frame.Seen().height == old(frame.Seen()).height
        invariant Waiting(initialized, cells, was, from, x) == if clear == 0 then None else Some(blank)
        invariant clear > 0 ==> blank == Plain(blank.bg) && Canonical(blank)
        invariant forall j | x - clear <= j < x :: cells[j].contents == "" && cells[j].ren == blank
        invariant Partly(v, frame.Seen(), initialized, cells, was, y, x, clear)
        invariant wrote ==> frame.cursorX == width && frame.cursorY == y
        invariant wrote == (x == width && from < width && EndsWithCharacter(initialized, cells, was, from))
        invariant width >= 2 && !wrote ==> frame.cursorX < width
        invariant CellsDraft(frame.Drafted(), initialized, cells, was, y, x, clear, blank) == whole
      {
        var cell := cells[x];
        assert DrawableCell(cell);
        CellsDraftStep(frame.Drafted(), initialized, cells, was, y, x, clear, blank);
        WaitingStep(initialized, cells, was, from, x);
        if x + 1 == width { EdgeMeans(initialized, cells, was, from); }
        if initialized && clear == 0 && x < |was| && cell == was[x] {
          assert !Changed(initialized, cells, was, x) by { ChangedMeans(initialized, cells, was, x); }
          PartlySkip(v, frame.Seen(), cells, was, y, x);
          x := x + 1;
          continue;
        }
        assert clear > 0 || Changed(initialized, cells, was, x) by { ChangedMeans(initialized, cells, was, x); }
        if cell.contents == "" {
          if clear == 0 { blank := cell.ren; }
          if cell.ren == blank {
            PartlyWait(v, frame.Seen(), initialized, cells, was, y, x, clear);
            clear := clear + 1;
            x := x + 1;
            continue;
          }
        }
        if clear != 0 {
          ghost var before := frame.Seen();
          FlushBlanks(frame, blank, y, x, clear);
          PartlyFlush(v, before, frame.Seen(), initialized, cells, was, blank, y, x, clear);
          clear := 0;
          if cell.contents == "" {
            blank := cell.ren;
            PartlyWait(v, frame.Seen(), initialized, cells, was, y, x, 0);
            clear := 1;
            x := x + 1;
            continue;
          }
        }
        ghost var before := frame.Seen();
        DrawCell(frame, cell, y, x, wraps && x + 1 >= width);
        PartlyDraw(v, before, frame.Seen(), initialized, cells, was, y, x);
        x := x + 1;
        if x >= width { wrote := true; }
      }

      if from < width { EdgeMeans(initialized, cells, was, from); }
      CellsDraftEnd(frame.Drafted(), initialized, cells, was, y, clear, blank);
      if clear != 0 {
        ghost var before := frame.Seen();
        wrote := FlushToEnd(frame, blank, y, width, clear, wraps);
        PartlyFlush(v, before, frame.Seen(), initialized, cells, was, blank, y, width, clear);
      }
      PartlyDone(v, frame.Seen(), initialized, cells, was, y);
    }

    /** Put one row on the terminal; the result says that a wrap into the row below is pending. */
    method PutRow(frame: FrameState, initialized: bool, f: Snapshot, y: int, was: Line, wrap: bool)
      returns (wrapNext: bool)
      requires Drawable(f) && 0 <= y < f.ds.height
      requires frame.Valid() && frame.Seen().width == f.ds.width && frame.Seen().height == f.ds.height
      requires initialized ==>
        RowsAlike(frame.Seen().rows[y], was.cells) && (f.rows[y].id == was.id ==> f.rows[y] == was)
      requires if wrap then frame.AboutToWrap(y) else frame.Tracking()
      requires f.ds.width >= 2 ==> frame.cursorX < f.ds.width
      modifies frame`ops, frame`term, frame`ren, frame`cursorX, frame`cursorY, frame`visible
      ensures var edge := ReachesEdge(hasBce, initialized, f.rows[y], was, if wrap then 1 else 0);
        && wrapNext == (y < f.ds.height - 1 && RowWrap(f.rows[y].cells) && edge)
        && (f.ds.width >= 2 ==>
              if y == f.ds.height - 1 && edge then frame.cursorX == f.ds.width && frame.cursorY == y
              else frame.cursorX < f.ds.width)
      ensures if wrapNext then frame.AboutToWrap(y + 1) else frame.Tracking()
      ensures Painted(old(frame.Seen()), frame.Seen(), f.rows[y].cells, y)
      ensures WritableLine(f.rows[y])
      ensures frame.Drafted() == RowDraft(old(frame.Drafted()), initialized, f.rows[y], was, y, f.ds.height, wrap)
    {
      hide FrameState.Valid, FrameState.Seen, Canonical, RowsAlike, Alike, WellFormedState, Drew, DrewAfterWrap,
        Blanked, Waiting, Changed;
      hide OnlyRowTouched, Partly, Painted, Plain, EndsWithCharacter, CellsDraft, AfterWrapDraft, RowWrap, PutsLast;
      ghost var v := frame.Seen();
      var line, cells, width := f.rows[y], f.rows[y].cells, f.ds.width;
      assert DrawableRow(cells, width);
      var x := 0;
      if wrap {
        DrawAfterWrap(frame, cells[0], y);
        x := 1;
        PaintedFirst(v, frame.Seen(), cells, was.cells, y);
      } else {
        PartlyStart(v, initialized, cells, was.cells, y);
      }
      assert Partly(v, frame.Seen(), initialized, cells, was.cells, y, x, 0);
      if initialized && line.id == was.id {
        PaintedSame(v, frame.Seen(), cells, y, x);
        return false;
      }

      var wrote := DrawCells(frame, initialized, cells, was.cells, y, x, v);
      if !(wrote && y < f.ds.height - 1) { return false; }
      if RowWrap(cells) {
        frame.cursorX := 0;
        frame.cursorY := frame.cursorY + 1;
        return true;
      }
      ghost var end := frame.Seen();
      NextLine(frame);
      PaintedMoved(v, end, frame.Seen(), cells, y);
      return false;
    }

    /** To the start of the next row. */
    method NextLine(frame: FrameState)
      requires frame.Tracking() && !frame.CursorUnknown() && frame.Seen().y + 1 < frame.Seen().height
      modifies frame`ops, frame`term, frame`cursorX, frame`cursorY
      ensures frame.Tracking() && frame.Seen() == MovedTo(old(frame.Seen()), old(frame.Seen()).y + 1, 0)
      ensures var d := old(frame.Drafted());
        frame.Drafted() == d.Emit([Run(CarriageReturn, []), Run(LineFeed, [])]).At(d.y + 1, 0)
    {
      hide FrameState.Valid, FrameState.Seen;
      frame.Return();
      frame.FeedDown(1);
      frame.cursorX := 0;
      frame.cursorY := frame.cursorY + 1;
    }

    // ---------- scrolling ----------

    method DetectScroll(goal: seq<Line>, rows: seq<Line>) returns (s: Scrolling)
      requires |goal| == |rows| && |rows| > 0
      ensures s == FindScroll(goal, rows)
    {
      var row := 0;
      while row < |rows|
        invariant 0 <= row <= |rows|
        invariant FirstMatch(goal[0], rows, row) == FirstMatch(goal[0], rows, 0)
      {
        if !(goal[0].id == rows[row].id || SameLine(goal[0], rows[row])) {
          row := row + 1;
          continue;
        }
        if row == 0 { return Scrolling(0, 0); }
        var height := 1;
        while row + height < |rows|
          invariant 1 <= height && row + height <= |rows|
          invariant MatchHeight(goal, rows, row, height) == MatchHeight(goal, rows, row, 1)
        {
          if !SameLine(goal[height], rows[row + height]) { break; }
          height := height + 1;
        }
        return Scrolling(row, height);
      }
      return Scrolling(0, 0);
    }

    /** Mirror the scroll in the local copy of the old rows. */
    method MirrorRows(rows: seq<Line>, s: Scrolling, blank: Line) returns (r: seq<Line>)
      requires s.up + s.height <= |rows|
      ensures r == Mirrored(rows, s, blank)
    {
      r := rows;
      var i := 0;
      while i < s.up + s.height
        invariant 0 <= i <= s.up + s.height && |r| == |rows|
        invariant forall j | 0 <= j < i :: r[j] == Mirrored(rows, s, blank)[j]
        invariant forall j | i <= j < |rows| :: r[j] == rows[j]
      {
        r := r[i := if i + s.up < s.up + s.height then r[i + s.up] else blank];
        i := i + 1;
      }
    }

    /** Scroll the terminal: with line feeds alone from the bottom of the screen, else in a region of its own. */
    method ScrollUp(frame: FrameState, s: Scrolling, height: int)
      requires frame.Tracking() && frame.Seen().height == height && s.up > 0 && s.height > 0
        && s.up + s.height <= height
      modifies frame`ops, frame`term, frame`ren, frame`cursorX, frame`cursorY, frame`visible
      ensures frame.Tracking() && frame.cursorX <= 0
      ensures frame.Drafted() == ScrollDraft(old(frame.Drafted()), s, height)
      ensures var v, v' := old(frame.Seen()), frame.Seen();
        v' == v.(rows := LinesDeleted(v.rows, 0, s.up + s.height - 1, 0, s.up, BlankRow(v.width, 0)),
                 y := v'.y, x := v'.x, pending := false, ren := INITIAL, visible := v'.visible)
    {
      hide FrameState.Valid, FrameState.Seen, Canonical, LinesDeleted, BlankRow, RegionDraft, Repeated, Draft.Style;
      var bottom := s.up + s.height - 1;
      CanonicalInitial();
      frame.UpdateRendition(INITIAL, true);
      if s.height + s.up == height && frame.cursorY + 1 == height {
        FeedUp(frame, s.up);
      } else {
        ScrollRegion(frame, bottom, s.up);
      }
    }

    method FeedUp(frame: FrameState, n: nat)
      requires frame.Tracking() && !frame.CursorUnknown() && frame.Seen().y + 1 == frame.Seen().height > 1
      modifies frame`ops, frame`term, frame`cursorX
      ensures frame.Tracking() && frame.cursorX == 0
      ensures var v, v' := old(frame.Seen()), frame.Seen();
        v' == v.(rows := LinesDeleted(v.rows, 0, v.height - 1, 0, n, BlankRow(v.width, v.ren.bg)), x := 0,
                 pending := false)
      ensures var d := old(frame.Drafted());
        frame.Drafted() == d.Emit([Run(CarriageReturn, [])]).Emit(Repeated(Run(LineFeed, []), n)).At(d.y, 0)
    {
      hide FrameState.Valid, FrameState.Seen, LinesDeleted, BlankRow;
      frame.Return();
      frame.FeedAtBottom(n);
      frame.cursorX := 0;
    }

    /** Make a region of the rows down to `bottom`, and go to its last one. */
    method EnterRegion(frame: FrameState, bottom: int)
      requires frame.Tracking() && 0 < bottom < frame.Seen().height
      modifies frame`ops, frame`term, frame`cursorX, frame`cursorY, frame`visible
      ensures frame.Valid() && frame.StyleKnown()
      ensures var v, v' := old(frame.Seen()), frame.Seen();
        v' == MovedTo(v, bottom, 0).(top := 0, bottom := bottom, visible := v'.visible)
      ensures frame.Drafted()
        == old(frame.Drafted()).Emit([Run(Function.SetMargins, [1, bottom + 1])]).At(-1, -1).Move(bottom, 0)
    {
      hide FrameState.Valid, FrameState.Seen, Draft.Move;
      frame.SetMargins(bottom);
      frame.cursorX, frame.cursorY := -1, -1;
      frame.AppendSilentMove(bottom, 0);
    }

    method ScrollRegion(frame: FrameState, bottom: int, n: nat)
      requires frame.Tracking() && 0 < bottom < frame.Seen().height
      modifies frame`ops, frame`term, frame`cursorX, frame`cursorY, frame`visible
      ensures frame.Tracking() && frame.CursorUnknown()
      ensures frame.Drafted() == RegionDraft(old(frame.Drafted()), bottom, n)
      ensures var v, v' := old(frame.Seen()), frame.Seen();
        v' == MovedTo(v, 0, 0).(rows := LinesDeleted(v.rows, 0, bottom, 0, n, BlankRow(v.width, v.ren.bg)),
          visible := v'.visible)
    {
      hide FrameState.Valid, FrameState.Seen, LinesDeleted, BlankRow, Draft.Move, Repeated;
      EnterRegion(frame, bottom);
      frame.FeedAtBottom(n);
      frame.ResetMargins();
      frame.cursorX, frame.cursorY := -1, -1;
    }

    // ---------- the frame ----------

    method PrepareRows(last: Snapshot, f: Snapshot, blank: Line) returns (rows: seq<Line>)
      requires f.ds.height >= 1
      ensures rows == Prepared(last, f, blank)
    {
      rows := last.rows;
      if last.ds.width < f.ds.width {
        var i := 0;
        while i < |rows|
          invariant 0 <= i <= |rows| == |last.rows|
          invariant forall j | 0 <= j < i :: rows[j] == Widened(last.rows[j], f.ds.width, f.ds.ren.bg)
          invariant forall j | i <= j < |rows| :: rows[j] == last.rows[j]
        {
          rows := rows[i := Widened(rows[i], f.ds.width, f.ds.ren.bg)];
          i := i + 1;
        }
      }
      if |rows| < f.ds.height {
        rows := rows + seq(f.ds.height - |rows|, _ => blank);
      }
    }

    /** Bring the frame to where the drawing of rows begins, clearing the screen if what it shows is not known. */
    method Begin(frame: FrameState, initialized: bool, last: Snapshot, f: Snapshot) returns (known: bool)
      requires frame.Valid() && frame.Drafted() == Draft([], 0, 0, INITIAL, last.ds.modes.cursorVisible)
      requires Sized(frame.Seen(), f.ds) && WellFormedState(last.ds) && WellFormedState(f.ds)
      requires initialized ==> frame.Seen().modes.reverse == last.ds.modes.reverseVideo
      requires initialized && SameSize(last.ds, f.ds) ==> Matches(frame.Seen(), last.ds, 0)
      modifies frame`ops, frame`term, frame`ren, frame`cursorX, frame`cursorY, frame`visible
      ensures known == (initialized && SameSize(last.ds, f.ds))
      ensures frame.Tracking() && Sized(frame.Seen(), f.ds)
      ensures frame.cursorX < f.ds.width && frame.Seen().modes.reverse == f.ds.modes.reverseVideo
      ensures known ==>
        frame.Seen().rows == old(frame.Seen()).rows && frame.Seen().modes.paste == last.ds.modes.bracketedPaste
      ensures frame.Drafted() == BeginDraft(initialized, last, f)
    {
      hide FrameState.Valid, FrameState.Seen, InShape;
      if !initialized || f.ds.modes.reverseVideo != last.ds.modes.reverseVideo {
        frame.SwitchMode(Reverse, f.ds.modes.reverseVideo);
      }
      if !initialized || last.ds.width != f.ds.width || last.ds.height != f.ds.height {
        known := false;
        StartOver(frame);
      } else {
        known := true;
        Resume(frame, last.ds);
      }
    }

    method StartOver(frame: FrameState)
      requires frame.Valid()
      modifies frame`ops, frame`term, frame`ren, frame`cursorX, frame`cursorY, frame`visible
      ensures frame.Tracking() && frame.cursorX == 0
      ensures var v, v' := old(frame.Seen()), frame.Seen();
        v'.width == v.width && v'.height == v.height && v'.modes == v.modes
      ensures frame.Drafted() == Draft(old(frame.ops) + CLEARING + [Switch(Visible, false)], 0, 0, INITIAL, false)
    {
      hide FrameState.Valid, FrameState.Seen, InShape;
      frame.ClearScreen();
      frame.cursorX, frame.cursorY := 0, 0;
      frame.ren := INITIAL;
      frame.visible := false;
      frame.SwitchMode(Visible, false);
    }

    method Resume(frame: FrameState, ds: DrawState)
      requires frame.Valid() && frame.visible == ds.modes.cursorVisible
      requires WholeRegion(frame.Seen()) && frame.Seen().ren == ds.ren && frame.Seen().visible == ds.modes.cursorVisible
      requires frame.Seen().y == ds.cursorRow && frame.Seen().x == ds.cursorCol && !frame.Seen().pending
      modifies frame`ren, frame`cursorX, frame`cursorY
      ensures frame.Tracking() && frame.cursorX == ds.cursorCol
      ensures frame.Drafted() == Draft(frame.ops, ds.cursorCol, ds.cursorRow, ds.ren, frame.visible)
    {
      hide FrameState.Valid, FrameState.Seen, InShape;
      frame.cursorX, frame.cursorY := ds.cursorCol, ds.cursorRow;
      frame.ren := ds.ren;
    }

    /** Leave the cursor, the rendition and the modes as the new screen has them. */
    method Finish(frame: FrameState, known: bool, last: Snapshot, f: Snapshot)
      requires WellFormedState(f.ds) && Canonical(f.ds.ren) && frame.Tracking() && Sized(frame.Seen(), f.ds)
      requires frame.Seen().modes.reverse == f.ds.modes.reverseVideo
      requires known ==> frame.Seen().modes.paste == last.ds.modes.bracketedPaste
      modifies frame`ops, frame`term, frame`ren, frame`cursorX, frame`cursorY
      ensures frame.Valid() && frame.Seen().rows == old(frame.Seen()).rows
      ensures var past := old(frame.cursorX) == f.ds.width && old(frame.cursorY) == f.ds.cursorRow
                          && 0 < f.ds.cursorCol && f.ds.cursorCol > f.ds.width - 5;
        Matches(frame.Seen(), f.ds, if past then 1 else 0)
      ensures frame.ops == FinishDraft(old(frame.Drafted()), known, last, f).ops
    {
      hide FrameState.Valid, FrameState.Seen, InShape, Canonical, WellFormedState;
      PlaceCursor(frame, known, f);
      if !known || f.ds.modes.cursorVisible != frame.visible {
        frame.SwitchMode(Visible, f.ds.modes.cursorVisible);
      }
      frame.UpdateRendition(f.ds.ren, !known);
      if !known || f.ds.modes.bracketedPaste != last.ds.modes.bracketedPaste {
        frame.SwitchMode(Paste, f.ds.modes.bracketedPaste);
      }
    }

    method PlaceCursor(frame: FrameState, known: bool, f: Snapshot)
      requires WellFormedState(f.ds) && frame.Tracking() && Sized(frame.Seen(), f.ds)
      modifies frame`ops, frame`term, frame`cursorX, frame`cursorY
      ensures frame.Valid()
      ensures var past := old(frame.cursorX) == f.ds.width && old(frame.cursorY) == f.ds.cursorRow
                          && 0 < f.ds.cursorCol && f.ds.cursorCol > f.ds.width - 5;
        frame.Seen() == MovedTo(old(frame.Seen()), f.ds.cursorRow, f.ds.cursorCol - if past then 1 else 0)
      ensures frame.Drafted() == PlaceDraft(old(frame.Drafted()), known, f)
    {
      hide FrameState.Valid, FrameState.Seen, InShape;
      if !known || f.ds.cursorRow != frame.cursorY || f.ds.cursorCol != frame.cursorX {
        frame.AppendMove(f.ds.cursorRow, f.ds.cursorCol);
      }
    }

    /** Draw the rows from `from` on. */
    method PutRows(frame: FrameState, known: bool, f: Snapshot, rows: seq<Line>, from: nat)
      requires Drawable(f) && frame.Tracking() && Sized(frame.Seen(), f.ds) && frame.cursorX < f.ds.width
      requires |rows| >= f.ds.height && from < f.ds.height && LooksLike(frame.Seen().rows, f.rows, 0, from)
      requires known ==> LooksLike(frame.Seen().rows, rows, from, f.ds.height) && IdentityHolds(f.rows, rows)
      modifies frame`ops, frame`term, frame`ren, frame`cursorX, frame`cursorY, frame`visible
      ensures frame.Tracking() && Sized(frame.Seen(), f.ds)
      ensures frame.Seen().modes == old(frame.Seen()).modes
      ensures LooksLike(frame.Seen().rows, f.rows, 0, f.ds.height)
      ensures f.ds.width >= 2 ==>
        var y := f.ds.height - 1;
        && (frame.cursorX == f.ds.width ==> frame.cursorY == y)
        && (frame.cursorX == f.ds.width)
          == ReachesEdge(hasBce, known, f.rows[y], rows[y], StartColumn(hasBce, known, f.rows, rows, from, y))
      ensures Writable(f.rows)
      ensures frame.Drafted() == RowsDraft(old(frame.Drafted()), known, f.rows, rows, from, false)
    {
      hide FrameState.Valid, FrameState.Seen, RowsAlike, ReachesEdge, Painted, Canonical, LooksLike, IdentityHolds,
        RowDraft, RowWrap, WritableLine;
      ghost var v := frame.Seen();
      var y := from;
      var wrap := false;
      DrawableWritable(f);
      ghost var whole := RowsDraft(frame.Drafted(), known, f.rows, rows, from, false);
      ghost var edge := false;
      while y < f.ds.height
        invariant from <= y <= f.ds.height && (y == f.ds.height ==> !wrap)
        invariant frame.Valid() && Sized(frame.Seen(), f.ds)
        invariant if wrap then frame.AboutToWrap(y) else frame.Tracking()
        invariant frame.Seen().modes == v.modes
        invariant RowsDraft(frame.Drafted(), known, f.rows, rows, y, wrap) == whole
        invariant LooksLike(frame.Seen().rows, f.rows, 0, y)
        invariant known ==> LooksLike(frame.Seen().rows, rows, y, f.ds.height)
        invariant y < f.ds.height ==> wrap == (StartColumn(hasBce, known, f.rows, rows, from, y) == 1)
        invariant y < f.ds.height && f.ds.width >= 2 ==> frame.cursorX < f.ds.width
        invariant y == f.ds.height ==>
          edge == ReachesEdge(hasBce, known, f.rows[y - 1], rows[y - 1],
            StartColumn(hasBce, known, f.rows, rows, from, y - 1))
        invariant y == f.ds.height && f.ds.width >= 2 ==>
          (frame.cursorX == f.ds.width) == edge && (frame.cursorX == f.ds.width ==> frame.cursorY == y - 1)
      {
        ghost var at := frame.Seen();
        if known { RowKnown(at.rows, f.rows, rows, y); }
        edge := ReachesEdge(hasBce, known, f.rows[y], rows[y], StartColumn(hasBce, known, f.rows, rows, from, y));
        wrap := PutRow(frame, known, f, y, rows[y], wrap);
        PaintedKeeps(at, frame.Seen(), f, rows, y);
        y := y + 1;
      }
    }

    /** The shortest run of operations this knows of that turns `last` into `f`, on any terminal that shows `last`. */
    method NewFrame(initialized: bool, last: Snapshot, f: Snapshot, blank: Line, ghost t: Screen)
      returns (ops: seq<Action>)
      requires Drawable(f) && WellFormedState(last.ds) && Shaped(last.rows, last.ds.width, last.ds.height)
      requires IdentityHolds(f.rows, last.rows)
      requires blank.cells == BlankRow(f.ds.width, 0) && forall i | 0 <= i < |f.rows| :: f.rows[i].id != blank.id
      requires Ready(t) && SameSize(t.ds, f.ds)
      requires initialized ==> t.ds.modes.reverseVideo == last.ds.modes.reverseVideo
      requires initialized && SameSize(last.ds, f.ds) ==> Shows(t, last)
      ensures ShowsOff(RunAll(t, ops), f, if Overshoots(hasBce, initialized, last, f, blank) then 1 else 0)
      ensures Writable(f.rows) && ops == FrameOps(initialized, last, f, blank)
    {
      hide FrameState.Valid, FrameState.Seen, RunAll, DrawableRow, ReachesEdge, StartColumn, Canonical, Remains,
        BlankRow, IdentityHolds, Matches, LooksLike, WellFormed, Writable;
      hide BeginDraft, SkipDraft, RowsDraft, FinishDraft;
      var frame := new FrameState(last.ds.modes.cursorVisible, t);
      assert InShape(Look(t)) by { ReadyInShape(t); }
      var known := Begin(frame, initialized, last, f);
      var from, rows := Skip(frame, known, last, f, blank);
      PutRows(frame, known, f, rows, from);
      Finish(frame, known, last, f);
      frame.Performed();
      return frame.ops;
    }

    /** The old rows made ready, and the terminal scrolled if that brings rows to where the new screen has them. */
    method Skip(frame: FrameState, known: bool, last: Snapshot, f: Snapshot, blank: Line)
      returns (from: nat, rows: seq<Line>)
      requires frame.Tracking() && Sized(frame.Seen(), f.ds) && WellFormedState(f.ds) && frame.cursorX < f.ds.width
      requires |f.rows| == f.ds.height && |last.rows| == last.ds.height && IdentityHolds(f.rows, last.rows)
      requires known ==> SameSize(last.ds, f.ds) && LooksLike(frame.Seen().rows, last.rows, 0, f.ds.height)
      requires blank.cells == BlankRow(f.ds.width, 0) && forall i | 0 <= i < |f.rows| :: f.rows[i].id != blank.id
      modifies frame`ops, frame`term, frame`ren, frame`cursorX, frame`cursorY, frame`visible
      ensures Remaining(from, rows) == Remains(known, last, f, blank)
      ensures frame.Tracking() && Sized(frame.Seen(), f.ds) && frame.cursorX < f.ds.width
      ensures frame.Seen().modes == old(frame.Seen()).modes
      ensures LooksLike(frame.Seen().rows, f.rows, 0, from)
      ensures known ==> LooksLike(frame.Seen().rows, rows, from, f.ds.height) && IdentityHolds(f.rows, rows)
      ensures frame.Drafted() == SkipDraft(old(frame.Drafted()), known, last, f, blank)
    {
      hide FrameState.Valid, FrameState.Seen, RowsAlike, BlankRow;
      rows := PrepareRows(last, f, blank);
      from := 0;
      if known {
        from, rows := Shortcut(frame, f, rows, blank);
      }
    }

    /** Scroll the terminal if the display has simply moved up. Returns where the rows still to be drawn begin. */
    method Shortcut(frame: FrameState, f: Snapshot, rows: seq<Line>, blank: Line) returns (from: nat, shown: seq<Line>)
      requires frame.Tracking() && Sized(frame.Seen(), f.ds) && WellFormedState(f.ds) && frame.cursorX < f.ds.width
      requires |f.rows| == |rows| == f.ds.height && IdentityHolds(f.rows, rows)
      requires LooksLike(frame.Seen().rows, rows, 0, f.ds.height)
      requires blank.cells == BlankRow(f.ds.width, 0) && forall i | 0 <= i < |f.rows| :: f.rows[i].id != blank.id
      modifies frame`ops, frame`term, frame`ren, frame`cursorX, frame`cursorY, frame`visible
      ensures var s := FindScroll(f.rows, rows);
        from == s.height < f.ds.height && shown == if s.height == 0 then rows else Mirrored(rows, s, blank)
      ensures frame.Tracking() && Sized(frame.Seen(), f.ds) && frame.cursorX < f.ds.width
      ensures frame.Seen().modes == old(frame.Seen()).modes
      ensures LooksLike(frame.Seen().rows, f.rows, 0, from) && LooksLike(frame.Seen().rows, shown, from, f.ds.height)
      ensures IdentityHolds(f.rows, shown)
      ensures var s, d := FindScroll(f.rows, rows), old(frame.Drafted());
        frame.Drafted() == if s.height == 0 then d else ScrollDraft(d, s, f.ds.height)
    {
      hide FrameState.Valid, FrameState.Seen, RowsAlike, BlankRow;
      from, shown := 0, rows;
      var s := DetectScroll(f.rows, rows);
      if s.height != 0 {
        ghost var v := frame.Seen();
        from := s.height;
        ScrollUp(frame, s, f.ds.height);
        ScrollShows(v.rows, frame.Seen().rows, f, rows, s, blank);
        shown := MirrorRows(rows, s, blank);
      }
    }
  }

  // ---------- what those do to the view ----------

  ghost predicate DrewAfterWrap(v: View, v': View, cell: Cell, y: int)
  {
    && 0 < y < |v.rows| == |v'.rows|
    && v' == v.(rows := v'.rows, y := y, x := v'.x, pending := v'.pending, ren := cell.ren)
    && (forall i | y < i < |v.rows| :: v'.rows[i] == v.rows[i])
    && (forall i | 0 <= i < y :: RowsAlike(v'.rows[i], v.rows[i]))
    && |v'.rows[y]| > 0 && Alike(v'.rows[y][0], cell) && SameOutside(v'.rows[y], v.rows[y], 0, 1)
  }

  lemma DrawableWritable(f: Snapshot)
    requires Drawable(f)
    ensures Writable(f.rows)
  {
    forall y | 0 <= y < |f.rows|
      ensures WritableLine(f.rows[y])
    {
      assert DrawableRow(f.rows[y].cells, f.ds.width);
    }
  }

  lemma MarkLooksTheSame(row: Row, w: bool)
    ensures RowsAlike(SetRowWrap(row, w), row)
  {
    var marked := SetRowWrap(row, w);
    forall x | 0 <= x < |row|
      ensures Alike(marked[x], row[x])
    {
      AlikeButForWrap(marked[x], row[x]);
    }
  }

  lemma AlikeButForWrap(a: Cell, b: Cell)
    requires a == b.(wrap := a.wrap)
    ensures Alike(a, b)
  {
  }

  lemma WrappedLooksTheSame(v: View, y: int)
    requires InShape(v) && v.y == y - 1 && y < v.height
    ensures InShape(Wrapped(v)) && forall i | 0 <= i < y :: RowsAlike(Wrapped(v).rows[i], v.rows[i])
  {
    MarkLooksTheSame(v.rows[y - 1], true);
    hide Alike;
    forall i | 0 <= i < y
      ensures RowsAlike(Wrapped(v).rows[i], v.rows[i])
    {
      if i < y - 1 { RowAlikeItself(v.rows[i]); }
    }
  }

  lemma AfterWrapRows(v: View, cell: Cell, y: int)
    requires InShape(v) && v.ren == cell.ren && v.y == y - 1 && y < v.height && DrawableCell(cell)
    requires InShape(Wrapped(v))
    ensures var rows := Written(Wrapped(v), Character(cell)).rows;
      && |rows| == |v.rows| && (forall i | y < i < |v.rows| :: rows[i] == v.rows[i])
      && (forall i | 0 <= i < y :: rows[i] == Wrapped(v).rows[i])
      && |rows[y]| > 0 && Alike(rows[y][0], cell) && SameOutside(rows[y], v.rows[y], 0, 1)
  {
    assert Alike(Glyph(Character(cell), cell.ren), cell);
    hide Alike, SetRowWrap, Character, Glyph;
    assert Wrapped(v).rows[y] == v.rows[y];
  }

  lemma AfterWrap(v: View, cell: Cell, y: int)
    requires InShape(v) && v.ren == cell.ren && v.y == y - 1 && y < v.height && DrawableCell(cell)
    ensures InShape(Wrapped(v))
    ensures var v' := Written(Wrapped(v), Character(cell));
      && DrewAfterWrap(v, v', cell, y)
      && v'.y == y && v'.ren == cell.ren && v'.visible == v.visible && v'.top == v.top && v'.bottom == v.bottom
      && v'.width == v.width && v'.height == v.height
        && (if v'.pending then v'.x == v'.width - 1 && v'.width == 1 else v'.x == 1)
  {
    WrappedLooksTheSame(v, y);
    AfterWrapRows(v, cell, y);
    hide Alike, SetRowWrap, RowsAlike, Character, Glyph, SameOutside;
  }

  lemma RowAlikeItself(row: Row)
    ensures RowsAlike(row, row)
  {
  }

  /** Row `y` differs only in column `x`, which looks like the cell. */
  ghost predicate Drew(v: View, v': View, cell: Cell, y: int, x: int)
  {
    && 0 <= y < |v.rows| && SameButRow(v'.rows, v.rows, y)
    && 0 <= x < |v.rows[y]| && SameOutside(v'.rows[y], v.rows[y], x, x + 1) && Alike(v'.rows[y][x], cell)
    && v' == v.(rows := v'.rows, y := y, x := v'.x, pending := x + 1 == v.width, ren := cell.ren, visible := v'.visible)
  }

  lemma Drawing(v: View, visible: bool, cell: Cell, y: int, x: int)
    requires InShape(v) && 0 <= y < v.height && 0 <= x < v.width && DrawableCell(cell)
    ensures var at := MovedTo(v, y, x).(visible := visible).(ren := cell.ren);
      && InShape(at) && !at.pending
      && var v' := Written(at, Character(cell));
         && Drew(v, v', cell, y, x) && v'.visible == visible
         && v'.x == if v'.pending then v'.width - 1 else x + 1
  {
  }

  lemma BlankByErasing(v: View, at: View, v': View, blank: Renditions, y: int, from: int, to: int)
    requires InShape(v) && 0 <= y < v.height && 0 <= from < to <= v.width && blank == Plain(blank.bg)
    requires at == MovedTo(v, y, from).(visible := at.visible, ren := blank) && InShape(at)
      && v' == ErasedTo(at, to - 1)
    ensures Blanked(v, v', blank, y, from, to)
  {
    var row := v'.rows[y];
    assert |row| == v.width;
    assert forall x | 0 <= x < |row| :: row[x] == if from <= x < to then Blank(blank.bg) else v.rows[y][x];
  }

  lemma BlankBySpaces(v: View, at: View, v': View, blank: Renditions, y: int, from: int, to: int)
    requires InShape(v) && 0 <= y < v.height && 0 <= from < to <= v.width && blank == Plain(blank.bg)
    requires at == MovedTo(v, y, from).(visible := at.visible, ren := blank)
    requires SameButRow(v'.rows, at.rows, y) && SameOutside(v'.rows[y], at.rows[y], from, to)
    requires forall x | from <= x < to :: v'.rows[y][x] == Glyph(' ', blank)
    requires v' == at.(rows := v'.rows, x := v'.x, pending := v'.pending)
    ensures Blanked(v, v', blank, y, from, to)
  {
    assert Alike(Glyph(' ', blank), Blank(blank.bg));
  }

  /** The effect of erasing columns `from` to `to - 1` of row `y`, whichever way it is done. */
  ghost predicate Blanked(v: View, v': View, blank: Renditions, y: int, from: int, to: int)
  {
    && 0 <= y < |v.rows|
    && SameButRow(v'.rows, v.rows, y) && SameOutside(v'.rows[y], v.rows[y], from, to)
    && (forall x | from <= x < to && 0 <= x < |v'.rows[y]| :: Alike(v'.rows[y][x], Blank(blank.bg)))
    && v' == v.(rows := v'.rows, y := y, x := v'.x, pending := v'.pending, ren := blank, visible := v'.visible)
  }

  // ---------- a row partly drawn ----------

  /** Every row but row `y` still looks as it did, and the rest of the terminal is untouched. */
  ghost predicate OnlyRowTouched(v: View, v': View, y: int)
  {
    && v'.width == v.width && v'.height == v.height && v'.top == v.top && v'.bottom == v.bottom
    && v'.modes == v.modes
    && 0 <= y < |v.rows| == |v'.rows|
    && (forall i | y < i < |v.rows| :: v'.rows[i] == v.rows[i])
    && (forall i | 0 <= i < y :: RowsAlike(v'.rows[i], v.rows[i]))
  }

  ghost predicate Painted(v: View, v': View, cells: Row, y: int)
  {
    OnlyRowTouched(v, v', y) && RowsAlike(v'.rows[y], cells)
  }

  /**
   * Row `y` is drawn up to column `x - clear`, and from there on, if it was known, still looks as it did:
   * the `clear` columns before column `x` are blank in the new row and wait to be erased.
   */
  ghost predicate Partly(v: View, v': View, initialized: bool, cells: Row, was: Row, y: int, x: int, clear: int)
  {
    && OnlyRowTouched(v, v', y) && |v'.rows[y]| == |cells|
    && (forall j | 0 <= j < x - clear && j < |cells| :: Alike(v'.rows[y][j], cells[j]))
    && (initialized ==> |was| == |cells| && forall j | x - clear <= j < |was| && 0 <= j :: Alike(v'.rows[y][j], was[j]))
  }

  lemma WaitingNone(initialized: bool, cells: Row, was: Row, from: nat)
    requires from <= |cells|
    ensures Waiting(initialized, cells, was, from, from) == None
  {
  }

  lemma ChangedMeans(initialized: bool, cells: Row, was: Row, x: nat)
    requires x < |cells|
    ensures Changed(initialized, cells, was, x) <==> !(initialized && x < |was| && cells[x] == was[x])
  {
  }

  lemma WaitingStep(initialized: bool, cells: Row, was: Row, from: nat, x: nat)
    requires from <= x < |cells|
    ensures Waiting(initialized, cells, was, from, x + 1)
         == if cells[x].contents == ""
           && (Waiting(initialized, cells, was, from, x).Some? || Changed(initialized, cells, was, x))
            then Some(cells[x].ren) else None
  {
  }

  lemma EdgeMeans(initialized: bool, cells: Row, was: Row, from: nat)
    requires from < |cells|
    ensures cells[|cells| - 1].contents == "" ==> !EndsWithCharacter(initialized, cells, was, from)
    ensures cells[|cells| - 1].contents != "" ==> Waiting(initialized, cells, was, from, |cells|) == None
    ensures cells[|cells| - 1].contents != "" ==>
      (EndsWithCharacter(initialized, cells, was, from)
       <==> Waiting(initialized, cells, was, from, |cells| - 1).Some? || Changed(initialized, cells, was, |cells| - 1))
    ensures Waiting(initialized, cells, was, from, |cells|).Some? ==>
      Waiting(initialized, cells, was, from, |cells|).value == cells[|cells| - 1].ren
  {
  }

  lemma PartlyStart(v: View, initialized: bool, cells: Row, was: Row, y: int)
    requires InShape(v) && 0 <= y < v.height && |cells| == v.width && (initialized ==> RowsAlike(v.rows[y], was))
    ensures Partly(v, v, initialized, cells, was, y, 0, 0)
  {
  }

  lemma PaintedFirst(v: View, v': View, cells: Row, was: Row, y: int)
    requires InShape(v) && 0 < y < v.height && |cells| == v.width
      && DrewAfterWrap(v.(ren := cells[0].ren), v', cells[0], y)
    ensures v'.width == v.width && v'.height == v.height
    ensures Partly(v, v', false, cells, was, y, 1, 0)
    ensures RowsAlike(v.rows[y], was) ==> Partly(v, v', true, cells, was, y, 1, 0)
  {
  }

  lemma PaintedSame(v: View, v': View, cells: Row, y: int, x: int)
    requires Partly(v, v', true, cells, cells, y, x, 0)
    ensures Painted(v, v', cells, y)
  {
  }

  lemma PartlySkip(v: View, v': View, cells: Row, was: Row, y: int, x: int)
    requires Partly(v, v', true, cells, was, y, x, 0) && 0 <= x < |cells| && cells[x] == was[x]
    ensures Partly(v, v', true, cells, was, y, x + 1, 0)
  {
  }

  lemma PartlyWait(v: View, v': View, initialized: bool, cells: Row, was: Row, y: int, x: int, clear: nat)
    requires Partly(v, v', initialized, cells, was, y, x, clear)
    ensures Partly(v, v', initialized, cells, was, y, x + 1, clear + 1)
  {
  }

  lemma PartlyFlush(v: View, at: View, v': View, initialized: bool, cells: Row, was: Row, blank: Renditions, y: int,
                    x: int, clear: nat)
    requires Partly(v, at, initialized, cells, was, y, x, clear) && 0 < clear <= x <= |cells|
    requires Blanked(at, v', blank, y, x - clear, x) && blank == Plain(blank.bg)
    requires forall j | x - clear <= j < x :: DrawableCell(cells[j]) && cells[j].contents == "" && cells[j].ren == blank
    ensures v'.width == at.width && v'.height == at.height
    ensures Partly(v, v', initialized, cells, was, y, x, 0)
  {
    forall j | x - clear <= j < x
      ensures Alike(v'.rows[y][j], cells[j])
    {
      assert Alike(Blank(blank.bg), cells[j]);
    }
  }

  lemma PartlyDraw(v: View, at: View, v': View, initialized: bool, cells: Row, was: Row, y: int, x: int)
    requires Partly(v, at, initialized, cells, was, y, x, 0) && 0 <= x < |cells| && Drew(at, v', cells[x], y, x)
    ensures v'.width == at.width && v'.height == at.height
    ensures Partly(v, v', initialized, cells, was, y, x + 1, 0)
  {
  }

  lemma PartlyDone(v: View, v': View, initialized: bool, cells: Row, was: Row, y: int)
    requires Partly(v, v', initialized, cells, was, y, |cells|, 0)
    ensures Painted(v, v', cells, y)
  {
  }

  lemma PaintedMoved(v: View, v': View, moved: View, cells: Row, y: int)
    requires Painted(v, v', cells, y)
    requires moved == v'.(y := moved.y, x := moved.x, pending := moved.pending)
    ensures Painted(v, moved, cells, y)
  {
  }

  lemma CanonicalInitial()
    ensures Canonical(INITIAL)
  {
  }

  /** What is known of a row before it is drawn. */
  lemma RowKnown(shown: seq<Row>, goal: seq<Line>, rows: seq<Line>, y: nat)
    requires y < |goal| == |shown| <= |rows| && LooksLike(shown, rows, y, |goal|) && IdentityHolds(goal, rows)
    ensures RowsAlike(shown[y], rows[y].cells) && (goal[y].id == rows[y].id ==> goal[y] == rows[y])
  {
    hide RowsAlike;
  }

  lemma PaintedKeeps(v: View, v': View, f: Snapshot, rows: seq<Line>, y: int)
    requires 0 <= y < |f.rows| == |v.rows| && Painted(v, v', f.rows[y].cells, y)
    ensures |v'.rows| == |v.rows| && v'.width == v.width && v'.height == v.height
    ensures v'.modes == v.modes
    ensures LooksLike(v.rows, f.rows, 0, y) ==> LooksLike(v'.rows, f.rows, 0, y + 1)
    ensures LooksLike(v.rows, rows, y, |v.rows|) ==> LooksLike(v'.rows, rows, y + 1, |v.rows|)
  {
    forall i | 0 <= i < y && RowsAlike(v.rows[i], f.rows[i].cells)
      ensures RowsAlike(v'.rows[i], f.rows[i].cells)
    {
      assert RowsAlike(v'.rows[i], v.rows[i]);
    }
  }

  lemma MirroredRow(rows: seq<Line>, s: Scrolling, blank: Line, y: nat)
    requires s.up + s.height <= |rows| && y < |rows|
    ensures Mirrored(rows, s, blank)[y]
         == if y >= s.up + s.height then rows[y] else if y < s.height then rows[y + s.up] else blank
  {
  }

  lemma RowScrolled(rows: seq<Row>, rows': seq<Row>, lines: seq<Line>, s: Scrolling, blank: Line, y: nat)
    requires y < |rows| == |lines| && LooksLike(rows, lines, 0, |rows|) && s.up + s.height <= |rows| && 0 < s.up
      && 0 < s.height
    requires rows' == LinesDeleted(rows, 0, s.up + s.height - 1, 0, s.up, blank.cells)
    ensures |rows'| == |rows| && RowsAlike(rows'[y], Mirrored(lines, s, blank)[y].cells)
    ensures Mirrored(lines, s, blank)[y] == blank || Mirrored(lines, s, blank)[y] in lines
  {
    ScreenLaws.DeletedLineAt(rows, 0, s.up + s.height - 1, 0, s.up, blank.cells, y);
    MirroredRow(lines, s, blank, y);
    RowAlikeItself(blank.cells);
    hide LinesDeleted, RowsAlike, Mirrored;
  }

  lemma ScrollKeepsGoal(goal: seq<Line>, lines: seq<Line>, s: Scrolling, blank: Line)
    requires |lines| == |goal| > 0 && s == FindScroll(goal, lines) && s.height > 0 && IdentityHolds(goal, lines)
    ensures forall y | 0 <= y < s.height :: Mirrored(lines, s, blank)[y].cells == goal[y].cells
  {
    assert s.height == MatchHeight(goal, lines, s.up, 1);
    assert goal[0].id == lines[s.up].id || SameLine(goal[0], lines[s.up]);
    assert goal[0].cells == lines[s.up].cells;
    hide FindScroll, MatchHeight, IdentityHolds;
  }

  /** The scroll leaves the terminal as the mirrored rows say, and every row then skipped as the new screen has it. */
  lemma ScrollShows(rows: seq<Row>, rows': seq<Row>, f: Snapshot, lines: seq<Line>, s: Scrolling, blank: Line)
    requires |rows| == |lines| == |f.rows| > 0 && LooksLike(rows, lines, 0, |rows|)
    requires s == FindScroll(f.rows, lines) && s.height > 0
    requires IdentityHolds(f.rows, lines) && forall i | 0 <= i < |f.rows| :: f.rows[i].id != blank.id
    requires rows' == LinesDeleted(rows, 0, s.up + s.height - 1, 0, s.up, blank.cells)
    ensures |rows'| == |rows| && LooksLike(rows', Mirrored(lines, s, blank), 0, |rows|)
    ensures LooksLike(rows', f.rows, 0, s.height) && IdentityHolds(f.rows, Mirrored(lines, s, blank))
  {
    ScrollKeepsGoal(f.rows, lines, s, blank);
    hide LinesDeleted, RowsAlike, Mirrored, FindScroll;
    forall y: nat | y < |rows|
      ensures RowsAlike(rows'[y], Mirrored(lines, s, blank)[y].cells)
      ensures Mirrored(lines, s, blank)[y] == blank || Mirrored(lines, s, blank)[y] in lines
    {
      RowScrolled(rows, rows', lines, s, blank, y);
    }
  }
}

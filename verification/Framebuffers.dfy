/** The screen as it is updated in place, method by method against the operations of `Screens` and `Actions`. */
module Framebuffers {
  import opened Rendition
  import opened Screens
  import opened Actions
  import ScreenLaws

  /** Draining lines below the cursor and splicing blank ones in at the bottom of the region moves the rest up. */
  lemma DrainThenSplice<R>(rows: seq<R>, row: nat, n: nat, end: nat, blanks: seq<R>)
    requires row + n <= end <= |rows|
    ensures var kept := rows[..row] + rows[row + n..];
      kept[..end - n] + blanks + kept[end - n..] == rows[..row] + rows[row + n..end] + blanks + rows[end..]
  {
    var kept := rows[..row] + rows[row + n..];
    assert kept[..end - n] == rows[..row] + rows[row + n..end];
    assert kept[end - n..] == rows[end..];
  }

  /** Draining lines at the bottom of the region and splicing blank ones in at the cursor moves the rest down. */
  lemma DrainThenSpliceAbove<R>(rows: seq<R>, row: nat, n: nat, end: nat, blanks: seq<R>)
    requires row + n <= end <= |rows|
    ensures var kept := rows[..end - n] + rows[end..];
      kept[..row] + blanks + kept[row..] == rows[..row] + blanks + rows[row..end - n] + rows[end..]
  {
    var kept := rows[..end - n] + rows[end..];
    assert kept[..row] == rows[..row];
    assert kept[row..] == rows[row..end - n] + rows[end..];
  }

  class Framebuffer {
    var rows: seq<Row>
    var ds: DrawState

    ghost function State(): Screen
      reads this
    {
      Screen(rows, ds)
    }

    ghost predicate Valid()
      reads this
    {
      WellFormed(State())
    }

    constructor (width: int, height: int)
      ensures State() == NewScreen(width, height) && Valid()
    {
      var w, h := Clamp(width, 1, MAX_DIMENSION), Clamp(height, 1, MAX_DIMENSION);
      rows := seq(h, _ => BlankRow(w, 0));
      ds := InitialState(w, h);
    }

    // ---------- cells and lines ----------

    method ResetCell(row: int, col: int)
      requires 0 <= row < |rows| && 0 <= col < |rows[row]|
      modifies this`rows
      ensures rows == old(rows)[row := old(rows)[row][col := Blank(ds.ren.bg)]]
    {
      rows := rows[row := rows[row][col := Blank(ds.ren.bg)]];
    }

    method ResetRow(row: int)
      requires 0 <= row < |rows|
      modifies this`rows
      ensures rows == old(rows)[row := BlankRow(|old(rows)[row]|, ds.ren.bg)]
    {
      var cells := rows[row];
      var x := 0;
      while x < |cells|
        invariant 0 <= x <= |cells| == |rows[row]|
        invariant cells == BlankRow(x, ds.ren.bg) + rows[row][x..]
      {
        cells := cells[x := Blank(ds.ren.bg)];
        x := x + 1;
      }
      assert cells == BlankRow(|cells|, ds.ren.bg);
      rows := rows[row := cells];
    }

    method ClearCells(start: int, end: int)
      requires Valid() && 0 <= start && end < ds.width
      modifies this`rows
      ensures State() == ClearLine(old(State()), start, end)
    {
      ghost var s := State();
      var y := ds.cursorRow;
      var col := start;
      while col <= end
        invariant start <= col && (col <= end + 1 || col == start)
        invariant |rows| == |s.rows| && forall i | 0 <= i < |rows| && i != y :: rows[i] == s.rows[i]
        invariant |rows[y]| == ds.width
        invariant forall x | 0 <= x < ds.width :: rows[y][x] == if start <= x < col then Blank(ds.ren.bg)
          else s.rows[y][x]
      {
        ResetCell(y, col);
        col := col + 1;
      }
      assert rows[y] == Erased(s.rows[y], start, end, ds.ren.bg);
      assert rows == ClearLine(s, start, end).rows;
    }

    method ClearRows(from: int, to: int)
      requires Valid() && 0 <= from && to <= ds.height
      modifies this`rows
      ensures State() == ResetRows(old(State()), from, to)
    {
      ghost var s := State();
      var y := from;
      while y < to
        invariant from <= y && (y <= to || y == from)
        invariant |rows| == |s.rows|
        invariant forall i | 0 <= i < |rows| :: rows[i] == if from <= i < y then NewRow(s) else s.rows[i]
      {
        assert |rows[y]| == ds.width;
        ResetRow(y);
        y := y + 1;
      }
      assert rows == ResetRows(s, from, to).rows;
    }

    /** Open cells at the cursor: the end of the row is cut off first, so the row keeps its width. */
    method InsertChars(count: nat)
      requires Valid()
      modifies this`rows
      ensures State() == InsertCells(old(State()), count)
    {
      var row, col := rows[ds.cursorRow], ds.cursorCol;
      var n := if count < |row| - col then count else |row| - col;
      row := row[..|row| - n];
      row := row[..col] + BlankRow(n, ds.ren.bg) + row[col..];
      rows := rows[ds.cursorRow := row];
      assert row == InsertedCells(old(rows)[ds.cursorRow], col, count, ds.ren.bg);
    }

    method DeleteChars(count: nat)
      requires Valid()
      modifies this`rows
      ensures State() == DeleteCells(old(State()), count)
    {
      var row, col := rows[ds.cursorRow], ds.cursorCol;
      var width := |row|;
      var n := if count < width - col then count else width - col;
      row := row[..col] + row[col + n..];
      row := row + BlankRow(width - |row|, ds.ren.bg);
      rows := rows[ds.cursorRow := row];
      assert row == DeletedCells(old(rows)[ds.cursorRow], col, count, ds.ren.bg);
    }

    /** Lines fall off the bottom of the region before blank ones are put in above the cursor. */
    method InsertLines(before: int, count: int)
      requires Valid()
      modifies this`rows
      ensures State() == InsertLine(old(State()), before, count)
    {
      hide WellFormedRow;
      if before < ds.top || before > ds.bottom + 1 { return; }
      var scroll := ds.bottom + 1 - before;
      if count < scroll { scroll := count; }
      if scroll <= 0 { return; }
      var start := ds.bottom + 1 - scroll;
      rows := rows[..start] + rows[start + scroll..];
      var blank := BlankRow(ds.width, ds.ren.bg);
      rows := rows[..before] + seq(scroll, _ => blank) + rows[before..];
      DrainThenSpliceAbove(old(rows), before, scroll, ds.bottom + 1, seq(scroll, _ => blank));
    }

    method DeleteLines(row: int, count: int)
      requires Valid()
      modifies this`rows
      ensures State() == DeleteLine(old(State()), row, count)
    {
      hide WellFormedRow;
      if row < ds.top || row > ds.bottom { return; }
      var scroll := ds.bottom + 1 - row;
      if count < scroll { scroll := count; }
      if scroll <= 0 { return; }
      rows := rows[..row] + rows[row + scroll..];
      var blank := BlankRow(ds.width, ds.ren.bg);
      var at := ds.bottom + 1 - scroll;
      rows := rows[..at] + seq(scroll, _ => blank) + rows[at..];
      DrainThenSplice(old(rows), row, scroll, ds.bottom + 1, seq(scroll, _ => blank));
    }

    method Scroll(n: int)
      requires Valid()
      modifies this`rows
      ensures State() == Screens.Scroll(old(State()), n)
    {
      if n >= 0 {
        DeleteLines(ds.top, n);
      } else {
        InsertLines(ds.top, -n);
      }
    }

    method MoveRows(n: int)
      requires Valid()
      modifies this
      ensures State() == MoveRowsAutoscroll(old(State()), n)
    {
      hide MoveRow, Screens.Scroll, WellFormedRows;
      if ds.cursorRow < ds.top || ds.cursorRow > ds.bottom {
        ds := MoveRow(ds, n, true);
        return;
      }
      if ds.cursorRow + n > ds.bottom {
        var beyond := ds.cursorRow + n - ds.bottom;
        Scroll(beyond);
        ds := MoveRow(ds, -beyond, true);
      } else if ds.cursorRow + n < ds.top {
        var beyond := ds.cursorRow + n - ds.top;
        Scroll(beyond);
        ds := MoveRow(ds, -beyond, true);
      }
      ds := MoveRow(ds, n, true);
    }

    // ---------- printing ----------

    method SetWrap(w: bool)
      requires Valid()
      modifies this`rows
      ensures rows == old(rows)[ds.cursorRow := SetRowWrap(old(rows)[ds.cursorRow], w)]
    {
      rows := rows[ds.cursorRow := SetRowWrap(rows[ds.cursorRow], w)];
    }

    method PrintChar(ch: char, width: int)
      requires Valid()
      modifies this
      ensures State() == Screens.Print(old(State()), ch, width)
    {
      hide WellFormed, WrapLine, WrapEarly, InsertCells, Placed, Combined;
      if width == 1 || width == 2 {
        StartCell(width);
        ghost var here := State();
        if ds.modes.insertMode {
          OpenCells(width);
        }
        Place(ch, width);
      } else if width == 0 {
        Combine(ch);
      }
    }

    method StartCell(width: int)
      requires Valid() && (width == 1 || width == 2)
      modifies this
      ensures State() == var s := old(State());
        if s.ds.modes.autoWrap && s.ds.nextPrintWillWrap then WrapLine(s)
        else if s.ds.modes.autoWrap && width == 2 && s.ds.cursorCol == s.ds.width - 1 then WrapEarly(s)
        else s
    {
      ghost var s, y := State(), ds.cursorRow;
      hide MoveRow, MoveCol, MoveRowsAutoscroll;
      if ds.modes.autoWrap && ds.nextPrintWillWrap {
        SetWrap(true);
        assert State() == WithRow(s, y, SetRowWrap(CursorRow(s), true));
        ds := MoveCol(ds, 0, false);
        MoveRows(1);
      } else if ds.modes.autoWrap && width == 2 && ds.cursorCol == ds.width - 1 {
        ResetCell(ds.cursorRow, ds.cursorCol);
        SetWrap(false);
        assert State() == WithRow(s, y, SetRowWrap(CursorRow(s)[s.ds.cursorCol := Blank(Background(s))], false));
        ds := MoveCol(ds, 0, false);
        MoveRows(1);
      }
    }

    /** In insert mode the cells are opened one at a time. */
    method OpenCells(width: nat)
      requires Valid()
      modifies this`rows
      ensures State() == InsertCells(old(State()), width)
    {
      ghost var s := State();
      ghost var y, x, bg := ds.cursorRow, ds.cursorCol, ds.ren.bg;
      var i := 0;
      ScreenLaws.InsertInBulk(s.rows[y], x, 0, bg);
      assert s.rows == s.rows[y := s.rows[y]];
      while i < width
        invariant 0 <= i <= width
        invariant Valid() && State() == InsertCells(s, i)
      {
        InsertChars(1);
        ScreenLaws.InsertInBulk(s.rows[y], x, i, bg);
        ScreenLaws.InsertInBulk(s.rows[y], x, i + 1, bg);
        i := i + 1;
      }
    }

    method Place(ch: char, width: nat)
      requires Valid()
      modifies this
      ensures State() == Placed(old(State()), ch, width)
    {
      hide Advance, WellFormedCell;
      var row, col := ds.cursorRow, ds.cursorCol;
      ResetCell(row, col);
      rows := rows[row := rows[row][col := rows[row][col].(contents := [ch], wide := width == 2)]];
      rows := rows[row := rows[row][col := rows[row][col].(ren := ds.ren)]];
      if width == 2 && col + 1 < ds.width {
        ResetCell(row, col + 1);
      }
      ds := Advance(ds, width);
      assert rows[row] == Placed(old(State()), ch, width).rows[row];
    }

    method Combine(ch: char)
      requires Valid()
      modifies this
      ensures State() == Combined(old(State()), ch)
    {
      var x, y := ds.combiningCol, ds.combiningRow;
      if x < 0 || y < 0 || x >= ds.width || y >= ds.height { return; }
      if rows[y][x].contents == "" {
        rows := rows[y := rows[y][x := rows[y][x].(fallback := true)]];
        rows := rows[y := rows[y][x := Append(rows[y][x], ch)]];
        ds := Advance(ds, 1);
        assert rows[y] == Combined(old(State()), ch).rows[y];
        return;
      }
      rows := rows[y := rows[y][x := Append(rows[y][x], ch)]];
    }

    // ---------- tabs, modes and renditions ----------

    method FindTab(count: int) returns (col: int)
      requires Valid() && count != 0
      ensures col == NextTab(ds, count)
    {
      var left := count;
      if count > 0 {
        var i := ds.cursorCol + 1;
        while i < ds.width
          invariant ds.cursorCol < i <= ds.width && left > 0
          invariant TabAfter(ds, i, left) == NextTab(ds, count)
        {
          if ds.tabs[i] {
            left := left - 1;
            if left == 0 { return i; }
          }
          i := i + 1;
        }
        return -1;
      }
      var i := ds.cursorCol - 1;
      while i > 0
        invariant i < ds.width && left < 0
        invariant TabBefore(ds, i, -left) == NextTab(ds, count)
      {
        if ds.tabs[i] {
          left := left + 1;
          if left == 0 { return i; }
        }
        i := i - 1;
      }
      return 0;
    }

    method MoveTabs(count: int)
      requires Valid() && count != 0
      modifies this`ds
      ensures ds == TabBy(old(ds), count)
    {
      var col := FindTab(count);
      if col == -1 { col := ds.width - 1; }
      var pending := ds.nextPrintWillWrap;
      ds := MoveCol(ds, col, false);
      ds := ds.(nextPrintWillWrap := pending);
    }

    method ClearAllTabs()
      requires Valid()
      modifies this`ds
      ensures ds == ClearTabs(old(ds), 3)
    {
      var tabs := ds.tabs;
      var x := 0;
      while x < ds.width
        invariant 0 <= x <= ds.width == |tabs| == |ds.tabs| && ds == old(ds)
        invariant forall i | 0 <= i < |tabs| :: tabs[i] == (x <= i && ds.tabs[i])
      {
        tabs := tabs[x := false];
        x := x + 1;
      }
      assert tabs == ClearTabs(ds, 3).tabs;
      ds := ds.(defaultTabs := false, tabs := tabs);
    }

    method ClearTabStops(mode: int)
      requires Valid()
      modifies this`ds
      ensures ds == ClearTabs(old(ds), mode)
    {
      match mode {
        case 0 => ds := ClearTab(ds, ds.cursorCol);
        case 3 => ClearAllTabs();
        case _ =>
      }
    }

    method DecMode(param: int, on: bool)
      requires Valid()
      modifies this
      ensures State() == SetDecMode(old(State()), param, on)
    {
      match param {
        case 1 => ds := ds.(modes := ds.modes.(applicationKeys := on));
        case 3 =>
          ds := MoveRow(ds, 0, false);
          ds := MoveCol(ds, 0, false);
          ClearRows(0, ds.height);
        case 5 => ds := ds.(modes := ds.modes.(reverseVideo := on));
        case 6 =>
          ds := MoveRow(ds, 0, false);
          ds := MoveCol(ds, 0, false);
          ds := ds.(modes := ds.modes.(originMode := on));
        case 7 => ds := ds.(modes := ds.modes.(autoWrap := on));
        case 25 => ds := ds.(modes := ds.modes.(cursorVisible := on));
        case 2004 => ds := ds.(modes := ds.modes.(bracketedPaste := on));
        case _ =>
      }
    }

    method DecModes(params: seq<int>, on: bool)
      requires Valid()
      modifies this
      ensures State() == SetDecModes(old(State()), params, on)
    {
      hide SetDecMode, WellFormed;
      ghost var end := SetDecModes(State(), params, on);
      var i := 0;
      assert params[0..] == params;
      while i < |params|
        invariant 0 <= i <= |params|
        invariant Valid() && SetDecModes(State(), params[i..], on) == end
      {
        assert params[i..][1..] == params[i + 1..];
        DecMode(GetParam(params, i, 0), on);
        i := i + 1;
      }
    }

    method InsertMode(params: seq<int>, on: bool)
      requires Valid()
      modifies this`ds
      ensures ds == PerformOnState(old(ds), if on then SetMode else ClearMode, params)
    {
      var i := 0;
      while i < |params|
        invariant 0 <= i <= |params|
        invariant var named := exists j | 0 <= j < i :: GetParam(params, j, 0) == 4;
          ds == if named then old(ds).(modes := old(ds).modes.(insertMode := on)) else old(ds)
      {
        if GetParam(params, i, 0) == 4 {
          ds := ds.(modes := ds.modes.(insertMode := on));
        }
        i := i + 1;
      }
    }

    method SelectRenditions(params: seq<int>)
      modifies this`ds
      ensures ds == old(ds).(ren := ApplySgr(old(ds.ren), params, 0))
    {
      hide SetForeground, SetBackground, SetRendition, ReadTrueColor;
      var ren := ds.ren;
      var i := 0;
      while i < |params|
        invariant 0 <= i <= |params| && ds == old(ds)
        invariant ApplySgr(ren, params, i) == ApplySgr(ds.ren, params, 0)
      {
        var rendition := GetParam(params, i, 0);
        if (rendition == 38 || rendition == 48) && |params| - i >= 3 && GetParam(params, i + 1, -1) == 5 {
          var color := GetParam(params, i + 2, 0);
          ren := if rendition == 38 then SetForeground(ren, color) else SetBackground(ren, color);
          i := i + 3;
          continue;
        }
        if (rendition == 38 || rendition == 48) && |params| - i >= 5 && GetParam(params, i + 1, -1) == 2 {
          var color := ReadTrueColor(GetParam(params, i + 2, 0), GetParam(params, i + 3, 0),
            GetParam(params, i + 4, 0));
          ren := if rendition == 38 then SetForeground(ren, color) else SetBackground(ren, color);
          i := i + 5;
          continue;
        }
        ren := SetRendition(ren, rendition);
        i := i + 1;
      }
      ds := ds.(ren := ren);
    }

    // ---------- erasing ----------

    method EraseLine(mode: int)
      requires Valid()
      modifies this`rows
      ensures State() == EraseInLine(old(State()), mode)
    {
      match mode {
        case 0 => ClearCells(ds.cursorCol, ds.width - 1);
        case 1 => ClearCells(0, ds.cursorCol);
        case 2 =>
          ResetRow(ds.cursorRow);
          assert rows == EraseInLine(old(State()), mode).rows;
        case _ =>
      }
    }

    method EraseDisplay(mode: int)
      requires Valid()
      modifies this`rows
      ensures State() == EraseInDisplay(old(State()), mode)
    {
      match mode {
        case 0 =>
          ClearCells(ds.cursorCol, ds.width - 1);
          ClearRows(ds.cursorRow + 1, ds.height);
        case 1 =>
          ClearRows(0, ds.cursorRow);
          ClearCells(0, ds.cursorCol);
        case 2 => ClearRows(0, ds.height);
        case _ =>
      }
    }

    method EraseChars(count: int)
      requires Valid()
      modifies this`rows
      ensures State() == EraseForward(old(State()), count)
    {
      var limit := ds.cursorCol + count - 1;
      if limit >= ds.width { limit := ds.width - 1; }
      ClearCells(ds.cursorCol, limit);
    }

    method FillWithE()
      requires Valid()
      modifies this`rows
      ensures State() == Align(old(State()))
    {
      ghost var e := Blank(ds.ren.bg).(contents := "E");
      var y := 0;
      while y < ds.height
        invariant 0 <= y <= ds.height == |rows|
        invariant forall i | 0 <= i < |rows| :: |rows[i]| == ds.width
        invariant forall i, x | 0 <= i < y && 0 <= x < ds.width :: rows[i][x] == e
      {
        var x := 0;
        while x < ds.width
          invariant 0 <= x <= ds.width && |rows| == ds.height
          invariant forall i | 0 <= i < |rows| :: |rows[i]| == ds.width
          invariant forall i, j | 0 <= i < y && 0 <= j < ds.width :: rows[i][j] == e
          invariant forall j | 0 <= j < x :: rows[y][j] == e
        {
          ResetCell(y, x);
          rows := rows[y := rows[y][x := rows[y][x].(contents := "E")]];
          x := x + 1;
        }
        y := y + 1;
      }
      ghost var target := Align(old(State())).rows;
      forall i | 0 <= i < |rows|
        ensures rows[i] == target[i]
      {
        assert |rows[i]| == |target[i]|;
      }
      assert rows == target;
    }

    // ---------- a new size ----------

    method SetSize(width: int, height: int)
      requires Valid()
      modifies this
      ensures State() == Resize(old(State()), width, height)
    {
      hide ResizeState;
      ghost var s := State();
      var w, h := Clamp(width, 1, MAX_DIMENSION), Clamp(height, 1, MAX_DIMENSION);
      var oldHeight, oldWidth := ds.height, ds.width;
      ds := ResizeState(ds, w, h);
      var bg := s.ds.ren.bg;
      var blank := BlankRow(w, ds.ren.bg);
      if oldHeight != h {
        rows := if h <= |rows| then rows[..h] else rows + seq(h - |rows|, _ => blank);
      }
      if oldWidth != w {
        var y := 0;
        while y < |rows| && y < oldHeight
          invariant 0 <= y <= |rows| == h && ds == ResizeState(s.ds, w, h)
          invariant forall i | 0 <= i < y && i < oldHeight :: rows[i] == ResizedRow(s.rows[i], w, s.ds.ren.bg)
          invariant forall i | y <= i < |rows| && i < oldHeight :: rows[i] == s.rows[i]
          invariant forall i | oldHeight <= i < |rows| :: rows[i] == blank
        {
          var row := SetRowWrap(rows[y], false);
          row := if w <= |row| then row[..w] else row + BlankRow(w - |row|, ds.ren.bg);
          rows := rows[y := row];
          y := y + 1;
        }
      }
      hide ResizedRow, SetRowWrap;
      assert rows == Resize(s, width, height).rows;
    }

    // ---------- one action ----------

    method Take(a: Action)
      requires Valid()
      modifies this
      ensures State() == Act(old(State()), a) && Valid()
    {
      match a {
        case Print(ch, width) => PrintChar(ch, width);
        case Run(f, params) =>
          if ClearsWrap(f) {
            ds := ds.(nextPrintWillWrap := false);
          }
          if OnState(f) {
            TakeOnState(f, params);
          } else {
            TakeOnCells(f, params);
          }
      }
    }

    method TakeOnState(f: Function, params: seq<int>)
      requires Valid() && OnState(f)
      modifies this`ds
      ensures ds == PerformOnState(old(ds), f, params)
    {
      hide MoveRow, MoveCol, SetScrollingRegion, TabBy, ClearTabs, SetTab, ApplySgr;
      hide Screens.SaveCursor, Screens.RestoreCursor, Screens.SoftReset, WellFormedRows;
      var n := GetParam(params, 0, 1);
      match f {
        case CursorUp => ds := MoveRow(ds, -n, true);
        case CursorDown => ds := MoveRow(ds, n, true);
        case CursorForward => ds := MoveCol(ds, n, true);
        case CursorBack => ds := MoveCol(ds, -n, true);
        case CursorPosition =>
          ds := MoveRow(ds, n - 1, false);
          ds := MoveCol(ds, GetParam(params, 1, 1) - 1, false);
        case LinePosition => ds := MoveRow(ds, n - 1, false);
        case CharPosition => ds := MoveCol(ds, n - 1, false);
        case CarriageReturn => ds := MoveCol(ds, 0, false);
        case Backspace => ds := MoveCol(ds, -1, true);
        case TabForward => MoveTabs(n);
        case TabBackward => MoveTabs(-n);
        case Tab => MoveTabs(1);
        case TabClear =>
          ClearTabStops(GetParam(params, 0, 0));
        case TabSet => ds := SetTab(ds);
        case SetMode => InsertMode(params, true);
        case ClearMode => InsertMode(params, false);
        case SetMargins =>
          var bottom := GetParam(params, 1, ds.height);
          if bottom <= n || n > ds.height { return; }
          ds := SetScrollingRegion(ds, n - 1, bottom - 1);
          ds := MoveRow(ds, 0, false);
          ds := MoveCol(ds, 0, false);
        case SelectRendition => SelectRenditions(params);
        case SaveCursor => ds := Screens.SaveCursor(ds);
        case RestoreCursor => ds := Screens.RestoreCursor(ds);
        case SoftReset => ds := Screens.SoftReset(ds);
      }
    }

    method TakeOnCells(f: Function, params: seq<int>)
      requires Valid() && !OnState(f)
      modifies this
      ensures State() == PerformOnCells(old(State()), f, params)
    {
      hide EraseInLine, EraseInDisplay, EraseForward, InsertLine, DeleteLine, MoveCol, InsertCells, DeleteCells;
      hide Screens.Scroll, Align, SetDecModes, MoveRowsAutoscroll;
      var n := GetParam(params, 0, 1);
      match f {
        case EraseLine => EraseLine(GetParam(params, 0, 0));
        case EraseDisplay => EraseDisplay(GetParam(params, 0, 0));
        case EraseChars => EraseChars(n);
        case InsertLines =>
          InsertLines(ds.cursorRow, n);
          ds := MoveCol(ds, 0, false);
        case DeleteLines =>
          DeleteLines(ds.cursorRow, n);
          ds := MoveCol(ds, 0, false);
        case InsertChars => InsertChars(n);
        case DeleteChars => DeleteChars(n);
        case ScrollUp => Scroll(n);
        case ScrollDown => Scroll(-n);
        case Alignment => FillWithE();
        case HardReset =>
          ds := InitialState(ds.width, ds.height);
          var w, h := ds.width, ds.height;
          rows := seq(h, _ => BlankRow(w, 0));
          assert rows == Reset(old(State())).rows;
        case SetPrivateMode => DecModes(params, true);
        case ClearPrivateMode => DecModes(params, false);
        case LineFeed => MoveRows(1);
        case ReverseIndex => MoveRows(-1);
        case NextLine =>
          ds := MoveCol(ds, 0, false);
          MoveRows(1);
        case Other =>
      }
    }
  }
}

/** The writer of a frame: the operations so far, and what it believes they have done to the terminal. */
module FrameStates {
  import opened Rendition
  import opened Screens
  import opened Actions
  import opened Views
  import opened ScreenLaws

  /** Two cells nobody can tell apart. */
  predicate Alike(a: Cell, b: Cell) {
    Grapheme(a) == Grapheme(b) && a.wide == b.wide && a.ren == b.ren
  }

  predicate RowsAlike(a: Row, b: Row) {
    |a| == |b| && forall x | 0 <= x < |a| :: Alike(a[x], b[x])
  }

  predicate SameButRow(a: seq<Row>, b: seq<Row>, y: int) {
    |a| == |b| && forall i | 0 <= i < |a| && i != y :: a[i] == b[i]
  }

  predicate SameOutside(a: Row, b: Row, from: int, to: int) {
    |a| == |b| && forall x | 0 <= x < |a| && !(from <= x < to) :: a[x] == b[x]
  }

  /** The character a one-column cell is drawn with. */
  function Character(cell: Cell): char
    requires |cell.contents| <= 1
  {
    if cell.contents == "" then ' ' else cell.contents[0]
  }

  // ---------- the operations a move is written in ----------

  function Repeated(op: Action, n: nat): (r: seq<Action>)
    ensures |r| == n
  {
    seq(n, _ => op)
  }

  /** A move from where the cursor is believed to be, by the shortest way there is. */
  function MoveOps(lastX: int, lastY: int, y: int, x: int): seq<Action> {
    if lastX != -1 && lastY != -1 && x == 0 && 0 <= y - lastY < 5 then
      (if lastX != 0 then [Run(CarriageReturn, [])] else []) + Repeated(Run(LineFeed, []), y - lastY)
    else if lastX != -1 && lastY != -1 && y == lastY && -5 < x - lastX < 0 then Repeated(Run(Backspace, []), lastX - x)
    else [Run(CursorPosition, [y + 1, x + 1])]
  }

  lemma WaysThere(lastX: int, lastY: int, y: int, x: int)
    ensures var known := lastX != -1 && lastY != -1;
      var down, back := known && x == 0 && 0 <= y - lastY < 5, known && y == lastY && -5 < x - lastX < 0;
      && (down ==> MoveOps(lastX, lastY, y, x)
                   == (if lastX != 0 then [Run(CarriageReturn, [])] else []) + Repeated(Run(LineFeed, []), y - lastY))
      && (!down && back ==> MoveOps(lastX, lastY, y, x) == Repeated(Run(Backspace, []), lastX - x))
      && (!down && !back ==> MoveOps(lastX, lastY, y, x) == [Run(CursorPosition, [y + 1, x + 1])])
  {
  }

  function SilentMoveOps(visible: bool, lastX: int, lastY: int, y: int, x: int): seq<Action> {
    if lastX == x && lastY == y then []
    else (if visible then [Switch(Visible, false)] else []) + MoveOps(lastX, lastY, y, x)
  }

  /** A frame as far as it is written, and where and in what state it is believed to leave the cursor. */
  datatype Draft = Draft(ops: seq<Action>, x: int, y: int, ren: Renditions, visible: bool)
  {
    function Emit(more: seq<Action>): Draft {
      this.(ops := ops + more)
    }

    function Move(row: int, col: int): Draft {
      if x == col && y == row then this
      else Draft(ops + SilentMoveOps(visible, x, y, row, col), col, row, ren, false)
    }

    function Style(r: Renditions, force: bool): Draft {
      if force || ren != r then Emit([Run(SelectRendition, Sgr(r))]).(ren := r) else this
    }

    function At(row: int, col: int): Draft {
      this.(x := col, y := row)
    }
  }

  lemma {:induction false} BackspacesDone(t: Screen, n: nat)
    requires Ready(t) && n <= t.ds.cursorCol
    ensures var r := RunAll(t, Repeated(Run(Backspace, []), n));
      Ready(r) && Look(r) == if n == 0 then Look(t) else MovedTo(Look(t), t.ds.cursorRow, t.ds.cursorCol - n)
    decreases n
  {
    hide Act, WellFormed;
    if n > 0 {
      BacksUp(t);
      assert Repeated(Run(Backspace, []), n)[1..] == Repeated(Run(Backspace, []), n - 1);
      BackspacesDone(Act(t, Run(Backspace, [])), n - 1);
    }
  }

  lemma {:induction false} LineFeedsDone(t: Screen, n: nat)
    requires Ready(t) && WholeRegion(Look(t)) && t.ds.cursorRow + n < t.ds.height
    ensures var r := RunAll(t, Repeated(Run(LineFeed, []), n));
      Ready(r) && Look(r) == if n == 0 then Look(t) else MovedTo(Look(t), t.ds.cursorRow + n, t.ds.cursorCol)
    decreases n
  {
    hide Act, WellFormed;
    ReadyInShape(t);
    if n > 0 {
      Feeds(t);
      assert Repeated(Run(LineFeed, []), n)[1..] == Repeated(Run(LineFeed, []), n - 1);
      LineFeedsDone(Act(t, Run(LineFeed, [])), n - 1);
    }
  }

  /** A move that goes by distance, or that is no move at all: it ends as far off as the belief about its start. */
  predicate GoesByDistance(lastX: int, lastY: int, y: int, x: int) {
    y == lastY && x != 0 && 0 <= lastX - x < 5
  }

  /**
   * What a move does when the cursor stands one column left of where it is believed to be. It ends in its place by
   * any way but by distance, and by that one column left of it.
   */
  lemma StaleMove(t: Screen, visible: bool, y: int, x: int)
    requires Ready(t) && WholeRegion(Look(t)) && !t.ds.nextPrintWillWrap && t.ds.cursorCol + 1 < t.ds.width
    requires 0 <= y < t.ds.height && 0 <= x < t.ds.width
    ensures var lastX, lastY := t.ds.cursorCol + 1, t.ds.cursorRow;
      var r := RunAll(t, SilentMoveOps(visible, lastX, lastY, y, x));
      && Ready(r)
      && var at := if GoesByDistance(lastX, lastY, y, x) then x - 1 else x;
         Look(r) == MovedTo(Look(t), y, at).(visible := Look(r).visible)
  {
    hide Act, WellFormed;
    ReadyInShape(t);
    var lastX, lastY := t.ds.cursorCol + 1, t.ds.cursorRow;
    if lastX != x || lastY != y {
      var hidden := if visible then Act(t, Switch(Visible, false)) else t;
      if visible {
        Switches(t, Visible, false);
        RunAllAppend(t, [Switch(Visible, false)], MoveOps(lastX, lastY, y, x));
        assert RunAll(t, [Switch(Visible, false)]) == RunAll(hidden, []);
      } else {
        assert [] + MoveOps(lastX, lastY, y, x) == MoveOps(lastX, lastY, y, x);
      }
      StaleWay(hidden, y, x);
    }
  }

  lemma StaleWay(t: Screen, y: int, x: int)
    requires Ready(t) && WholeRegion(Look(t)) && !t.ds.nextPrintWillWrap && t.ds.cursorCol + 1 < t.ds.width
    requires 0 <= y < t.ds.height && 0 <= x < t.ds.width && (t.ds.cursorCol + 1 != x || t.ds.cursorRow != y)
    ensures var lastX, lastY := t.ds.cursorCol + 1, t.ds.cursorRow;
      var r := RunAll(t, MoveOps(lastX, lastY, y, x));
      Ready(r) && Look(r) == MovedTo(Look(t), y, if GoesByDistance(lastX, lastY, y, x) then x - 1 else x)
  {
    hide Act, WellFormed, Repeated;
    ReadyInShape(t);
    var lastX, lastY := t.ds.cursorCol + 1, t.ds.cursorRow;
    if x == 0 && 0 <= y - lastY < 5 {
      var returned := Act(t, Run(CarriageReturn, []));
      Returns(t);
      RunAllAppend(t, [Run(CarriageReturn, [])], Repeated(Run(LineFeed, []), y - lastY));
      assert RunAll(t, [Run(CarriageReturn, [])]) == RunAll(returned, []);
      LineFeedsDone(returned, y - lastY);
    } else if y == lastY && -5 < x - lastX < 0 {
      BackspacesDone(t, lastX - x);
    } else {
      Positions(t, y, x);
      assert RunAll(t, [Run(CursorPosition, [y + 1, x + 1])])
        == RunAll(Act(t, Run(CursorPosition, [y + 1, x + 1])), []);
    }
  }

  const CLEARING := [Run(Function.SetMargins, []), Run(SelectRendition, [0]), Run(CursorPosition, []),
    Run(EraseDisplay, [2])]

  class FrameState {
    var ops: seq<Action>
    var cursorX: int
    var cursorY: int
    var ren: Renditions
    var visible: bool

    /** The terminal before the frame, and with the operations so far performed. */
    ghost var start: Screen
    ghost var term: Screen

    ghost predicate Valid()
      reads this`ops, this`start, this`term
      ensures Valid() ==> InShape(Seen())
    {
      WellFormed(start) && term == RunAll(start, ops) && Ready(term) && InShape(Seen())
    }

    ghost function Seen(): View
      reads this`term
    {
      Look(term)
    }

    /** The cursor is where the frame believes, one past the last column standing for a wrap that is pending there. */
    ghost predicate CursorKnown()
      reads this
    {
      && cursorY == Seen().y
      && if Seen().pending then Seen().x == Seen().width - 1 && cursorX == Seen().width else cursorX == Seen().x
    }

    function Drafted(): Draft
      reads this`ops, this`cursorX, this`cursorY, this`ren, this`visible
    {
      Draft(ops, cursorX, cursorY, ren, visible)
    }

    ghost predicate StyleKnown()
      reads this
    {
      ren == Seen().ren && visible == Seen().visible
    }

    ghost predicate CursorUnknown()
      reads this
    {
      cursorX == -1 && cursorY == -1
    }

    /** What the frame believes of the terminal is so. */
    ghost predicate Believing()
      reads this
    {
      Valid() && StyleKnown() && (CursorUnknown() || CursorKnown())
    }

    /** Sound beliefs, with the whole screen as the scrolling region. */
    ghost predicate Tracking()
      reads this
    {
      Believing() && WholeRegion(Seen())
    }

    /** The end of row `y - 1` has just been drawn and the next character will wrap to row `y`. */
    ghost predicate AboutToWrap(y: int)
      reads this
    {
      && Valid() && StyleKnown() && WholeRegion(Seen())
      && Seen().pending && Seen().x == Seen().width - 1 && Seen().y == y - 1
      && cursorX == 0 && cursorY == y
    }

    constructor (visible: bool, ghost t: Screen)
      requires Ready(t)
      ensures Valid() && ops == [] && start == t && Seen() == Look(t) && this.visible == visible
      ensures cursorX == 0 && cursorY == 0 && ren == INITIAL
    {
      ops := [];
      cursorX, cursorY := 0, 0;
      ren := INITIAL;
      this.visible := visible;
      start, term := t, t;
      new;
      ReadyInShape(t);
    }

    /** Performing the operations written so far makes the terminal look as the frame says. */
    lemma Performed()
      requires Valid()
      ensures WellFormed(start) && Ready(RunAll(start, ops)) && Look(RunAll(start, ops)) == Seen() && InShape(Seen())
    {
    }

    method Append(op: Action)
      requires Valid() && Ready(Act(term, op))
      modifies this`ops, this`term
      ensures Valid() && term == Act(old(term), op) && ops == old(ops) + [op]
    {
      hide Act, Ready, Look, InShape;
      RunAllAppend(start, ops, [op]);
      assert RunAll(term, [op]) == RunAll(Act(term, op), []);
      ops := ops + [op];
      term := Act(term, op);
      ReadyInShape(term);
    }

    method Return()
      requires Valid()
      modifies this`ops, this`term
      ensures Valid() && Seen() == MovedTo(old(Seen()), old(Seen()).y, 0)
      ensures ops == old(ops) + [Run(CarriageReturn, [])]
    {
      hide Act;
      Returns(term);
      Append(Run(CarriageReturn, []));
    }

    method Position(y: int, x: int)
      requires Valid() && 0 <= y < Seen().height && 0 <= x < Seen().width
      modifies this`ops, this`term
      ensures Valid() && Seen() == MovedTo(old(Seen()), y, x)
      ensures ops == old(ops) + [Run(CursorPosition, [y + 1, x + 1])]
    {
      hide Act;
      Positions(term, y, x);
      Append(Run(CursorPosition, [y + 1, x + 1]));
    }

    method Feed()
      requires Valid() && (Seen().bottom > 0 || Seen().height == 1)
      modifies this`ops, this`term
      ensures Valid() && Seen() == Fed(old(Seen())) && ops == old(ops) + [Run(LineFeed, [])]
    {
      hide Act;
      Feeds(term);
      Append(Run(LineFeed, []));
    }

    /** Line feeds that stay above the bottom of the screen only move down. */
    method FeedDown(n: nat)
      requires Valid() && WholeRegion(Seen()) && Seen().y + n < Seen().height
      modifies this`ops, this`term
      ensures Valid() && Seen() == if n == 0 then old(Seen())
        else MovedTo(old(Seen()), old(Seen()).y + n, old(Seen()).x)
      ensures ops == old(ops) + Repeated(Run(LineFeed, []), n)
    {
      hide Valid, Seen, Ready, Look;
      ghost var v := Seen();
      var i := 0;
      while i < n
        invariant 0 <= i <= n
        invariant Valid() && Seen() == if i == 0 then v else MovedTo(v, v.y + i, v.x)
        invariant ops == old(ops) + Repeated(Run(LineFeed, []), i)
      {
        Feed();
        i := i + 1;
      }
    }

    method BackUp(n: nat)
      requires Valid() && n <= Seen().x
      modifies this`ops, this`term
      ensures Valid() && Seen() == if n == 0 then old(Seen())
        else MovedTo(old(Seen()), old(Seen()).y, old(Seen()).x - n)
      ensures ops == old(ops) + Repeated(Run(Backspace, []), n)
    {
      hide Act, Ready;
      ghost var v := Seen();
      var i := 0;
      while i < n
        invariant 0 <= i <= n
        invariant Valid() && Seen() == if i == 0 then v else MovedTo(v, v.y, v.x - i)
        invariant ops == old(ops) + Repeated(Run(Backspace, []), i)
      {
        BacksUp(term);
        Append(Run(Backspace, []));
        i := i + 1;
      }
    }

    /** To the first column of a row below, or of this one, by a return if one is needed and line feeds. */
    method ReturnDown(lastX: int, n: nat)
      requires Valid() && WholeRegion(Seen()) && Seen().y + n < Seen().height
      requires lastX == 0 ==> Seen().x == 0 && !Seen().pending
      modifies this`ops, this`term
      ensures Valid() && Seen() == MovedTo(old(Seen()), old(Seen()).y + n, 0)
      ensures ops == old(ops) + (if lastX != 0 then [Run(CarriageReturn, [])] else []) + Repeated(Run(LineFeed, []), n)
    {
      hide Ready, InShape, Look, Repeated;
      if lastX != 0 { Return(); }
      FeedDown(n);
    }

    /**
     * Move the cursor. A backspace from the column past the end starts one column further left than the
     * frame believes, because there the terminal's cursor is still on the last column.
     */
    method AppendMove(y: int, x: int)
      requires Believing() && (CursorUnknown() || WholeRegion(Seen()))
      requires 0 <= y < Seen().height && 0 <= x < Seen().width
      modifies this`ops, this`term, this`cursorX, this`cursorY
      ensures Valid() && cursorX == x && cursorY == y && ops == old(ops) + MoveOps(old(cursorX), old(cursorY), y, x)
      ensures var past := old(cursorX) == old(Seen()).width && old(cursorY) == y && 0 < x && x > old(Seen()).width - 5;
        Seen() == MovedTo(old(Seen()), y, if past then x - 1 else x)
    {
      WaysThere(cursorX, cursorY, y, x);
      hide Valid, Seen, Ready, Look, Repeated, MoveOps;
      var lastX, lastY := cursorX, cursorY;
      cursorX, cursorY := x, y;
      if lastX != -1 && lastY != -1 {
        if x == 0 && y - lastY >= 0 && y - lastY < 5 {
          ReturnDown(lastX, y - lastY);
          return;
        }
        if y == lastY && x - lastX < 0 && x - lastX > -5 {
          BackUp(lastX - x);
          return;
        }
      }
      Position(y, x);
    }

    method SwitchMode(m: Mode, on: bool)
      requires Valid()
      modifies this`ops, this`term
      ensures Valid() && Seen() == Switched(old(Seen()), m, on) && ops == old(ops) + [Switch(m, on)]
    {
      hide Act;
      Switches(term, m, on);
      Append(Switch(m, on));
    }

    /** A move with the cursor switched off before it, unless it is where it should be or off already. */
    method AppendSilentMove(y: int, x: int)
      requires Believing() && (CursorUnknown() || WholeRegion(Seen()))
      requires 0 <= y < Seen().height && 0 <= x < Seen().width
      modifies this`ops, this`term, this`cursorX, this`cursorY, this`visible
      ensures Valid() && StyleKnown() && cursorX == x && cursorY == y
      ensures Drafted() == old(Drafted()).Move(y, x)
      ensures var past := old(cursorX) == old(Seen()).width && old(cursorY) == y && 0 < x && x > old(Seen()).width - 5;
        && Seen() == MovedTo(old(Seen()), y, if past then x - 1 else x).(visible := visible)
        && (!past ==> Believing())
    {
      hide Valid, Seen, Ready, Look, MoveOps;
      if cursorX == x && cursorY == y { return; }
      if visible {
        SwitchMode(Visible, false);
        visible := false;
      }
      AppendMove(y, x);
    }

    method UpdateRendition(r: Renditions, force: bool)
      requires Valid() && Canonical(r) && ren == Seen().ren
      modifies this`ops, this`term, this`ren
      ensures Valid() && ren == r && Seen() == old(Seen()).(ren := r)
      ensures Drafted() == old(Drafted()).Style(r, force)
    {
      hide Act, Sgr, Canonical, Ready;
      if force || ren != r {
        Selects(term, r);
        Append(Run(SelectRendition, Sgr(r)));
        ren := r;
      }
    }

    /** Move the cursor to where something is to be written in a rendition. */
    method Approach(y: int, x: int, r: Renditions)
      requires Believing() && WholeRegion(Seen()) && Canonical(r)
      requires 0 <= y < Seen().height && 0 <= x < Seen().width
      requires cursorX == Seen().width ==> cursorY != y || x == 0
      modifies this`ops, this`term, this`ren, this`cursorX, this`cursorY, this`visible
      ensures Believing() && cursorX == x && cursorY == y && ren == r
      ensures Seen() == MovedTo(old(Seen()), y, x).(visible := visible, ren := r)
      ensures Drafted() == old(Drafted()).Move(y, x).Style(r, false)
    {
      hide Valid, Seen, Canonical, SilentMoveOps, Sgr;
      AppendSilentMove(y, x);
      UpdateRendition(r, false);
    }

    method Write(ch: char)
      requires Valid() && !Seen().pending
      modifies this`ops, this`term
      ensures Valid() && Seen() == Written(old(Seen()), ch) && ops == old(ops) + [Print(ch, 1)]
    {
      hide Act;
      Writes(term, ch);
      Append(Print(ch, 1));
    }

    method WriteWrapped(ch: char)
      requires Valid() && Seen().pending && Seen().y < Seen().height - 1 && WholeRegion(Seen())
      modifies this`ops, this`term
      ensures InShape(Wrapped(old(Seen())))
      ensures Valid() && Seen() == Written(Wrapped(old(Seen())), ch) && ops == old(ops) + [Print(ch, 1)]
    {
      hide Act;
      WrapsAndWrites(term, ch);
      Append(Print(ch, 1));
    }

    /** A run of spaces within a row. */
    method WriteSpaces(n: nat)
      requires Valid() && !Seen().pending && n > 0 && Seen().x + n <= Seen().width
      modifies this`ops, this`term
      ensures Valid()
      ensures var v, v' := old(Seen()), Seen();
        && SameButRow(v'.rows, v.rows, v.y) && SameOutside(v'.rows[v.y], v.rows[v.y], v.x, v.x + n)
        && (forall x | v.x <= x < v.x + n :: v'.rows[v.y][x] == Glyph(' ', v.ren))
        && v' == v.(rows := v'.rows,
                    x := if v.x + n < v.width then v.x + n else v.width - 1,
                    pending := v.x + n == v.width)
      ensures ops == old(ops) + Repeated(Print(' ', 1), n)
    {
      hide Valid, Seen;
      ghost var v := Seen();
      var i := 0;
      while i < n
        invariant 0 <= i <= n
        invariant Valid()
        invariant Seen() == v.(rows := Seen().rows,
                               x := if v.x + i < v.width then v.x + i else v.width - 1,
                               pending := v.x + i == v.width)
        invariant SameButRow(Seen().rows, v.rows, v.y) && SameOutside(Seen().rows[v.y], v.rows[v.y], v.x, v.x + i)
        invariant forall x | v.x <= x < v.x + i :: Seen().rows[v.y][x] == Glyph(' ', v.ren)
        invariant ops == old(ops) + Repeated(Print(' ', 1), i)
      {
        Write(' ');
        i := i + 1;
      }
    }

    method EraseNext(n: nat)
      requires Valid() && n > 0 && Seen().x + n <= Seen().width
      modifies this`ops, this`term
      ensures Valid() && Seen() == ErasedTo(old(Seen()), old(Seen()).x + n - 1)
      ensures ops == old(ops) + [Run(EraseChars, [n])]
    {
      hide Act;
      ErasesChars(term, n);
      Append(Run(EraseChars, [n]));
    }

    method EraseRest()
      requires Valid()
      modifies this`ops, this`term
      ensures Valid() && Seen() == ErasedTo(old(Seen()), old(Seen()).width - 1)
      ensures ops == old(ops) + [Run(EraseLine, [])]
    {
      hide Act;
      ErasesLine(term);
      Append(Run(EraseLine, []));
    }

    /** Line feeds at the bottom of the region move it up, a line each. */
    method FeedAtBottom(n: nat)
      requires Valid() && Seen().y == Seen().bottom && !Seen().pending && (Seen().bottom > 0 || Seen().height == 1)
      modifies this`ops, this`term
      ensures Valid()
      ensures var v := old(Seen());
        Seen() == v.(rows := LinesDeleted(v.rows, v.top, v.bottom, v.top, n, BlankRow(v.width, v.ren.bg)))
      ensures ops == old(ops) + Repeated(Run(LineFeed, []), n)
    {
      hide LinesDeleted, BlankRow, Valid, Seen;
      ghost var v := Seen();
      ghost var blank := BlankRow(v.width, v.ren.bg);
      DeleteLinesInBulk(v.rows, v.top, v.bottom, v.top, 0, blank);
      var i := 0;
      while i < n
        invariant 0 <= i <= n
        invariant Valid() && Seen() == v.(rows := LinesDeleted(v.rows, v.top, v.bottom, v.top, i, blank))
        invariant ops == old(ops) + Repeated(Run(LineFeed, []), i)
      {
        Feed();
        DeleteLinesInBulk(v.rows, v.top, v.bottom, v.top, i, blank);
        DeleteLinesInBulk(v.rows, v.top, v.bottom, v.top, i + 1, blank);
        i := i + 1;
      }
    }

    method SetMargins(bottom: int)
      requires Valid() && 0 < bottom < Seen().height
      modifies this`ops, this`term
      ensures Valid() && Seen() == MovedTo(old(Seen()), 0, 0).(top := 0, bottom := bottom)
      ensures ops == old(ops) + [Run(Function.SetMargins, [1, bottom + 1])]
    {
      hide Act;
      Views.SetsMargins(term, bottom);
      Append(Run(Function.SetMargins, [1, bottom + 1]));
    }

    method ResetMargins()
      requires Valid()
      modifies this`ops, this`term
      ensures Valid() && Seen() == Margins(old(Seen()), 0, old(Seen()).height - 1)
      ensures ops == old(ops) + [Run(Function.SetMargins, [])]
    {
      hide Act;
      ResetsMargins(term);
      Append(Run(Function.SetMargins, []));
    }

    method GoHome()
      requires Valid()
      modifies this`ops, this`term
      ensures Valid() && Seen() == MovedTo(old(Seen()), 0, 0) && ops == old(ops) + [Run(CursorPosition, [])]
    {
      hide Act;
      GoesHome(term);
      Append(Run(CursorPosition, []));
    }

    method EraseAll()
      requires Valid()
      modifies this`ops, this`term
      ensures Valid() && Seen() == old(Seen()).(pending := false, rows := Seen().rows)
      ensures ops == old(ops) + [Run(EraseDisplay, [2])]
      ensures |Seen().rows| == old(Seen()).height
      ensures forall y | 0 <= y < |Seen().rows| :: Seen().rows[y] == BlankRow(old(Seen()).width, old(Seen()).ren.bg)
    {
      hide Act;
      ErasesAll(term);
      Append(Run(EraseDisplay, [2]));
    }

    method ResetRendition()
      requires Valid()
      modifies this`ops, this`term
      ensures Valid() && Seen() == old(Seen()).(ren := INITIAL) && ops == old(ops) + [Run(SelectRendition, [0])]
    {
      hide Act;
      assert Sgr(INITIAL) == [0];
      Selects(term, INITIAL);
      Append(Run(SelectRendition, [0]));
    }

    /** Reset the margins and the rendition, go home and erase everything. */
    method ClearScreen()
      requires Valid()
      modifies this`ops, this`term
      ensures Valid() && ops == old(ops) + CLEARING
      ensures var v, v' := old(Seen()), Seen();
        && v' == MovedTo(v, 0, 0).(top := 0, bottom := v.height - 1, ren := INITIAL, rows := v'.rows)
        && |v'.rows| == v.height && forall y | 0 <= y < |v'.rows| :: v'.rows[y] == BlankRow(v.width, INITIAL.bg)
    {
      hide Valid, Seen;
      ResetMargins();
      ResetRendition();
      GoHome();
      EraseAll();
    }
  }
}

/** The engine that lays guesses over the server's screen, judges them, and makes them again. */
module Predictions {
  import opened Arithmetic
  import opened Options
  import opened Rendition
  import opened Screens
  import opened Overlays

  // ---------- the guesses held, row by row ----------

  predicate RowFits(r: OverlayRow, width: int, height: int) {
    0 <= r.rowNum < height && |r.cells| == width && forall x | 0 <= x < |r.cells| :: r.cells[x].base.col == x
  }

  /** One overlay row at most for each row of the screen, with a cell for every column. */
  predicate RowsFit(rows: seq<OverlayRow>, width: int, height: int) {
    && (forall i | 0 <= i < |rows| :: RowFits(rows[i], width, height))
    && (forall i, j | 0 <= i < j < |rows| :: rows[i].rowNum != rows[j].rowNum)
  }

  predicate CursorsFit(cursors: seq<CursorMove>, width: int, height: int) {
    forall i | 0 <= i < |cursors| :: cursors[i].base.active && 0 <= cursors[i].row < height
      && 0 <= cursors[i].base.col < width
  }

  function RowIndex(rows: seq<OverlayRow>, rowNum: int): (i: nat)
    ensures i <= |rows| && (i < |rows| ==> rows[i].rowNum == rowNum)
    ensures forall j | 0 <= j < i :: rows[j].rowNum != rowNum
  {
    if rows == [] || rows[0].rowNum == rowNum then 0 else 1 + RowIndex(rows[1..], rowNum)
  }

  /** The row as it will stand once every guess has landed. */
  function View(rows: seq<OverlayRow>, fb: Screen, y: int): (v: seq<Option<Cell>>)
    requires WellFormed(fb) && RowsFit(rows, fb.ds.width, fb.ds.height) && 0 <= y < fb.ds.height
    ensures |v| == fb.ds.width
  {
    var i := RowIndex(rows, y);
    if i < |rows| then Guessed(rows[i].cells, fb.rows[y])
    else seq(fb.ds.width, x requires 0 <= x < fb.ds.width => Some(fb.rows[y][x]))
  }

  ghost predicate SameViewsBut(a: seq<OverlayRow>, b: seq<OverlayRow>, fb: Screen, row: int)
    requires WellFormed(fb) && RowsFit(a, fb.ds.width, fb.ds.height) && RowsFit(b, fb.ds.width, fb.ds.height)
  {
    forall y | 0 <= y < fb.ds.height && y != row :: View(a, fb, y) == View(b, fb, y)
  }

  /** Every guess about a cell can be judged only after frame `bound`. */
  predicate Dated(rows: seq<OverlayRow>, bound: nat) {
    forall i, x | 0 <= i < |rows| && 0 <= x < |rows[i].cells| ::
      rows[i].cells[x].base.active ==> rows[i].cells[x].base.expirationFrame > bound
  }

  predicate DatedCells(cells: seq<OverlayCell>, bound: nat) {
    forall x | 0 <= x < |cells| :: cells[x].base.active ==> cells[x].base.expirationFrame > bound
  }

  lemma RowIndexIs(rows: seq<OverlayRow>, i: nat, width: int, height: int)
    requires RowsFit(rows, width, height) && i < |rows|
    ensures RowIndex(rows, rows[i].rowNum) == i
  {
  }

  lemma ReplacedRow(rows: seq<OverlayRow>, i: nat, cells: seq<OverlayCell>, fb: Screen)
    requires WellFormed(fb) && RowsFit(rows, fb.ds.width, fb.ds.height) && i < |rows|
    requires |cells| == fb.ds.width && forall x | 0 <= x < |cells| :: cells[x].base.col == x
    ensures var rows' := rows[i := rows[i].(cells := cells)];
      && RowsFit(rows', fb.ds.width, fb.ds.height)
      && View(rows', fb, rows[i].rowNum) == Guessed(cells, fb.rows[rows[i].rowNum])
      && SameViewsBut(rows', rows, fb, rows[i].rowNum)
      && (forall bound: nat | Dated(rows, bound) && DatedCells(cells, bound) :: Dated(rows', bound))
  {
    var rows' := rows[i := rows[i].(cells := cells)];
    assert forall j | 0 <= j < |rows| :: rows'[j].rowNum == rows[j].rowNum;
    RowIndexIs(rows', i, fb.ds.width, fb.ds.height);
    forall y | 0 <= y < fb.ds.height && y != rows[i].rowNum
      ensures View(rows', fb, y) == View(rows, fb, y)
    {
      SameIndex(rows, rows', y);
    }
  }

  lemma {:induction false} SameIndex(a: seq<OverlayRow>, b: seq<OverlayRow>, y: int)
    requires |a| == |b| && forall j | 0 <= j < |a| :: a[j].rowNum == b[j].rowNum
    ensures RowIndex(a, y) == RowIndex(b, y)
  {
    var i, j := RowIndex(a, y), RowIndex(b, y);
    assert i < |a| ==> b[i].rowNum == y;
    assert j < |b| ==> a[j].rowNum == y;
  }

  lemma AddedFits(rows: seq<OverlayRow>, added: OverlayRow, width: nat, height: int)
    requires RowsFit(rows, width, height) && 0 <= added.rowNum < height && RowIndex(rows, added.rowNum) == |rows|
    requires |added.cells| == width
    requires forall x | 0 <= x < width :: added.cells[x].base.col == x && !added.cells[x].base.active
    ensures RowsFit(rows + [added], width, height)
    ensures forall bound: nat | Dated(rows, bound) :: Dated(rows + [added], bound)
  {
  }

  lemma AddedView(rows: seq<OverlayRow>, added: OverlayRow, fb: Screen, y: int)
    requires WellFormed(fb) && RowsFit(rows, fb.ds.width, fb.ds.height)
      && RowsFit(rows + [added], fb.ds.width, fb.ds.height)
    requires 0 <= y < fb.ds.height && RowIndex(rows, added.rowNum) == |rows|
    requires forall x | 0 <= x < |added.cells| :: !added.cells[x].base.active
    ensures View(rows + [added], fb, y) == View(rows, fb, y)
  {
    hide WellFormed, RowsFit, RowIndex;
    AddedIndex(rows, added, y);
    WidthOf(fb, y);
    if y == added.rowNum {
      RowFound(rows + [added], |rows|, fb);
      assert Guessed(added.cells, fb.rows[y]) == View(rows, fb, y);
    }
  }

  /** A row added where there was none for its number is found under that number, and the others where they were. */
  lemma AddedIndex(rows: seq<OverlayRow>, added: OverlayRow, y: int)
    requires RowIndex(rows, added.rowNum) == |rows|
    ensures var i := RowIndex(rows, y);
      RowIndex(rows + [added], y) == if i < |rows| || y == added.rowNum then i else |rows| + 1
  {
    var rows' := rows + [added];
    var i, j := RowIndex(rows, y), RowIndex(rows', y);
    assert i < |rows| ==> rows'[i].rowNum == y;
    assert j < |rows| ==> rows[j].rowNum == y;
    assert y == added.rowNum ==> rows'[|rows|].rowNum == y;
  }

  lemma AddedRow(rows: seq<OverlayRow>, rowNum: int, epoch: nat, fb: Screen)
    requires WellFormed(fb) && RowsFit(rows, fb.ds.width, fb.ds.height) && 0 <= rowNum < fb.ds.height
    requires RowIndex(rows, rowNum) == |rows|
    ensures var rows' := rows + [NewOverlayRow(rowNum, fb.ds.width, epoch)];
      && RowsFit(rows', fb.ds.width, fb.ds.height)
      && (forall y | 0 <= y < fb.ds.height :: View(rows', fb, y) == View(rows, fb, y))
      && (forall bound: nat | Dated(rows, bound) :: Dated(rows', bound))
  {
    var added := NewOverlayRow(rowNum, fb.ds.width, epoch);
    AddedFits(rows, added, fb.ds.width, fb.ds.height);
    hide View, RowsFit, Dated;
    forall y | 0 <= y < fb.ds.height
      ensures View(rows + [added], fb, y) == View(rows, fb, y)
    {
      AddedView(rows, added, fb, y);
    }
  }

  // ---------- one guess ----------

  /** A cell guessed about anew: what it was guessed to be and what the server shows there are both remembered. */
  function Reguessed(c: OverlayCell, epoch: nat, frame: nat, now: nat, orig: Cell): OverlayCell {
    var cleared := ResetWithOrig(c);
    cleared.(base := Expire(cleared.base.(active := true, tentativeUntilEpoch := epoch), frame, now),
             originals := cleared.originals + [orig])
  }

  lemma ReguessedIs(c: OverlayCell, epoch: nat, frame: nat, now: nat, orig: Cell)
    ensures var g := Reguessed(c, epoch, frame, now, orig);
      && g.base == Overlay(frame, c.base.col, true, epoch, now) && !g.unknown && g.replacement == c.replacement
      && orig in g.originals
  {
  }

  /** A cell guessed to take what its left neighbour holds; what falls off the end of the row is not knowable. */
  function MovedRight(c: OverlayCell, prev: OverlayCell, last: bool, epoch: nat, frame: nat, now: nat,
                      orig: Cell, left: Cell): OverlayCell
  {
    var guess := Reguessed(c, epoch, frame, now, orig);
    if last then guess.(unknown := true)
    else if prev.base.active then
      if prev.unknown then guess.(unknown := true) else guess.(unknown := false, replacement := prev.replacement)
    else guess.(unknown := false, replacement := left)
  }

  lemma MovedRightIs(c: OverlayCell, prev: OverlayCell, last: bool, epoch: nat, frame: nat, now: nat, orig: Cell,
                     left: Cell)
    ensures var g := MovedRight(c, prev, last, epoch, frame, now, orig, left);
      && g.base.active && g.base.col == c.base.col && g.base.expirationFrame == frame && orig in g.originals
      && Predicted(g, orig) == if last then None else Predicted(prev, left)
  {
    ReguessedIs(c, epoch, frame, now, orig);
    hide Reguessed;
  }

  /** Column `x` as typing left of it leaves it: guessed to be what its left neighbour was. */
  ghost predicate TakesLeft(was: seq<OverlayCell>, cells: seq<OverlayCell>, row: Row, x: int, frame: nat)
    requires |was| == |cells| == |row| && 0 < x < |row|
  {
    && cells[x].base.active && cells[x].base.expirationFrame == frame && row[x] in cells[x].originals
    && Predicted(cells[x], row[x]) == if x == |cells| - 1 then None else Predicted(was[x - 1], row[x - 1])
  }

  ghost predicate Shifted(was: seq<OverlayCell>, cells: seq<OverlayCell>, row: Row, col: int, rightmost: int,
                          frame: nat)
    requires |was| == |cells| == |row| && 0 <= col <= rightmost < |row|
  {
    forall x | col < x <= rightmost :: TakesLeft(was, cells, row, x, frame)
  }

  lemma ShiftedStep(was: seq<OverlayCell>, before: seq<OverlayCell>, cells: seq<OverlayCell>, row: Row,
                    i: int, rightmost: int, frame: nat)
    requires |was| == |before| == |cells| == |row| && 0 < i <= rightmost < |row|
    requires Shifted(was, before, row, i, rightmost, frame) && cells == before[i := cells[i]]
    requires TakesLeft(was, cells, row, i, frame)
    ensures Shifted(was, cells, row, i - 1, rightmost, frame)
  {
    forall x | i < x <= rightmost
      ensures TakesLeft(was, cells, row, x, frame)
    {
      assert TakesLeft(was, before, row, x, frame);
      hide Predicted;
    }
    hide TakesLeft;
  }

  method ShiftRight(was: seq<OverlayCell>, row: Row, col: int, rightmost: int, epoch: nat, frame: nat, now: nat)
    returns (cells: seq<OverlayCell>)
    requires |was| == |row| && 0 <= col <= rightmost < |was|
    requires forall x | 0 <= x < |was| :: was[x].base.col == x
    ensures |cells| == |was| && forall x | 0 <= x < |cells| :: cells[x].base.col == x
    ensures forall x | 0 <= x <= col || rightmost < x < |cells| :: cells[x] == was[x]
    ensures Shifted(was, cells, row, col, rightmost, frame)
  {
    hide Predicted;
    cells := was;
    var i := rightmost;
    while i > col
      invariant col <= i <= rightmost && |cells| == |was|
      invariant forall x | 0 <= x < |cells| :: cells[x].base.col == x
      invariant forall x | 0 <= x <= i || rightmost < x < |cells| :: cells[x] == was[x]
      invariant Shifted(was, cells, row, i, rightmost, frame)
    {
      ghost var before := cells;
      assert cells[i - 1] == was[i - 1] && |cells| == |row|;
      MovedRightIs(cells[i], cells[i - 1], i == |cells| - 1, epoch, frame, now, row[i], row[i - 1]);
      hide MovedRight;
      cells := cells[i := MovedRight(cells[i], cells[i - 1], i == |cells| - 1, epoch, frame, now, row[i], row[i - 1])];
      ShiftedStep(was, before, cells, row, i, rightmost, frame);
      i := i - 1;
    }
  }

  /** The guess a column takes over from its right neighbour; the last columns have none to take. */
  function ShiftedLeft(cells: seq<OverlayCell>, row: Row, x: nat): Option<Cell>
    requires |cells| == |row|
  {
    if x + 2 >= |cells| then None else Predicted(cells[x + 1], row[x + 1])
  }

  /** A cell guessed to become `shifted`, dated anew unless that is what was guessed already. */
  function Settled(c: OverlayCell, shifted: Option<Cell>, epoch: nat, frame: nat, now: nat, orig: Cell): OverlayCell {
    var same := if shifted.Some? then !c.unknown && shifted.value == c.replacement else c.unknown;
    if c.base.active && same then c
    else
      var guess := Reguessed(c, epoch, frame, now, orig);
      if shifted.Some? then guess.(unknown := false, replacement := shifted.value) else guess.(unknown := true)
  }

  lemma SettledIs(c: OverlayCell, shifted: Option<Cell>, epoch: nat, frame: nat, now: nat, orig: Cell)
    ensures var g := Settled(c, shifted, epoch, frame, now, orig);
      && g.base.active && g.base.col == c.base.col && Predicted(g, orig) == shifted
      && (g.base.expirationFrame == frame || (c.base.active && g.base.expirationFrame == c.base.expirationFrame))
  {
    ReguessedIs(c, epoch, frame, now, orig);
    hide Reguessed;
  }

  method ShiftLeft(was: seq<OverlayCell>, row: Row, col: int, epoch: nat, frame: nat, now: nat, ghost bound: nat)
    returns (cells: seq<OverlayCell>)
    requires |was| == |row| && 0 <= col < |was|
    requires forall x | 0 <= x < |was| :: was[x].base.col == x
    ensures |cells| == |was| && forall x | 0 <= x < |cells| :: cells[x].base.col == x
    ensures Guessed(cells, row) == Deleted(Guessed(was, row), col)
    ensures DatedCells(was, bound) && frame > bound ==> DatedCells(cells, bound)
  {
    hide Predicted;
    cells := was;
    var i := col;
    while i < |was|
      invariant col <= i <= |was| == |cells|
      invariant forall x | 0 <= x < |cells| :: cells[x].base.col == x
      invariant forall x | 0 <= x < col || i <= x < |cells| :: cells[x] == was[x]
      invariant forall x | col <= x < i :: Predicted(cells[x], row[x]) == ShiftedLeft(was, row, x)
      invariant DatedCells(was, bound) && frame > bound ==> DatedCells(cells, bound)
    {
      var shifted := ShiftedLeft(cells, row, i);
      assert shifted == ShiftedLeft(was, row, i);
      SettledIs(cells[i], shifted, epoch, frame, now, row[i]);
      hide Settled;
      cells := cells[i := Settled(cells[i], shifted, epoch, frame, now, row[i])];
      i := i + 1;
    }
    GuessedShift(was, cells, row, col);
  }

  lemma GuessedShift(was: seq<OverlayCell>, cells: seq<OverlayCell>, row: Row, col: nat)
    requires |was| == |cells| == |row| && col < |row|
    requires forall x | 0 <= x < col :: cells[x] == was[x]
    requires forall x | col <= x < |row| :: Predicted(cells[x], row[x]) == ShiftedLeft(was, row, x)
    ensures Guessed(cells, row) == Deleted(Guessed(was, row), col)
  {
    var a, b := Guessed(cells, row), Deleted(Guessed(was, row), col);
    forall x: nat | x < |row|
      ensures a[x] == b[x]
    {
      DeletedAt(Guessed(was, row), col, x);
    }
  }

  // ---------- the engine ----------

  const SRTT_TRIGGER_LOW := 20
  const SRTT_TRIGGER_HIGH := 30
  const FLAG_TRIGGER_LOW := 50
  const FLAG_TRIGGER_HIGH := 80
  const MAX_IN_FLIGHT := 256
  const DELETE := 0x7f
  const ESCAPE := 0x1b

  datatype Preference = Always | Never | Adaptive | Experimental

  /** What the parser makes of the bytes typed. */
  datatype KeyAction = Print(ch: char) | Execute(ch: char) | EscDispatch | CsiDispatch(ch: char) | Ignored

  datatype Keystroke = Keystroke(byte: int, text: bool, frame: nat, at: nat, epoch: nat)

  /** Frames are numbered from 1, and text is a printing character. */
  predicate KeystrokeFits(k: Keystroke) {
    k.frame >= 1 && (k.text ==> 0x21 <= k.byte <= 0x7e)
  }

  datatype Place = Place(row: int, col: int)

  /** What is guessed of the screen, its cells and where its cursor is, and the epoch guesses are being made in. */
  datatype Guesses = Guesses(rows: seq<OverlayRow>, at: Place, epoch: nat)

  /** The epoch that follows: the same one, when only trying guesses out. */
  function EpochAfter(trying: bool, epoch: nat): nat {
    if trying then epoch else epoch + 1
  }

  ghost predicate Fit(g: Guesses, fb: Screen) {
    && WellFormed(fb) && RowsFit(g.rows, fb.ds.width, fb.ds.height)
    && 0 <= g.at.row < fb.ds.height && 0 <= g.at.col < fb.ds.width
  }

  /** Where the newest of these guesses has the cursor, and where the server has it if there is none. */
  function PlaceOf(cursors: seq<CursorMove>, fb: Screen): Place {
    if cursors == [] then Place(fb.ds.cursorRow, fb.ds.cursorCol)
    else Place(cursors[|cursors| - 1].row, cursors[|cursors| - 1].base.col)
  }

  ghost function NothingGuessed(fb: Screen, epoch: nat): (g: Guesses)
    ensures WellFormed(fb) ==> Fit(g, fb)
  {
    Guesses([], Place(fb.ds.cursorRow, fb.ds.cursorCol), epoch)
  }

  /** The colours of the character left of a column, as guessed if that can be told and else as the server has them. */
  function ColoursLeftOf(view: seq<Option<Cell>>, fb: Screen, row: int, col: int): Renditions
    requires WellFormed(fb) && 0 <= row < fb.ds.height && 0 <= col < fb.ds.width == |view|
  {
    if col == 0 then fb.ds.ren
    else
      WidthOf(fb, row);
      if view[col - 1].Some? then view[col - 1].value.ren else fb.rows[row][col - 1].ren
  }

  /**
   * A character typed: it lands at the cursor in the colours of what is left of it, and the cursor moves on, from the
   * last column to the next line. What an application does at the last column cannot be told, so guesses made there
   * are tentative, and those made after it more so.
   */
  ghost predicate Types(typed: Cell, a: Guesses, b: Guesses, fb: Screen, overwrite: bool, trying: bool)
    requires Fit(a, fb) && Fit(b, fb)
  {
    var was, after := View(a.rows, fb, a.at.row), View(b.rows, fb, a.at.row);
    var landed := if overwrite then was[a.at.col := Some(typed)] else Typed(was, a.at.col, typed);
    && typed.ren == ColoursLeftOf(was, fb, a.at.row, a.at.col)
    && b.epoch == (if a.at.col < fb.ds.width - 1 then a.epoch else EpochAfter(trying, EpochAfter(trying, a.epoch)))
    && SameViewsBut(b.rows, a.rows, fb, a.at.row)
    && if a.at.col < fb.ds.width - 1 then after == landed && b.at == Place(a.at.row, a.at.col + 1)
       else if a.at.row < fb.ds.height - 1 then after == landed && b.at == Place(a.at.row + 1, 0)
       else Blanked(after) && b.at == Place(a.at.row, 0)
  }

  ghost predicate Blanked(view: seq<Option<Cell>>) {
    forall x | 0 <= x < |view| && view[x].Some? :: view[x].value.contents == ""
  }

  /** A return typed: the cursor goes to the next line, or what the last line holds is given up. */
  ghost predicate Returns(a: Guesses, b: Guesses, fb: Screen)
    requires Fit(a, fb) && Fit(b, fb)
  {
    if a.at.row < fb.ds.height - 1 then b == a.(at := Place(a.at.row + 1, 0))
    else
      && b.at == Place(a.at.row, 0) && b.epoch == a.epoch
      && SameViewsBut(b.rows, a.rows, fb, a.at.row) && Blanked(View(b.rows, fb, a.at.row))
  }

  /** The cell left of the cursor erased, if there is one. */
  ghost predicate Backspaces(a: Guesses, b: Guesses, fb: Screen, overwrite: bool)
    requires Fit(a, fb) && Fit(b, fb)
  {
    if a.at.col == 0 then b == a
    else
      var was, after := View(a.rows, fb, a.at.row), View(b.rows, fb, a.at.row);
      WidthOf(fb, a.at.row);
      && b.at == Place(a.at.row, a.at.col - 1) && b.epoch == a.epoch && SameViewsBut(b.rows, a.rows, fb, a.at.row)
      && after == if overwrite then was[a.at.col - 1 := Some(fb.rows[a.at.row][a.at.col - 1].(contents := " "))]
                  else Deleted(was, a.at.col - 1)
  }

  /** Everything from column `start` to the cursor erased. */
  ghost predicate ErasesTo(start: nat, a: Guesses, b: Guesses, fb: Screen, overwrite: bool)
    requires Fit(a, fb) && Fit(b, fb) && start <= a.at.col
  {
    var was, after := View(a.rows, fb, a.at.row), View(b.rows, fb, a.at.row);
    WidthOf(fb, a.at.row);
    && (start == a.at.col ==> b == a)
    && b.at == Place(a.at.row, start) && b.epoch == a.epoch && SameViewsBut(b.rows, a.rows, fb, a.at.row)
    && after == if overwrite then Overwritten(was, fb.rows[a.at.row], start, a.at.col)
                else DeletedSpan(was, a.at.col, a.at.col - start)
  }

  /** The word left of the cursor erased, with the blanks after it. */
  ghost predicate ErasesWord(a: Guesses, b: Guesses, fb: Screen, overwrite: bool)
    requires Fit(a, fb) && Fit(b, fb)
  {
    ErasesTo(WordStart(View(a.rows, fb, a.at.row), a.at.col), a, b, fb, overwrite)
  }

  /**
   * A character typed and erased again leaves the cursor and every other row as they were, and in its own row every
   * column but the last two, of which nothing is known any more.
   */
  lemma TypedAndErased(typed: Cell, a: Guesses, b: Guesses, c: Guesses, fb: Screen, trying: bool)
    requires Fit(a, fb) && Fit(b, fb) && Fit(c, fb) && a.at.col + 1 < fb.ds.width
    requires Types(typed, a, b, fb, false, trying) && Backspaces(b, c, fb, false)
    ensures c.at == a.at && c.epoch == a.epoch && SameViewsBut(c.rows, a.rows, fb, a.at.row)
    ensures var was, after := View(a.rows, fb, a.at.row), View(c.rows, fb, a.at.row);
      && (forall x | 0 <= x < |was| && (x < a.at.col || x + 2 < |was|) :: after[x] == was[x])
      && (forall x | a.at.col <= x < |was| && |was| <= x + 2 :: after[x] == None)
  {
    hide View, Typed, Deleted, WellFormed, RowsFit;
    ErasingUndoesTyping(View(a.rows, fb, a.at.row), a.at.col, typed);
    SameViewsTwice(c.rows, b.rows, a.rows, fb, a.at.row);
  }

  /** These keystrokes with those of epoch `from` on moved into another. */
  function MovedInto(ks: seq<Keystroke>, from: nat, epoch: nat): (r: seq<Keystroke>)
    ensures |r| == |ks|
  {
    seq(|ks|, i requires 0 <= i < |ks| => if ks[i].epoch >= from then ks[i].(epoch := epoch) else ks[i])
  }

  /** What judging may change: the guesses, the keystrokes they are for, and the epochs. */
  datatype Held = Held(rows: seq<OverlayRow>, cursors: seq<CursorMove>, inFlight: seq<Keystroke>, epoch: nat,
                       tally: Tally)

  /** What is guessed, and how far the parser has come with the bytes typed. */
  datatype Typing = Typing(parser: nat, lastByte: int, guesses: Guesses)

  function InEpoch(t: Typing, epoch: nat): Typing {
    t.(guesses := t.guesses.(epoch := epoch))
  }

  /** The bytes an escape gives another meaning: a delete erases a word, the letter O stands for a bracket. */
  predicate ReadAfterEscape(byte: int) {
    byte == 'O' as int || byte == DELETE
  }

  class PredictionEngine {
    /** The number of columns a character takes, or less than 0 for one that cannot be printed. */
    const charWidth: char -> int

    /** The parser: a state and a byte give the next state and the actions completed. */
    const parse: (nat, int) -> (nat, seq<KeyAction>)
    const newParser: nat
    const atGround: nat -> bool

    var parser: nat
    var lastByte: int
    var overlays: seq<OverlayRow>
    var cursors: seq<CursorMove>
    var inFlight: seq<Keystroke>
    var received: Option<char>
    var localFrameSent: nat
    var localFrameAcked: nat
    var localFrameLateAcked: nat
    var predictionEpoch: nat
    var confirmedEpoch: nat
    var flagging: bool
    var srttTrigger: bool
    var glitchTrigger: nat
    var lastQuickConfirmation: nat
    var sendInterval: nat
    var lastHeight: int
    var lastWidth: int
    var preference: Preference
    var overwrite: bool

    ghost predicate Valid()
      reads this`overlays, this`cursors, this`inFlight, this`lastWidth, this`lastHeight
    {
      && RowsFit(overlays, lastWidth, lastHeight) && CursorsFit(cursors, lastWidth, lastHeight)
      && forall i | 0 <= i < |inFlight| :: KeystrokeFits(inFlight[i])
    }

    /** The engine's guesses are about a screen of this size. */
    ghost predicate ReadyFor(fb: Screen)
      reads this`overlays, this`cursors, this`inFlight, this`lastWidth, this`lastHeight
    {
      Valid() && WellFormed(fb) && lastWidth == fb.ds.width && lastHeight == fb.ds.height
    }

    /** Where the cursor is guessed to be. */
    function At(fb: Screen): Place
      reads this`cursors
    {
      PlaceOf(cursors, fb)
    }

    ghost function Now(fb: Screen): (g: Guesses)
      requires ReadyFor(fb)
      reads this`overlays, this`cursors, this`inFlight, this`lastWidth, this`lastHeight, this`predictionEpoch
      ensures Fit(g, fb)
    {
      Guesses(overlays, At(fb), predictionEpoch)
    }

    constructor (charWidth: char -> int, parse: (nat, int) -> (nat, seq<KeyAction>), newParser: nat,
                 atGround: nat -> bool)
      ensures Valid() && overlays == [] && cursors == [] && inFlight == []
    {
      this.charWidth, this.parse, this.newParser, this.atGround := charWidth, parse, newParser, atGround;
      parser, lastByte := newParser, 0;
      overlays, cursors, inFlight, received := [], [], [], None;
      localFrameSent, localFrameAcked, localFrameLateAcked := 0, 0, 0;
      predictionEpoch, confirmedEpoch := 1, 0;
      flagging, srttTrigger, glitchTrigger, lastQuickConfirmation := false, false, 0, 0;
      sendInterval, lastHeight, lastWidth := 250, 0, 0;
      preference, overwrite := Adaptive, false;
    }

    function NextEpoch(epoch: nat): nat
      reads this`preference
    {
      EpochAfter(preference == Experimental, epoch)
    }

    /** Start a new epoch, so that guesses made from here on are judged together. */
    method BecomeTentative()
      modifies this`predictionEpoch
      ensures predictionEpoch == NextEpoch(old(predictionEpoch))
    {
      if preference != Experimental {
        predictionEpoch := predictionEpoch + 1;
      }
    }

    method Reset()
      modifies this`overlays, this`cursors, this`inFlight, this`predictionEpoch
      ensures overlays == [] && cursors == [] && inFlight == [] && Valid()
      ensures predictionEpoch == NextEpoch(old(predictionEpoch))
    {
      cursors := [];
      overlays := [];
      inFlight := [];
      BecomeTentative();
    }

    /** An epoch begins, and takes over the keystrokes of epoch `epoch` and later. */
    method Abandon(epoch: nat)
      modifies this`inFlight, this`predictionEpoch
      ensures predictionEpoch == NextEpoch(old(predictionEpoch))
      ensures inFlight == MovedInto(old(inFlight), epoch, predictionEpoch)
    {
      BecomeTentative();
      ghost var moved := MovedInto(inFlight, epoch, predictionEpoch);
      var i := 0;
      while i < |inFlight|
        invariant 0 <= i <= |inFlight| == |moved| && predictionEpoch == NextEpoch(old(predictionEpoch))
        invariant forall j | 0 <= j < |inFlight| ::
          inFlight[j] == if j < i then moved[j] else old(inFlight)[j]
      {
        if inFlight[i].epoch >= epoch {
          inFlight := inFlight[i := inFlight[i].(epoch := predictionEpoch)];
        }
        i := i + 1;
      }
      assert inFlight == moved;
    }

    method InitCursor(fb: Screen)
      requires ReadyFor(fb)
      modifies this`cursors
      ensures ReadyFor(fb) && cursors != [] && At(fb) == old(At(fb))
      ensures var was, here := old(cursors), old(At(fb));
        cursors == if was != [] && was[|was| - 1].base.tentativeUntilEpoch == predictionEpoch then was
                   else was + [CursorMove(Overlay(localFrameSent + 1, here.col, true, predictionEpoch, NEVER),
                     here.row)]
    {
      if cursors == [] {
        var c := CursorMove(NewOverlay(localFrameSent + 1, fb.ds.cursorCol, predictionEpoch), fb.ds.cursorRow);
        cursors := [c.(base := c.base.(active := true))];
      } else if cursors[|cursors| - 1].base.tentativeUntilEpoch != predictionEpoch {
        var here := At(fb);
        var c := CursorMove(NewOverlay(localFrameSent + 1, here.col, predictionEpoch), here.row);
        cursors := cursors + [c.(base := c.base.(active := true))];
      }
    }

    /** Move the cursor guess. */
    method MoveCursor(fb: Screen, row: int, col: int, now: Option<nat>)
      requires ReadyFor(fb) && cursors != [] && 0 <= row < fb.ds.height && 0 <= col < fb.ds.width
      modifies this`cursors
      ensures ReadyFor(fb) && cursors != [] && At(fb) == Place(row, col)
      ensures var was := old(cursors); var base := was[|was| - 1].base.(col := col);
        var dated := if now == None then base else Expire(base, localFrameSent + 1, now.value);
        cursors == was[|was| - 1 := CursorMove(dated, row)]
    {
      var c := cursors[|cursors| - 1];
      c := CursorMove(c.base.(col := col), row);
      if now.Some? {
        c := c.(base := Expire(c.base, localFrameSent + 1, now.value));
      }
      cursors := cursors[|cursors| - 1 := c];
    }

    /** The overlay row for a row of the screen, created if need be. */
    method GetOrMakeRow(row: int, fb: Screen, ghost bound: nat) returns (ri: nat)
      requires ReadyFor(fb) && 0 <= row < fb.ds.height
      modifies this`overlays
      ensures ReadyFor(fb) && ri < |overlays| && overlays[ri].rowNum == row
      ensures forall y | 0 <= y < fb.ds.height :: View(overlays, fb, y) == old(View(overlays, fb, y))
      ensures View(overlays, fb, row) == Guessed(overlays[ri].cells, fb.rows[row])
      ensures old(Dated(overlays, bound)) ==> Dated(overlays, bound)
    {
      assert fb.ds.width >= 0;
      hide View, RowsFit, WellFormed;
      ri := RowIndex(overlays, row);
      if ri == |overlays| {
        AddedRow(overlays, row, predictionEpoch, fb);
        overlays := overlays + [NewOverlayRow(row, fb.ds.width, predictionEpoch)];
      }
      RowFound(overlays, ri, fb);
    }

    /** Store a row's cells. */
    method PutCells(ri: nat, cells: seq<OverlayCell>, fb: Screen, ghost bound: nat)
      requires ReadyFor(fb) && ri < |overlays| && |cells| == fb.ds.width
      requires forall x | 0 <= x < |cells| :: cells[x].base.col == x
      modifies this`overlays
      ensures ReadyFor(fb)
      ensures var row := old(overlays)[ri].rowNum;
        View(overlays, fb, row) == Guessed(cells, fb.rows[row]) && SameViewsBut(overlays, old(overlays), fb, row)
      ensures old(Dated(overlays, bound)) && DatedCells(cells, bound) ==> Dated(overlays, bound)
      ensures |overlays| == |old(overlays)|
      ensures forall i | 0 <= i < |overlays| :: overlays[i] == if i == ri then old(overlays)[i].(cells := cells)
        else old(overlays)[i]
    {
      ReplacedRow(overlays, ri, cells, fb);
      hide View, RowsFit, WellFormed;
      overlays := overlays[ri := overlays[ri].(cells := cells)];
    }

    // ---------- what bytes do to the guesses ----------

    ghost function Standing(fb: Screen): (t: Typing)
      requires ReadyFor(fb)
      reads this`overlays, this`cursors, this`inFlight, this`lastWidth, this`lastHeight, this`predictionEpoch,
        this`parser, this`lastByte
      ensures Fit(t.guesses, fb)
    {
      Typing(parser, lastByte, Now(fb))
    }

    /** A character that takes one column is typed, a delete erases, and any other only begins an epoch. */
    ghost predicate Prints(ch: char, a: Guesses, b: Guesses, fb: Screen)
      requires Fit(a, fb) && Fit(b, fb)
      reads this`overwrite, this`preference
    {
      if ch as int == DELETE then Backspaces(a, b, fb, overwrite)
      else if !Printable(ch) then b == Tentatively(a)
      else exists typed: Cell :: typed.contents == [ch] && Types(typed, a, b, fb, overwrite, preference == Experimental)
    }

    ghost function Tentatively(g: Guesses): Guesses
      reads this`preference
    {
      g.(epoch := NextEpoch(g.epoch))
    }

    /** Only what moves the cursor along its row, or does nothing, goes on in the epoch it came in. */
    ghost predicate Does(action: KeyAction, a: Guesses, b: Guesses, fb: Screen)
      requires Fit(a, fb) && Fit(b, fb)
      reads this`overwrite, this`preference
    {
      match action
      case Print(ch) => Prints(ch, a, b, fb)
      case Execute(ch) => if ch == '\r' then Returns(Tentatively(a), b, fb) else b == Tentatively(a)
      case EscDispatch => b == Tentatively(a)
      case CsiDispatch(ch) =>
        if ch == 'C' then b == a.(at := if a.at.col < fb.ds.width - 1 then Place(a.at.row, a.at.col + 1) else a.at)
        else if ch == 'D' then b == a.(at := if a.at.col > 0 then Place(a.at.row, a.at.col - 1) else a.at)
        else b == Tentatively(a)
      case Ignored => b == a
    }

    ghost predicate Chain(actions: seq<KeyAction>, trace: seq<Guesses>, fb: Screen)
      reads this`overwrite, this`preference
    {
      && |trace| == |actions| + 1 && (forall i | 0 <= i < |trace| :: Fit(trace[i], fb))
      && forall i | 0 <= i < |actions| :: Does(actions[i], trace[i], trace[i + 1], fb)
    }

    /** What one byte typed does: escape and delete erase a word, else the parser's actions are done in order. */
    ghost predicate Follows(byte: int, a: Typing, b: Typing, fb: Screen)
      requires Fit(a.guesses, fb) && Fit(b.guesses, fb)
      reads this`overwrite, this`preference
    {
      var c := AsRead(byte, a.lastByte);
      && b.lastByte == c
      && if a.lastByte == ESCAPE && c == DELETE
         then b.parser == newParser && ErasesWord(a.guesses, b.guesses, fb, overwrite)
         else b.parser == parse(a.parser, c).0 && DoesAll(parse(a.parser, c).1, a.guesses, b.guesses, fb)
    }

    ghost predicate DoesAll(actions: seq<KeyAction>, a: Guesses, b: Guesses, fb: Screen)
      reads this`overwrite, this`preference
    {
      exists trace :: Chain(actions, trace, fb) && trace[0] == a && trace[|actions|] == b
    }

    /** Each keystroke is taken in the epoch it is recorded under. */
    ghost predicate Steps(ks: seq<Keystroke>, steps: seq<Typing>, fb: Screen)
      reads this`overwrite, this`preference
    {
      && |steps| == |ks| + 1 && (forall i | 0 <= i < |steps| :: Fit(steps[i].guesses, fb))
      && forall i | 0 <= i < |ks| :: Follows(ks[i].byte, InEpoch(steps[i], ks[i].epoch), steps[i + 1], fb)
    }

    ghost predicate Replays(ks: seq<Keystroke>, a: Typing, b: Typing, fb: Screen)
      reads this`overwrite, this`preference
    {
      exists steps :: Steps(ks, steps, fb) && steps[0] == a && steps[|ks|] == b
    }

    /** The guesses are what typing these keystrokes on the server's screen leads to, after the byte `last`. */
    ghost predicate GuessedAfresh(ks: seq<Keystroke>, last: int, rows: seq<OverlayRow>, at: Place, fb: Screen)
      reads this`overwrite, this`preference
    {
      exists epoch: nat, end: Typing ::
        end.guesses.rows == rows && end.guesses.at == at && Replays(ks, StartOver(last, fb, epoch), end, fb)
    }

    lemma ReplayedAfresh(ks: seq<Keystroke>, last: int, epoch: nat, end: Typing, fb: Screen)
      requires Replays(ks, StartOver(last, fb, epoch), end, fb)
      ensures GuessedAfresh(ks, last, end.guesses.rows, end.guesses.at, fb)
    {
    }

    ghost function StartOver(last: int, fb: Screen, epoch: nat): Typing {
      Typing(newParser, last, NothingGuessed(fb, epoch))
    }

    // ---------- what an escape before the replay does to it ----------

    /** What matters here of a new parser: it prints these three characters and does nothing on an escape. */
    ghost predicate StartsInGround() {
      && parse(newParser, DELETE) == (newParser, [Print(DELETE as char)])
      && parse(newParser, 'O' as int) == (newParser, [Print('O')]) && Printable('O')
      && parse(newParser, '[' as int) == (newParser, [Print('[')]) && Printable('[')
      && forall action <- parse(newParser, ESCAPE).1 :: action.Ignored?
    }

    /**
     * Whether a first keystroke has the same effect after an escape as it has on a new engine. A delete does when the
     * word it erases instead is at most one cell, and the letter O, read as a bracket, in the bottom right corner, of
     * which nothing is guessed.
     */
    ghost predicate DoesTheSame(byte: int, fb: Screen)
      requires WellFormed(fb)
    {
      if byte == DELETE then fb.ds.cursorCol - WordStart(View([], fb, fb.ds.cursorRow), fb.ds.cursorCol) <= 1
      else if byte == 'O' as int then fb.ds.cursorCol == fb.ds.width - 1 && fb.ds.cursorRow == fb.ds.height - 1
      else true
    }

    /**
     * The replay is what a new engine would guess when the byte before was no escape, or when the first keystroke has
     * the same effect after one, whatever keystrokes come after it.
     */
    lemma ReplayAsNew(ks: seq<Keystroke>, last: int, rows: seq<OverlayRow>, at: Place, fb: Screen)
      requires WellFormed(fb)
      requires last == ESCAPE && ks != [] && ReadAfterEscape(ks[0].byte) ==>
        StartsInGround() && DoesTheSame(ks[0].byte, fb)
      ensures GuessedAfresh(ks, last, rows, at, fb) <==> GuessedAfresh(ks, 0, rows, at, fb)
    {
      if GuessedAfresh(ks, last, rows, at, fb) {
        SameReplay(ks, last, 0, rows, at, fb);
      }
      if GuessedAfresh(ks, 0, rows, at, fb) {
        SameReplay(ks, 0, last, rows, at, fb);
      }
    }

    lemma SameReplay(ks: seq<Keystroke>, last: int, other: int, rows: seq<OverlayRow>, at: Place, fb: Screen)
      requires WellFormed(fb)
      requires (last == ESCAPE || other == ESCAPE) && ks != [] && ReadAfterEscape(ks[0].byte) ==>
        StartsInGround() && DoesTheSame(ks[0].byte, fb)
      requires GuessedAfresh(ks, last, rows, at, fb)
      ensures GuessedAfresh(ks, other, rows, at, fb)
    {
      hide ErasesWord, DoesAll, WellFormed, RowsFit, Follows, DoesTheSame, StartsInGround;
      var epoch: nat, end: Typing :|
        end.guesses.rows == rows && end.guesses.at == at && Replays(ks, StartOver(last, fb, epoch), end, fb);
      var steps: seq<Typing> :|
        Steps(ks, steps, fb) && steps[0] == StartOver(last, fb, epoch) && steps[|ks|] == end;
      var again := steps[0 := StartOver(other, fb, epoch)];
      if ks != [] {
        var k := ks[0];
        assert InEpoch(steps[0], k.epoch) == StartOver(last, fb, k.epoch);
        assert InEpoch(again[0], k.epoch) == StartOver(other, fb, k.epoch);
        SameFirstStep(k.byte, last, other, k.epoch, steps[1], fb);
        again := again[1 := steps[1].(lastByte := AsRead(k.byte, other))];
        if |ks| > 1 {
          LastByteMatters(ks[1].byte, InEpoch(steps[1], ks[1].epoch), InEpoch(again[1], ks[1].epoch), steps[2], fb);
        }
      }
      assert Steps(ks, again, fb);
      assert Replays(ks, StartOver(other, fb, epoch), again[|ks|], fb);
    }

    /** The byte a keystroke is recorded as. */
    function AsRead(byte: int, last: int): int {
      if last == ESCAPE && byte == 'O' as int then '[' as int else byte
    }

    /** Of the last byte only whether it was an escape matters. */
    lemma LastByteMatters(byte: int, a: Typing, c: Typing, b: Typing, fb: Screen)
      requires Fit(a.guesses, fb) && Fit(b.guesses, fb) && Fit(c.guesses, fb)
      requires c == a.(lastByte := c.lastByte) && (a.lastByte == ESCAPE <==> c.lastByte == ESCAPE)
      requires Follows(byte, a, b, fb)
      ensures Follows(byte, c, b, fb)
    {
      hide ErasesWord, DoesAll, WellFormed, RowsFit;
    }

    lemma SameFirstStep(byte: int, last: int, other: int, epoch: nat, b: Typing, fb: Screen)
      requires WellFormed(fb) && Fit(b.guesses, fb)
      requires (last == ESCAPE || other == ESCAPE) && ReadAfterEscape(byte) ==>
        StartsInGround() && DoesTheSame(byte, fb)
      requires Follows(byte, StartOver(last, fb, epoch), b, fb)
      ensures Follows(byte, StartOver(other, fb, epoch), b.(lastByte := AsRead(byte, other)), fb)
      ensures b.lastByte == AsRead(byte, last) && (b.lastByte == ESCAPE <==> AsRead(byte, other) == ESCAPE)
    {
      hide ErasesWord, DoesAll, WellFormed, RowsFit, DoesTheSame;
      if (last == ESCAPE) != (other == ESCAPE) && ReadAfterEscape(byte) {
        var a := NothingGuessed(fb, epoch);
        if byte == DELETE {
          ShortWord(a, b.guesses, fb);
          DoesOne(Print(DELETE as char), a, b.guesses, fb);
        } else {
          GivenUp(a, b.guesses, fb);
          DoesOne(Print('O'), a, b.guesses, fb);
          DoesOne(Print('['), a, b.guesses, fb);
        }
      }
    }

    /** A word of one cell is erased as that cell is. */
    lemma ShortWord(a: Guesses, b: Guesses, fb: Screen)
      requires WellFormed(fb) && Fit(a, fb) && Fit(b, fb) && a == NothingGuessed(fb, a.epoch) && DoesTheSame(DELETE, fb)
      ensures ErasesWord(a, b, fb, overwrite) <==> Prints(DELETE as char, a, b, fb)
    {
      hide View, WellFormed, RowsFit, WordStart, DeletedSpan, Deleted, Overwritten;
      var view, col := View(a.rows, fb, a.at.row), a.at.col;
      WidthOf(fb, a.at.row);
      var start := WordStart(view, col);
      NothingHidesWord(fb);
      DeletedSpanNone(view, col);
      OverwrittenNone(view, fb.rows[a.at.row], col);
      if col > 0 {
        DeletedStep(view, col, 0);
        OverwrittenStep(view, fb.rows[a.at.row], col - 1, col);
      }
    }

    /** On the server's own screen there is always a cell to erase, but in the first column. */
    lemma NothingHidesWord(fb: Screen)
      requires WellFormed(fb)
      ensures var start := WordStart(View([], fb, fb.ds.cursorRow), fb.ds.cursorCol);
        start <= fb.ds.cursorCol && (start == fb.ds.cursorCol <==> fb.ds.cursorCol == 0)
    {
      var view, col := View([], fb, fb.ds.cursorRow), fb.ds.cursorCol;
      assert forall x | 0 <= x < |view| :: view[x].Some?;
      assert col > 0 ==> IsBlank(view[col - 1].value) || !IsBlank(view[col - 1].value);
    }

    /** In the bottom right corner every character is guessed to do the same. */
    lemma GivenUp(a: Guesses, b: Guesses, fb: Screen)
      requires WellFormed(fb) && Fit(a, fb) && Fit(b, fb) && a == NothingGuessed(fb, a.epoch)
      requires DoesTheSame('O' as int, fb) && Printable('O') && Printable('[')
      ensures Prints('O', a, b, fb) <==> Prints('[', a, b, fb)
    {
      hide View, WellFormed, RowsFit, Blanked, SameViewsBut;
      var trying := preference == Experimental;
      if Prints('O', a, b, fb) {
        var typed: Cell :| typed.contents == ['O'] && Types(typed, a, b, fb, overwrite, trying);
        assert Types(typed.(contents := ['[']), a, b, fb, overwrite, trying);
      }
      if Prints('[', a, b, fb) {
        var typed: Cell :| typed.contents == ['['] && Types(typed, a, b, fb, overwrite, trying);
        assert Types(typed.(contents := ['O']), a, b, fb, overwrite, trying);
      }
    }

    lemma DoesOne(action: KeyAction, a: Guesses, b: Guesses, fb: Screen)
      requires Fit(a, fb) && Fit(b, fb)
      ensures DoesAll([action], a, b, fb) <==> Does(action, a, b, fb)
    {
      hide Does, Fit;
      if DoesAll([action], a, b, fb) {
        var trace :| Chain([action], trace, fb) && trace[0] == a && trace[1] == b;
        assert Does([action][0], trace[0], trace[1], fb);
      }
      if Does(action, a, b, fb) {
        assert Chain([action], [a, b], fb);
      }
    }

    lemma {:induction false} IgnoredDoNothing(actions: seq<KeyAction>, trace: seq<Guesses>, i: nat, fb: Screen)
      requires Chain(actions, trace, fb) && i <= |actions| && forall action <- actions :: action.Ignored?
      ensures trace[i] == trace[0]
    {
      hide Fit;
      if i > 0 {
        IgnoredDoNothing(actions, trace, i - 1, fb);
        assert actions[i - 1] in actions && Does(actions[i - 1], trace[i - 1], trace[i], fb);
      }
    }

    /**
     * What the replay does after an escape, exactly. The escape is then the last keystroke in flight, being the byte
     * typed last; the shortest such list is a keystroke and an escape. What it leads to is something a new engine
     * guesses if and only if the keystroke has the same effect after an escape.
     */
    lemma ReplayAfterEscape(k: Keystroke, esc: Keystroke, rows: seq<OverlayRow>, at: Place, fb: Screen)
      requires StartsInGround() && WellFormed(fb) && ReadAfterEscape(k.byte) && esc.byte == ESCAPE
      requires GuessedAfresh([k, esc], ESCAPE, rows, at, fb)
      ensures GuessedAfresh([k, esc], 0, rows, at, fb) <==> DoesTheSame(k.byte, fb)
    {
      if DoesTheSame(k.byte, fb) {
        ReplayAsNew([k, esc], ESCAPE, rows, at, fb);
      } else if GuessedAfresh([k, esc], 0, rows, at, fb) {
        hide WellFormed, RowsFit, Follows, DoesTheSame, StartsInGround;
        var b := FirstOfTwo(k, esc, ESCAPE, rows, at, fb);
        var c := FirstOfTwo(k, esc, 0, rows, at, fb);
        FirstStepsDiffer(k.byte, k.epoch, b, c, fb);
      }
    }

    /** The escape adds nothing to what the keystroke before it led to. */
    lemma FirstOfTwo(k: Keystroke, esc: Keystroke, last: int, rows: seq<OverlayRow>, at: Place, fb: Screen)
      returns (b: Typing)
      requires StartsInGround() && WellFormed(fb) && ReadAfterEscape(k.byte) && esc.byte == ESCAPE
      requires last == ESCAPE || last == 0
      requires GuessedAfresh([k, esc], last, rows, at, fb)
      ensures b.guesses.rows == rows && b.guesses.at == at && Fit(b.guesses, fb)
      ensures Follows(k.byte, StartOver(last, fb, k.epoch), b, fb)
    {
      hide WellFormed, RowsFit, ErasesWord, DoesAll;
      var ks := [k, esc];
      var start: nat, end: Typing :|
        end.guesses.rows == rows && end.guesses.at == at && Replays(ks, StartOver(last, fb, start), end, fb);
      var steps :| Steps(ks, steps, fb) && steps[0] == StartOver(last, fb, start) && steps[2] == end;
      b := steps[1];
      assert InEpoch(steps[0], k.epoch) == StartOver(last, fb, k.epoch);
      assert Follows(ks[0].byte, InEpoch(steps[0], ks[0].epoch), steps[1], fb);
      assert Follows(ks[1].byte, InEpoch(steps[1], ks[1].epoch), steps[2], fb);
      EscapeDoesNothing(InEpoch(b, esc.epoch).guesses, end.guesses, fb);
    }

    lemma EscapeDoesNothing(a: Guesses, b: Guesses, fb: Screen)
      requires StartsInGround() && DoesAll(parse(newParser, ESCAPE).1, a, b, fb)
      ensures b == a
    {
      hide Fit;
      var actions := parse(newParser, ESCAPE).1;
      var trace: seq<Guesses> :| Chain(actions, trace, fb) && trace[0] == a && trace[|actions|] == b;
      IgnoredDoNothing(actions, trace, |actions|, fb);
    }

    /** A longer word takes the cursor further, and the letter and the bracket land in the same place. */
    lemma FirstStepsDiffer(byte: int, epoch: nat, b: Typing, c: Typing, fb: Screen)
      requires StartsInGround() && WellFormed(fb) && ReadAfterEscape(byte) && !DoesTheSame(byte, fb)
      requires Fit(b.guesses, fb) && Fit(c.guesses, fb)
      requires Follows(byte, StartOver(ESCAPE, fb, epoch), b, fb) && Follows(byte, StartOver(0, fb, epoch), c, fb)
      ensures b.guesses.rows != c.guesses.rows || b.guesses.at != c.guesses.at
    {
      hide WellFormed, RowsFit, DoesAll, View, WordStart;
      var a := NothingGuessed(fb, epoch);
      if byte == DELETE {
        NothingHidesWord(fb);
        DoesOne(Print(DELETE as char), a, c.guesses, fb);
      } else {
        DoesOne(Print('['), a, b.guesses, fb);
        DoesOne(Print('O'), a, c.guesses, fb);
        PrintedLands('[', a, b.guesses, fb);
        PrintedLands('O', a, c.guesses, fb);
      }
    }

    /** A blank row three columns wide, the cursor in its third. */
    ghost function ThreeBlanks(): (fb: Screen)
      ensures WellFormed(fb)
    {
      var fb := NewScreen(3, 1);
      fb.(ds := fb.ds.(cursorCol := 2))
    }

    /** A row of three columns of which nothing is known. */
    function ThreeUnknown(): OverlayRow {
      var cells := seq(3, x => OverlayCell(Overlay(0, x, true, 0, 0), Blank(0), true, []));
      OverlayRow(0, cells)
    }

    lemma BlanksErased(epoch: nat)
      requires !overwrite
      ensures var fb, b := ThreeBlanks(), Guesses([ThreeUnknown()], Place(0, 0), epoch);
        && Fit(b, fb) && ErasesWord(NothingGuessed(fb, epoch), b, fb, overwrite)
        && WordStart(View([], fb, 0), 2) == 0
    {
      var fb := ThreeBlanks();
      var view := View([], fb, 0);
      assert view == [Some(Blank(0)), Some(Blank(0)), Some(Blank(0))];
      assert SkipBlanks(view, 2, true) == SkipBlanks(view, 1, true) == SkipBlanks(view, 0, true) == 0;
      assert DeletedSpan(view, 2, 2) == [None, None, None];
      assert View([ThreeUnknown()], fb, 0) == [None, None, None];
    }

    /** A delete and an escape on that row: the replay takes the cursor to the first column, a new engine does not. */
    lemma EscapeIsFelt(k: Keystroke, esc: Keystroke)
      requires StartsInGround() && !overwrite && k.byte == DELETE && esc.byte == ESCAPE
      ensures var rows, at := [ThreeUnknown()], Place(0, 0);
        && GuessedAfresh([k, esc], ESCAPE, rows, at, ThreeBlanks())
        && !GuessedAfresh([k, esc], 0, rows, at, ThreeBlanks())
    {
      hide DoesAll, ErasesWord, Fit, ThreeUnknown, View, WordStart;
      var fb, rows, at := ThreeBlanks(), [ThreeUnknown()], Place(0, 0);
      BlanksErased(k.epoch);
      BlanksErased(esc.epoch);
      BlanksErased(0);
      var ks := [k, esc];
      IgnoredDoAll(parse(newParser, ESCAPE).1, Guesses(rows, at, esc.epoch), fb);
      var steps := [StartOver(ESCAPE, fb, 0), Typing(newParser, DELETE, Guesses(rows, at, k.epoch)),
        Typing(parse(newParser, ESCAPE).0, ESCAPE, Guesses(rows, at, esc.epoch))];
      assert Follows(k.byte, InEpoch(steps[0], k.epoch), steps[1], fb);
      assert Follows(esc.byte, InEpoch(steps[1], esc.epoch), steps[2], fb);
      assert Steps(ks, steps, fb);
      ReplayedAfresh(ks, ESCAPE, 0, steps[2], fb);
      ReplayAfterEscape(k, esc, rows, at, fb);
    }

    lemma IgnoredDoAll(actions: seq<KeyAction>, g: Guesses, fb: Screen)
      requires Fit(g, fb) && forall action <- actions :: action.Ignored?
      ensures DoesAll(actions, g, g, fb)
    {
      hide Fit;
      var trace := seq(|actions| + 1, _ => g);
      forall i | 0 <= i < |actions|
        ensures Does(actions[i], trace[i], trace[i + 1], fb)
      {
        assert actions[i] in actions;
      }
      assert Chain(actions, trace, fb);
    }

    lemma PrintedLands(ch: char, a: Guesses, b: Guesses, fb: Screen)
      requires Fit(a, fb) && Fit(b, fb) && Printable(ch) && Prints(ch, a, b, fb)
      requires a.at.col < fb.ds.width - 1 || a.at.row < fb.ds.height - 1
      ensures var x := View(b.rows, fb, a.at.row)[a.at.col]; x.Some? && x.value.contents == [ch]
    {
      hide View, WellFormed, RowsFit;
    }

    lemma ChainStart(g: Guesses, fb: Screen)
      requires Fit(g, fb)
      ensures Chain([], [g], fb)
    {
    }

    lemma ChainOn(actions: seq<KeyAction>, i: nat, trace: seq<Guesses>, g: Guesses, fb: Screen)
      requires i < |actions| && Chain(actions[..i], trace, fb) && Fit(g, fb) && Fit(trace[i], fb)
        && Does(actions[i], trace[i], g, fb)
      ensures Chain(actions[..i + 1], trace + [g], fb)
    {
      hide Does, Fit;
    }

    lemma StepsStart(t: Typing, fb: Screen)
      requires Fit(t.guesses, fb)
      ensures Steps([], [t], fb)
    {
    }

    lemma StepsOn(ks: seq<Keystroke>, i: nat, steps: seq<Typing>, t: Typing, fb: Screen)
      requires i < |ks| && Steps(ks[..i], steps, fb) && Fit(t.guesses, fb)
      requires Fit(steps[i].guesses, fb) && Follows(ks[i].byte, InEpoch(steps[i], ks[i].epoch), t, fb)
      ensures Steps(ks[..i + 1], steps + [t], fb)
    {
      hide Follows, Fit;
    }

    // ---------- typing ----------

    predicate Printable(ch: char) {
      ch as int >= 0x20 && ch as int != DELETE && charWidth(ch) == 1
    }

    /** The colours a typed character is guessed to take: those of the character to its left, if that can be told. */
    function Inherited(cells: seq<OverlayCell>, fb: Screen, row: int, col: int): Renditions
      requires WellFormed(fb) && 0 <= row < fb.ds.height && 0 <= col < fb.ds.width == |cells|
    {
      if col == 0 then fb.ds.ren
      else
        var left := cells[col - 1];
        if left.base.active && !left.unknown then left.replacement.ren else fb.rows[row][col - 1].ren
    }

    lemma InheritedIsLeft(before: seq<OverlayCell>, cells: seq<OverlayCell>, fb: Screen, row: int, col: int)
      requires WellFormed(fb) && 0 <= row < fb.ds.height
        && 0 <= col < fb.ds.width == |cells| == |before| == |fb.rows[row]|
      requires col > 0 ==> cells[col - 1] == before[col - 1]
      ensures Inherited(cells, fb, row, col) == ColoursLeftOf(Guessed(before, fb.rows[row]), fb, row, col)
    {
      hide WellFormed;
    }

    /** Put a typed character at the cursor, pushing the rest of the row right unless overwriting. */
    method TypeCell(ch: char, row: int, col: int, fb: Screen, now: nat, ghost bound: nat) returns (ghost typed: Cell)
      requires ReadyFor(fb) && 0 <= row < fb.ds.height && 0 <= col < fb.ds.width
      modifies this`overlays, this`predictionEpoch
      ensures ReadyFor(fb) && typed.contents == [ch]
      ensures var was, after := old(View(overlays, fb, row)), View(overlays, fb, row);
        after == if overwrite then was[col := Some(typed)] else Typed(was, col, typed)
      ensures SameViewsBut(overlays, old(overlays), fb, row)
      ensures var ri := RowIndex(overlays, row);
        ri < |overlays| && fb.rows[row][col] in overlays[ri].cells[col].originals
          && overlays[ri].cells[col].replacement == typed
      ensures typed.ren == ColoursLeftOf(old(View(overlays, fb, row)), fb, row, col)
      ensures predictionEpoch == if col + 1 < fb.ds.width then old(predictionEpoch) else NextEpoch(old(predictionEpoch))
      ensures old(Dated(overlays, bound)) && bound <= localFrameSent ==> Dated(overlays, bound)
    {
      hide View, Dated, RowsFit, CursorsFit, WellFormed, Shifted, Guessed, Typed, DatedCells, Reguessed, Inherited,
        ColoursLeftOf;
      SizeOf(overlays, fb);
      ghost var start := overlays;
      var width := fb.ds.width;
      var ri := GetOrMakeRow(row, fb, bound);
      ghost var made := overlays;
      ghost var was := View(overlays, fb, row);
      RowFound(overlays, ri, fb);
      var before := overlays[ri].cells;
      if col + 1 >= width {
        BecomeTentative();
      }
      var rightmost := if overwrite then col else width - 1;
      var cells := ShiftRight(before, fb.rows[row], col, rightmost, predictionEpoch, localFrameSent + 1, now);
      var ren := Inherited(cells, fb, row, col);
      InheritedIsLeft(before, cells, fb, row, col);
      var orig := fb.rows[row][col];
      ReguessedIs(cells[col], predictionEpoch, localFrameSent + 1, now, orig);
      var cell := Reguessed(cells[col], predictionEpoch, localFrameSent + 1, now, orig);
      cell := cell.(replacement := cell.replacement.(ren := ren));
      cell := cell.(replacement := cell.replacement.(contents := ""));
      cell := cell.(replacement := Append(cell.replacement, ch));
      typed := cell.replacement;
      TypedView(before, cells, fb.rows[row], col, rightmost, localFrameSent + 1, cell);
      DatedAt(overlays, ri, bound);
      TypedDated(before, cells, fb.rows[row], col, rightmost, localFrameSent + 1, cell, bound);
      PutCells(ri, cells[col := cell], fb, bound);
      RowIndexIs(overlays, ri, width, fb.ds.height);
      SameViewsTwice(overlays, made, start, fb, row);
    }

    method NewlineCarriageReturn(fb: Screen, now: nat, ghost bound: nat)
      requires ReadyFor(fb)
      modifies this`overlays, this`cursors
      ensures ReadyFor(fb) && cursors != [] && Returns(old(Now(fb)), Now(fb), fb)
      ensures old(Dated(overlays, bound)) && bound <= localFrameSent ==> Dated(overlays, bound)
    {
      hide View, Dated;
      ghost var start := overlays;
      InitCursor(fb);
      var row := At(fb).row;
      MoveCursor(fb, row, 0, None);
      if row == fb.ds.height - 1 {
        // In place of the scroll, a blank last row is guessed.
        var ri := GetOrMakeRow(row, fb, bound);
        ghost var made := overlays;
        RowFound(overlays, ri, fb);
        var cells := overlays[ri].cells;
        var x := 0;
        while x < |cells|
          invariant 0 <= x <= |cells| == fb.ds.width
          invariant forall j | 0 <= j < |cells| :: cells[j].base.col == j
          invariant forall j | 0 <= j < x ::
            cells[j].base.active && cells[j].replacement.contents == ""
              && cells[j].base.expirationFrame == localFrameSent + 1
        {
          var cell := cells[x];
          cell := cell.(base := Expire(cell.base.(active := true, tentativeUntilEpoch := predictionEpoch),
            localFrameSent + 1, now));
          cell := cell.(replacement := cell.replacement.(contents := ""));
          cells := cells[x := cell];
          x := x + 1;
        }
        PutCells(ri, cells, fb, bound);
        SameViewsTwice(overlays, made, start, fb, row);
      } else {
        MoveCursor(fb, row + 1, 0, None);
      }
    }

    /** A character typed where it can be guessed what it does. */
    method TypeCharacter(ch: char, fb: Screen, now: nat, ghost bound: nat) returns (ghost typed: Cell)
      requires ReadyFor(fb) && cursors != []
      modifies this`overlays, this`cursors, this`predictionEpoch
      ensures ReadyFor(fb) && cursors != [] && typed.contents == [ch]
      ensures Types(typed, old(Now(fb)), Now(fb), fb, overwrite, preference == Experimental)
      ensures old(Dated(overlays, bound)) && bound <= localFrameSent ==> Dated(overlays, bound)
    {
      hide View, Dated, Typed;
      ghost var start := overlays;
      var row, col := At(fb).row, At(fb).col;
      typed := TypeCell(ch, row, col, fb, now, bound);
      ghost var between := overlays;
      MoveCursor(fb, row, col, Some(now));
      if col < fb.ds.width - 1 {
        MoveCursor(fb, row, col + 1, None);
      } else {
        BecomeTentative();
        NewlineCarriageReturn(fb, now, bound);
      }
      SameViewsTwice(overlays, between, start, fb, row);
    }

    // ---------- erasing ----------

    method PredictBackspace(fb: Screen, now: nat, ghost bound: nat)
      requires ReadyFor(fb) && cursors != []
      modifies this`overlays, this`cursors
      ensures ReadyFor(fb) && cursors != [] && Backspaces(old(Now(fb)), Now(fb), fb, overwrite)
      ensures old(Dated(overlays, bound)) && bound <= localFrameSent ==> Dated(overlays, bound)
    {
      hide View, Dated, Deleted, Guessed, RowsFit, CursorsFit, Reguessed;
      ghost var start := overlays;
      var row, col := At(fb).row, At(fb).col;
      assert Fit(Now(fb), fb);
      if col <= 0 || row < 0 || row >= fb.ds.height { return; }
      var ri := GetOrMakeRow(row, fb, bound);
      ghost var made := overlays;
      RowFound(overlays, ri, fb);
      MoveCursor(fb, row, col - 1, Some(now));
      var cells := overlays[ri].cells;
      assert WellFormedRow(fb.rows[row], fb.ds.width);
      DatedAt(overlays, ri, bound);
      if overwrite {
        var orig := fb.rows[row][col - 1];
        ReguessedIs(cells[col - 1], predictionEpoch, localFrameSent + 1, now, orig);
        var cell := Reguessed(cells[col - 1], predictionEpoch, localFrameSent + 1, now, orig);
        cell := cell.(replacement := Append(orig.(contents := ""), ' '));
        assert cell.replacement == orig.(contents := " ") && Predicted(cell, orig) == Some(cell.replacement);
        GuessedOne(cells, fb.rows[row], col - 1, cell);
        cells := cells[col - 1 := cell];
      } else {
        cells := ShiftLeft(cells, fb.rows[row], col - 1, predictionEpoch, localFrameSent + 1, now, bound);
      }
      PutCells(ri, cells, fb, bound);
      SameViewsTwice(overlays, made, start, fb, row);
    }

    /** Where the word before the cursor starts: a cell that cannot be seen ends it. */
    method FindWord(view: seq<Option<Cell>>, from: nat) returns (col: nat)
      requires from <= |view|
      ensures col == WordStart(view, from)
    {
      col := from;
      while col > 0 && view[col - 1].Some? && IsBlank(view[col - 1].value)
        invariant 0 <= col <= from && SkipBlanks(view, col, true) == SkipBlanks(view, from, true)
      {
        col := col - 1;
      }
      assert col == SkipBlanks(view, from, true);
      while col > 0 && view[col - 1].Some? && !IsBlank(view[col - 1].value)
        invariant 0 <= col <= from && SkipBlanks(view, col, false) == WordStart(view, from)
      {
        col := col - 1;
      }
    }

    /** So many backspaces. */
    method EraseBack(count: nat, fb: Screen, now: nat, ghost bound: nat)
      requires ReadyFor(fb) && cursors != [] && count <= At(fb).col
      modifies this`overlays, this`cursors
      ensures ReadyFor(fb) && cursors != [] && ErasesTo(old(At(fb)).col - count, old(Now(fb)), Now(fb), fb, overwrite)
      ensures old(Dated(overlays, bound)) && bound <= localFrameSent ==> Dated(overlays, bound)
    {
      hide View, Dated, Deleted, DeletedSpan, Overwritten, WellFormed, RowsFit;
      ghost var start := overlays;
      ghost var row, from := At(fb).row, At(fb).col;
      ghost var view := View(overlays, fb, row);
      assert |fb.rows[row]| == fb.ds.width by { WidthOf(fb, row); }
      OverwrittenNone(view, fb.rows[row], from);
      DeletedSpanNone(view, from);
      var n := 0;
      while n < count
        invariant 0 <= n <= count
        invariant ReadyFor(fb) && cursors != [] && At(fb) == Place(row, from - n)
        invariant SameViewsBut(overlays, start, fb, row) && (n == 0 ==> overlays == start)
        invariant View(overlays, fb, row) == if overwrite then Overwritten(view, fb.rows[row], from - n, from)
          else DeletedSpan(view, from, n)
        invariant old(Dated(overlays, bound)) && bound <= localFrameSent ==> Dated(overlays, bound)
      {
        ghost var between := overlays;
        PredictBackspace(fb, now, bound);
        DeletedStep(view, from, n);
        OverwrittenStep(view, fb.rows[row], from - n - 1, from);
        SameViewsTwice(overlays, between, start, fb, row);
        n := n + 1;
      }
    }

    /** Delete from the start of the word to the cursor. */
    method PredictWordErase(fb: Screen, now: nat, ghost bound: nat)
      requires ReadyFor(fb)
      modifies this`overlays, this`cursors
      ensures ReadyFor(fb) && cursors != [] && ErasesWord(old(Now(fb)), Now(fb), fb, overwrite)
      ensures old(Dated(overlays, bound)) && bound <= localFrameSent ==> Dated(overlays, bound)
    {
      hide View, Dated, DeletedSpan, Overwritten, WordStart;
      InitCursor(fb);
      var col := FindWord(View(overlays, fb, At(fb).row), At(fb).col);
      EraseBack(At(fb).col - col, fb, now, bound);
    }

    // ---------- bytes ----------

    method PredictPrint(ch: char, fb: Screen, now: nat, ghost bound: nat)
      requires ReadyFor(fb)
      modifies this`overlays, this`cursors, this`predictionEpoch
      ensures ReadyFor(fb) && cursors != []
      ensures old(Dated(overlays, bound)) && bound <= localFrameSent ==> Dated(overlays, bound)
      ensures Prints(ch, old(Now(fb)), Now(fb), fb)
    {
      hide View, Dated, Types, Backspaces, RowsFit, CursorsFit, WellFormed;
      InitCursor(fb);
      if ch as int == DELETE {
        PredictBackspace(fb, now, bound);
        return;
      }
      if ch as int < 0x20 || charWidth(ch) != 1 {
        BecomeTentative();
        return;
      }
      ghost var typed := TypeCharacter(ch, fb, now, bound);
    }

    /** What one action of the parser is guessed to do. */
    method PredictAction(action: KeyAction, fb: Screen, now: nat, ghost bound: nat)
      requires ReadyFor(fb)
      modifies this`overlays, this`cursors, this`predictionEpoch
      ensures ReadyFor(fb) && Does(action, old(Now(fb)), Now(fb), fb)
      ensures old(Dated(overlays, bound)) && bound <= localFrameSent ==> Dated(overlays, bound)
    {
      hide View, Dated, Returns, Prints, RowsFit, CursorsFit;
      match action {
        case Print(ch) => PredictPrint(ch, fb, now, bound);
        case Execute(ch) =>
          BecomeTentative();
          if ch == '\r' {
            NewlineCarriageReturn(fb, now, bound);
          }
        case EscDispatch => BecomeTentative();
        case CsiDispatch(ch) =>
          if ch == 'C' {
            InitCursor(fb);
            assert Fit(Now(fb), fb);
            if At(fb).col < fb.ds.width - 1 {
              MoveCursor(fb, At(fb).row, At(fb).col + 1, Some(now));
            }
          } else if ch == 'D' {
            InitCursor(fb);
            assert Fit(Now(fb), fb);
            if At(fb).col > 0 {
              MoveCursor(fb, At(fb).row, At(fb).col - 1, Some(now));
            }
          } else {
            BecomeTentative();
          }
        case Ignored =>
      }
    }

    method Predict(byte: int, fb: Screen, now: nat, ghost bound: nat)
      requires ReadyFor(fb)
      modifies this`overlays, this`cursors, this`predictionEpoch, this`parser, this`lastByte
      ensures ReadyFor(fb) && Follows(byte, old(Standing(fb)), Standing(fb), fb)
      ensures old(Dated(overlays, bound)) && bound <= localFrameSent ==> Dated(overlays, bound)
    {
      hide View, Dated, ErasesWord, Does, Chain, RowsFit, CursorsFit, WellFormed;
      var b := if lastByte == ESCAPE && byte == 'O' as int then '[' as int else byte;
      if lastByte == ESCAPE && b == DELETE {
        parser := newParser;
        lastByte := b;
        PredictWordErase(fb, now, bound);
        return;
      }
      lastByte := b;
      var (next, actions) := parse(parser, b);
      parser := next;
      var i := 0;
      ghost var trace := [Now(fb)];
      ChainStart(Now(fb), fb);
      while i < |actions|
        invariant 0 <= i <= |actions| && ReadyFor(fb) && |trace| == i + 1 && parser == next && lastByte == b
        invariant Chain(actions[..i], trace, fb) && trace[0] == old(Now(fb)) && trace[i] == Now(fb)
        invariant old(Dated(overlays, bound)) && bound <= localFrameSent ==> Dated(overlays, bound)
      {
        PredictAction(actions[i], fb, now, bound);
        ChainOn(actions, i, trace, Now(fb), fb);
        trace := trace + [Now(fb)];
        i := i + 1;
      }
      assert actions[..i] == actions;
      assert Chain(actions, trace, fb) && trace[|actions|] == Now(fb);
      assert DoesAll(actions, old(Now(fb)), Now(fb), fb);
    }

    /** Guess for each of these keystrokes again, as if it were being typed. */
    method Replay(keystrokes: seq<Keystroke>, fb: Screen, ghost bound: nat) returns (ghost end: Typing)
      requires ReadyFor(fb) && Dated(overlays, bound)
      requires forall i | 0 <= i < |keystrokes| :: keystrokes[i].frame > bound
      modifies this`overlays, this`cursors, this`predictionEpoch, this`parser, this`lastByte, this`localFrameSent
      ensures ReadyFor(fb) && Dated(overlays, bound)
      ensures end.guesses == Now(fb) && Replays(keystrokes, old(Standing(fb)), end, fb)
    {
      hide RowsFit, CursorsFit, WellFormed, Dated, View, Follows, Steps;
      var i := 0;
      ghost var steps := [Standing(fb)];
      StepsStart(Standing(fb), fb);
      while i < |keystrokes|
        invariant 0 <= i <= |keystrokes| && ReadyFor(fb) && Dated(overlays, bound) && |steps| == i + 1
        invariant Steps(keystrokes[..i], steps, fb) && steps[0] == old(Standing(fb)) && steps[i] == Standing(fb)
      {
        var k := keystrokes[i];
        localFrameSent := k.frame - 1;
        predictionEpoch := k.epoch;
        Predict(k.byte, fb, k.at, bound);
        StepsOn(keystrokes, i, steps, Standing(fb), fb);
        steps := steps + [Standing(fb)];
        i := i + 1;
      }
      end := Standing(fb);
      assert keystrokes[..i] == keystrokes;
    }

    /** Throw all guesses away and replay the keystrokes still under way. */
    method Rebuild(fb: Screen, ghost bound: nat)
      requires ReadyFor(fb) && forall i | 0 <= i < |inFlight| :: inFlight[i].frame > bound
      modifies this`overlays, this`cursors, this`inFlight, this`predictionEpoch, this`parser, this`lastByte,
        this`localFrameSent
      ensures ReadyFor(fb) && Dated(overlays, bound)
      ensures predictionEpoch == old(predictionEpoch) && localFrameSent == old(localFrameSent)
      ensures parser == old(parser) && lastByte == old(lastByte)
      ensures inFlight == Newer(old(inFlight), localFrameAcked)
        && GuessedAfresh(inFlight, lastByte, overlays, At(fb), fb)
    {
      hide RowsFit, CursorsFit, WellFormed, Newer, Dated, View, KeystrokeFits, GuessedAfresh;
      overlays := [];
      cursors := [];
      NoGuesses(fb.ds.width, fb.ds.height, bound);
      NewerKeeps(inFlight, localFrameAcked, bound);
      inFlight := Newer(inFlight, localFrameAcked);
      ReplayInFlight(fb, bound);
    }

    /** Guess for what is in flight, with the parser and the counters set aside meanwhile. */
    method ReplayInFlight(fb: Screen, ghost bound: nat)
      requires ReadyFor(fb) && overlays == [] && cursors == [] && Dated(overlays, bound)
      requires forall i | 0 <= i < |inFlight| :: inFlight[i].frame > bound
      modifies this`overlays, this`cursors, this`inFlight, this`predictionEpoch, this`parser, this`lastByte,
        this`localFrameSent
      ensures ReadyFor(fb) && Dated(overlays, bound) && GuessedAfresh(inFlight, lastByte, overlays, At(fb), fb)
      ensures predictionEpoch == old(predictionEpoch) && localFrameSent == old(localFrameSent)
      ensures inFlight == old(inFlight) && parser == old(parser) && lastByte == old(lastByte)
    {
      hide RowsFit, CursorsFit, WellFormed, Dated, Replays, View, KeystrokeFits, GuessedAfresh;
      var sent, epoch, savedParser, savedByte := localFrameSent, predictionEpoch, parser, lastByte;
      parser := newParser;
      var keystrokes := inFlight;
      inFlight := [];
      ghost var end := Replay(keystrokes, fb, bound);
      ReplayedAfresh(keystrokes, savedByte, epoch, end, fb);
      inFlight := keystrokes;
      localFrameSent := sent;
      predictionEpoch := epoch;
      parser := savedParser;
      lastByte := savedByte;
    }

    // ---------- judging ----------

    /** Take on the colours the server used, from column `from` of a row on. */
    method Adopt(was: seq<OverlayCell>, from: nat, ren: Renditions) returns (cells: seq<OverlayCell>)
      requires from <= |was|
      ensures |cells| == |was|
      ensures cells == DressedFrom(was, from, ren)
    {
      cells := was;
      var k := from;
      while k < |was|
        invariant from <= k <= |was| == |cells|
        invariant forall x | 0 <= x < |was| ::
          cells[x] == if from <= x < k then Dressed(was[x], Some(ren)) else was[x]
      {
        cells := cells[k := cells[k].(replacement := cells[k].replacement.(ren := ren))];
        k := k + 1;
      }
    }

    ghost function Counting(): Tally
      reads this`confirmedEpoch, this`glitchTrigger, this`lastQuickConfirmation
    {
      Tally(confirmedEpoch, glitchTrigger, lastQuickConfirmation)
    }

    /** What a correct guess does to the epochs and to the count of glitches. */
    method Credit(base: Overlay, now: nat)
      modifies this`confirmedEpoch, this`glitchTrigger, this`lastQuickConfirmation
      ensures Counting() == Counted(base, Correct, old(Counting()), now)
    {
      if base.tentativeUntilEpoch > confirmedEpoch {
        confirmedEpoch := base.tentativeUntilEpoch;
      }
      if SaturatingSub(now, base.predictionTime) < GLITCH_THRESHOLD && glitchTrigger > 0
         && SaturatingSub(now, GLITCH_REPAIR_MININTERVAL) >= lastQuickConfirmation {
        glitchTrigger := glitchTrigger - 1;
        lastQuickConfirmation := now;
      }
    }

    /** A guess outstanding long means the link is worse than it seems. */
    method Overdue(base: Overlay, now: nat)
      modifies this`glitchTrigger
      ensures Counting() == Counted(base, Pending, old(Counting()), now)
    {
      var elapsed := SaturatingSub(now, base.predictionTime);
      if elapsed >= GLITCH_FLAG_THRESHOLD {
        glitchTrigger := GLITCH_REPAIR_COUNT * 2;
      } else if elapsed >= GLITCH_THRESHOLD && glitchTrigger < GLITCH_REPAIR_COUNT {
        glitchTrigger := GLITCH_REPAIR_COUNT;
      }
    }

    /**
     * Judge the guesses of one row: what is decided goes, what is not stays, in the colours the server has been
     * seen to use. A wrong guess ends the judging: it gives up the epoch it belongs to, or everything when that
     * epoch had been confirmed; but not when experimenting.
     */
    method JudgeRow(ri: nat, fb: Screen, now: nat) returns (kill: Option<nat>, fullReset: bool)
      requires ReadyFor(fb) && ri < |overlays|
      modifies this`overlays, this`confirmedEpoch, this`glitchTrigger, this`lastQuickConfirmation
      ensures ReadyFor(fb) && |overlays| == |old(overlays)|
      ensures forall i | 0 <= i < |overlays| && i != ri :: overlays[i] == old(overlays)[i]
      ensures var r := old(overlays)[ri];
        && Judgement(kill, fullReset, Counting())
           == RowJudgement(r, fb, localFrameLateAcked, preference == Experimental, old(Counting()), now)
        && (kill == None && !fullReset ==> overlays[ri] == JudgedRow(r, fb, localFrameLateAcked))
    {
      hide CellValidity, View, Judged, Learnt, Tallied, FirstWrong, PartlyJudged, InColumns, WellFormed;
      kill, fullReset := None, false;
      var row := overlays[ri].rowNum;
      RowFound(overlays, ri, fb);
      var cells := overlays[ri].cells;
      ghost var rows, was, late := overlays, cells, localFrameLateAcked;
      ColumnsOf(overlays[ri], fb.ds.width, fb.ds.height);
      JudgedNone(was, fb, row, late, Counting(), now);
      var x := 0;
      while x < |cells|
        invariant 0 <= x <= |cells| == fb.ds.width && kill == None && !fullReset && overlays == rows
        invariant InColumns(cells) && PartlyJudged(was, cells, fb, row, late, x)
        invariant Counting() == Tallied(was, fb, row, late, x, old(Counting()), now)
        invariant preference != Experimental ==> FirstWrong(was, fb, row, late, 0) == FirstWrong(was, fb, row, late, x)
      {
        JudgedStep(was, cells, fb, row, late, x, old(Counting()), now);
        var wrong;
        cells, wrong := JudgeCell(cells, x, fb, row, now);
        if wrong {
          if Tentative(cells[x].base, confirmedEpoch) {
            kill := Some(cells[x].base.tentativeUntilEpoch);
          } else {
            fullReset := true;
          }
          break;
        }
        x := x + 1;
      }
      KeepJudged(overlays, ri, was, cells, fb, late);
      overlays := overlays[ri := overlays[ri].(cells := cells)];
    }

    /** Judge one guess; whether it was found wrong, and counts, is for the row to deal with. */
    method JudgeCell(was: seq<OverlayCell>, x: nat, fb: Screen, row: int, now: nat)
      returns (cells: seq<OverlayCell>, wrong: bool)
      requires WellFormed(fb) && 0 <= row < fb.ds.height && x < |was| == fb.ds.width && InColumns(was)
      modifies this`confirmedEpoch, this`glitchTrigger, this`lastQuickConfirmation
      ensures var v := CellValidity(was[x], fb, row, localFrameLateAcked);
        && wrong == (v == Incorrect && preference != Experimental)
        && cells == (if wrong then was else CellJudged(was, fb, row, localFrameLateAcked, x))
        && Counting() == Counted(was[x].base, v, old(Counting()), now)
    {
      hide CellValidity, WellFormed;
      WidthOf(fb, row);
      cells, wrong := was, false;
      var cell := cells[x];
      match CellValidity(cell, fb, row, localFrameLateAcked) {
        case Incorrect =>
          if preference == Experimental {
            cells := cells[x := ResetCell(cell)];
          } else {
            wrong := true;
          }
        case Correct =>
          Credit(cell.base, now);
          cells := Adopt(cells, x, fb.rows[row][x].ren);
          cells := cells[x := ResetCell(cells[x])];
        case CorrectNoCredit => cells := cells[x := ResetCell(cell)];
        case Pending => Overdue(cell.base, now);
        case Inactive =>
      }
    }

    /** What was last typed and has arrived is seen left of the cursor. */
    predicate EchoEvident(fb: Screen)
      requires WellFormed(fb)
      reads this`received
    {
      && received.Some? && fb.ds.cursorCol > 0
      && (WidthOf(fb, fb.ds.cursorRow); fb.rows[fb.ds.cursorRow][fb.ds.cursorCol - 1].contents == [received.value])
    }

    /** The link is slow enough to show guesses, or was and has some shown, or has not come down far enough. */
    predicate Slow(rows: seq<OverlayRow>, cursors: seq<CursorMove>)
      reads this`sendInterval, this`srttTrigger
    {
      sendInterval > SRTT_TRIGGER_HIGH || (srttTrigger && (sendInterval > SRTT_TRIGGER_LOW || AnyActive(rows, cursors)))
    }

    /** Guesses are underlined: the link is worse still, or was and has not come down far enough, or has glitches. */
    predicate Flags()
      reads this`sendInterval, this`flagging, this`glitchTrigger
    {
      sendInterval > FLAG_TRIGGER_HIGH || glitchTrigger > GLITCH_REPAIR_COUNT
      || (flagging && sendInterval > FLAG_TRIGGER_LOW)
    }

    /** The triggers that decide what is shown, which judging also consults. */
    method UpdateTriggers()
      modifies this`srttTrigger, this`flagging
      ensures srttTrigger == old(Slow(overlays, cursors)) && flagging == old(Flags())
    {
      if sendInterval > SRTT_TRIGGER_HIGH {
        srttTrigger := true;
      } else if srttTrigger && sendInterval <= SRTT_TRIGGER_LOW && !AnyActive(overlays, cursors) {
        srttTrigger := false;
      }
      if sendInterval > FLAG_TRIGGER_HIGH {
        flagging := true;
      } else if sendInterval <= FLAG_TRIGGER_LOW {
        flagging := false;
      }
      if glitchTrigger > GLITCH_REPAIR_COUNT {
        flagging := true;
      }
    }

    /** Judge every row until a guess is found wrong. */
    method JudgeRows(fb: Screen, now: nat) returns (kill: Option<nat>, fullReset: bool)
      requires ReadyFor(fb)
      modifies this`overlays, this`confirmedEpoch, this`glitchTrigger, this`lastQuickConfirmation
      ensures ReadyFor(fb)
      ensures Judgement(kill, fullReset, Counting())
        == JudgementFrom(old(overlays), fb, localFrameLateAcked, preference == Experimental, old(Counting()), now, 0)
      ensures kill == None && !fullReset ==> overlays == JudgedRows(old(overlays), fb, localFrameLateAcked)
    {
      hide RowsFit, WellFormed, CursorsFit, JudgedRow, JudgedRows, RowJudgement, JudgementFrom, JudgedAsFar, View;
      kill, fullReset := None, false;
      var ri := 0;
      JudgedBounds(overlays, overlays, fb, localFrameLateAcked);
      ghost var rows, late, trying := overlays, localFrameLateAcked, preference == Experimental;
      ghost var whole := JudgementFrom(rows, fb, late, trying, Counting(), now, 0);
      while ri < |overlays| && kill == None && !fullReset
        invariant 0 <= ri <= |overlays| == |rows| && ReadyFor(fb)
        invariant whole == if kill == None && !fullReset
                           then JudgementFrom(rows, fb, late, trying, Counting(), now, ri)
                           else Judgement(kill, fullReset, Counting())
        invariant kill == None && !fullReset ==> JudgedAsFar(rows, overlays, fb, late, ri)
        decreases |overlays| - ri
      {
        JudgementStep(rows, fb, late, trying, Counting(), now, ri);
        ghost var before := overlays;
        JudgedRowNext(rows, before, fb, late, ri);
        kill, fullReset := JudgeRow(ri, fb, now);
        JudgedOneMore(rows, before, overlays, fb, late, ri);
        ri := ri + 1;
      }
      JudgementEnd(rows, fb, late, trying, Counting(), now);
      JudgedBounds(rows, overlays, fb, late);
    }

    /** Keystrokes the server has received, or need not be waited for, are let go. */
    method NoteReceived()
      requires forall i | 0 <= i < |inFlight| :: KeystrokeFits(inFlight[i])
      modifies this`inFlight, this`received
      ensures inFlight == Newer(old(inFlight), localFrameLateAcked)
      ensures var k := Newest(old(inFlight), localFrameAcked);
        received == if k == None then old(received) else EchoOf(k.value)
    {
      hide Newer;
      var i := |inFlight|;
      assert inFlight[..i] == inFlight;
      while i > 0
        invariant 0 <= i <= |inFlight| && inFlight == old(inFlight) && received == old(received)
        invariant Newest(inFlight[..i], localFrameAcked) == Newest(inFlight, localFrameAcked)
      {
        i := i - 1;
        assert inFlight[..i + 1][..i] == inFlight[..i];
        if inFlight[i].frame <= localFrameAcked {
          var k := inFlight[i];
          received := EchoOf(k);
          break;
        }
      }
      inFlight := Newer(inFlight, localFrameLateAcked);
    }

    ghost function Holding(): Held
      reads this`overlays, this`cursors, this`inFlight, this`predictionEpoch, this`confirmedEpoch,
        this`glitchTrigger, this`lastQuickConfirmation
    {
      Held(overlays, cursors, inFlight, predictionEpoch, Counting())
    }

    /** All is let go, and an epoch begun. */
    ghost function HoldingNothing(epoch: nat, tally: Tally): Held
      reads this`preference
    {
      Held([], [], [], NextEpoch(epoch), tally)
    }

    /** What is held once guesses about a screen of another size have been let go. */
    ghost function Fitting(fb: Screen): Held
      reads this`overlays, this`cursors, this`inFlight, this`predictionEpoch, this`confirmedEpoch,
        this`glitchTrigger, this`lastQuickConfirmation, this`lastHeight, this`lastWidth, this`preference
    {
      if lastHeight != fb.ds.height || lastWidth != fb.ds.width then HoldingNothing(predictionEpoch, Counting())
      else Holding()
    }

    /**
     * What judging does to what is held. While no guess is wrong, the decided ones go and the others stay. A wrong
     * one moves the keystrokes of its epoch into a new one, or all of them unless the server is seen to echo, and
     * everything is guessed afresh for the keystrokes it has not received.
     */
    ghost predicate Judges(a: Held, b: Held, last: int, fb: Screen, now: nat)
      requires WellFormed(fb) && RowsFit(a.rows, fb.ds.width, fb.ds.height)
      reads this`preference, this`received, this`localFrameAcked, this`localFrameLateAcked, this`overwrite
    {
      var late, trying := localFrameLateAcked, preference == Experimental;
      var j := JudgementFrom(a.rows, fb, late, trying, a.tally, now, 0);
      var astray := Astray(a.cursors, fb, late);
      var waiting := Newer(a.inFlight, late);
      if trying || (j.Stands() && !astray) then
        var cursors := if astray then [] else PendingCursors(a.cursors, fb, late);
        b == Held(JudgedRows(a.rows, fb, late), cursors, waiting, a.epoch, j.tally)
      else
        var from := if !j.fullReset && !astray then j.kill else if EchoEvident(fb) then None else Some(0);
        b.tally == j.tally && Restarts(waiting, a.epoch, from, b.inFlight, b.epoch, b.rows, last, fb)
    }

    /** The keystrokes of epoch `from` on, if any, are moved into the next epoch, and all is guessed afresh. */
    ghost predicate Restarts(waiting: seq<Keystroke>, epoch: nat, from: Option<nat>,
                             ks: seq<Keystroke>, next: nat, rows: seq<OverlayRow>, last: int, fb: Screen)
      reads this`localFrameAcked, this`overwrite, this`preference
    {
      && next == (if from == None then epoch else epoch + 1)
      && ks == Newer(if from == None then waiting else MovedInto(waiting, from.value, next), localFrameAcked)
      && exists at :: GuessedAfresh(ks, last, rows, at, fb)
    }

    /**
     * Judge the guesses on a screen of the server's. Whatever is found, and whichever way it
     * is dealt with, every guess that survives is one that screen leaves undecided.
     */
    method Cull(fb: Screen, now: nat)
      requires Valid() && WellFormed(fb)
      modifies this
      ensures Valid()
      ensures old(preference) == preference && (preference == Never ==> Holding() == old(Holding()))
      ensures preference != Never ==>
        && ReadyFor(fb)
        && AllPending(overlays, fb, localFrameLateAcked)
        && CursorsPending(cursors, fb, localFrameLateAcked)
        && (forall i | 0 <= i < |inFlight| :: inFlight[i].frame > localFrameLateAcked)
        && Judges(old(Fitting(fb)), Holding(), lastByte, fb, now)
        && srttTrigger == old(Slow(Fitting(fb).rows, Fitting(fb).cursors)) && flagging == old(Flags())
      ensures localFrameSent == old(localFrameSent) && localFrameLateAcked == old(localFrameLateAcked)
      ensures parser == old(parser) && lastByte == old(lastByte) && overwrite == old(overwrite)
    {
      hide RowsFit, AllPending, WellFormed, CursorsFit, CursorsPending, Judges, KeystrokeFits, View, AnyActive, Dated;
      if preference == Never { return; }
      Refit(fb);
      UpdateTriggers();
      JudgeAll(fb, now);
    }

    method JudgeAll(fb: Screen, now: nat)
      requires ReadyFor(fb)
      modifies this`overlays, this`cursors, this`inFlight, this`received, this`confirmedEpoch, this`glitchTrigger,
        this`lastQuickConfirmation, this`predictionEpoch, this`parser, this`lastByte, this`localFrameSent
      ensures ReadyFor(fb) && AllPending(overlays, fb, localFrameLateAcked)
      ensures CursorsPending(cursors, fb, localFrameLateAcked)
      ensures forall i | 0 <= i < |inFlight| :: inFlight[i].frame > localFrameLateAcked
      ensures Judges(old(Holding()), Holding(), lastByte, fb, now)
      ensures localFrameSent == old(localFrameSent) && parser == old(parser) && lastByte == old(lastByte)
    {
      hide RowsFit, AllPending, WellFormed, CursorsFit, Astray, CursorsPending, Newer, PendingCursors,
        JudgementFrom, JudgedRows, Restarts, EchoEvident, KeystrokeFits, View, CursorValidity;
      var kill, fullReset, cursorWrong := JudgeGuesses(fb, now);
      Resolve(kill, fullReset, cursorWrong, fb);
      StillPending(cursors, fb, localFrameLateAcked);
      cursors := PendingCursors(cursors, fb, localFrameLateAcked);
    }

    /** Judge the cells and the cursor, and let go of keystrokes that need not be waited for. */
    method JudgeGuesses(fb: Screen, now: nat) returns (kill: Option<nat>, fullReset: bool, cursorWrong: bool)
      requires ReadyFor(fb)
      modifies this`overlays, this`inFlight, this`received, this`confirmedEpoch, this`glitchTrigger,
        this`lastQuickConfirmation
      ensures ReadyFor(fb)
      ensures Judgement(kill, fullReset, Counting())
        == JudgementFrom(old(overlays), fb, localFrameLateAcked, preference == Experimental, old(Counting()), now, 0)
      ensures kill == None && !fullReset ==>
        overlays == JudgedRows(old(overlays), fb, localFrameLateAcked) && AllPending(overlays, fb, localFrameLateAcked)
      ensures cursorWrong == Astray(cursors, fb, localFrameLateAcked)
      ensures inFlight == Newer(old(inFlight), localFrameLateAcked)
      ensures forall i | 0 <= i < |inFlight| :: inFlight[i].frame > localFrameLateAcked
    {
      hide RowsFit, AllPending, WellFormed, CursorsFit, Astray, Newer, JudgementFrom, JudgedRows, KeystrokeFits, View;
      JudgedRowsPending(overlays, fb, localFrameLateAcked);
      kill, fullReset := JudgeRows(fb, now);
      cursorWrong := Astray(cursors, fb, localFrameLateAcked);
      NewerKeeps(inFlight, localFrameLateAcked, 0);
      NoteReceived();
    }

    /** A new size invalidates every guess's coordinates; rows it put off the screen are let go. */
    method Refit(fb: Screen)
      requires Valid() && WellFormed(fb)
      modifies this`overlays, this`cursors, this`inFlight, this`predictionEpoch, this`lastHeight, this`lastWidth
      ensures ReadyFor(fb)
      ensures Holding() == old(Fitting(fb))
    {
      hide RowsFit, WellFormed;
      if lastHeight != fb.ds.height || lastWidth != fb.ds.width {
        lastHeight, lastWidth := fb.ds.height, fb.ds.width;
        Reset();
      }
      OnScreenAll(overlays, fb.ds.width, fb.ds.height);
      overlays := OnScreen(overlays, fb.ds.height);
    }

    /** Give up the guesses found wrong, and what was guessed with them. */
    method Resolve(kill: Option<nat>, fullReset: bool, cursorWrong: bool, fb: Screen)
      requires ReadyFor(fb) && forall i | 0 <= i < |inFlight| :: inFlight[i].frame > localFrameLateAcked
      requires kill == None && !fullReset ==> AllPending(overlays, fb, localFrameLateAcked)
      requires preference == Experimental ==> kill == None && !fullReset
      modifies this`overlays, this`cursors, this`inFlight, this`predictionEpoch, this`parser, this`lastByte,
        this`localFrameSent
      ensures ReadyFor(fb) && AllPending(overlays, fb, localFrameLateAcked)
      ensures forall i | 0 <= i < |inFlight| :: inFlight[i].frame > localFrameLateAcked
      ensures if preference == Experimental || (kill == None && !fullReset && !cursorWrong) then
          Holding() == old(Holding()).(cursors := if cursorWrong then [] else old(cursors))
        else
          var from := if !fullReset && !cursorWrong then kill else if EchoEvident(fb) then None else Some(0);
          && Counting() == old(Counting())
          && Restarts(old(inFlight), old(predictionEpoch), from, inFlight, predictionEpoch, overlays, lastByte, fb)
      ensures parser == old(parser) && lastByte == old(lastByte) && localFrameSent == old(localFrameSent)
    {
      hide RowsFit, AllPending, WellFormed, CursorsFit, EchoEvident, GuessedAfresh;
      if preference == Experimental {
        if cursorWrong {
          NoGuesses(fb.ds.width, fb.ds.height, 0);
          cursors := [];
        }
      } else if fullReset || cursorWrong {
        if !EchoEvident(fb) {
          Abandon(0);
        }
        RebuildPending(fb);
      } else if kill.Some? {
        Abandon(kill.value);
        RebuildPending(fb);
      }
    }

    method RebuildPending(fb: Screen)
      requires ReadyFor(fb) && forall i | 0 <= i < |inFlight| :: inFlight[i].frame > localFrameLateAcked
      modifies this`overlays, this`cursors, this`inFlight, this`predictionEpoch, this`parser, this`lastByte,
        this`localFrameSent
      ensures ReadyFor(fb) && AllPending(overlays, fb, localFrameLateAcked)
      ensures forall i | 0 <= i < |inFlight| :: inFlight[i].frame > localFrameLateAcked
      ensures inFlight == Newer(old(inFlight), localFrameAcked)
        && GuessedAfresh(inFlight, lastByte, overlays, At(fb), fb)
      ensures parser == old(parser) && lastByte == old(lastByte) && localFrameSent == old(localFrameSent)
      ensures predictionEpoch == old(predictionEpoch)
    {
      hide GuessedAfresh, RowsFit, CursorsFit, WellFormed, Newer, AllPending;
      NewerKeeps(inFlight, localFrameAcked, localFrameLateAcked);
      Rebuild(fb, localFrameLateAcked);
      DatedPending(overlays, fb, localFrameLateAcked);
    }

    /** A byte typed: judge first, then record it and guess. */
    method NewUserByte(byte: int, fb: Screen, now: nat) returns (ghost culled: Held)
      requires Valid() && WellFormed(fb)
      modifies this
      ensures Valid() && preference == old(preference) && localFrameSent == old(localFrameSent)
      ensures if preference == Never then Holding() == old(Holding())
        else
          && ReadyFor(fb) && 0 < |inFlight| <= MAX_IN_FLIGHT
          && RowsFit(culled.rows, fb.ds.width, fb.ds.height) && CursorsFit(culled.cursors, fb.ds.width, fb.ds.height)
          && var before := old(Fitting(fb));
             && Judges(if preference == Experimental then before.(epoch := old(confirmedEpoch)) else before, culled,
               old(lastByte), fb, now)
             && TakesByte(byte, now, culled, old(parser), old(lastByte), fb)
    {
      hide Judges, TakesByte, RowsFit, CursorsFit, AllPending, CursorsPending, WellFormed, Newer, KeystrokeFits;
      culled := Holding();
      if preference == Never { return; }
      if preference == Experimental {
        predictionEpoch := confirmedEpoch;
      }
      Cull(fb, now);
      culled := Holding();
      TakeByte(byte, fb, now);
    }

    /** The byte is recorded, and the guesses are what it does to those held before, or to none if too many waited. */
    ghost predicate TakesByte(byte: int, now: nat, before: Held, parserBefore: nat, last: int, fb: Screen)
      requires ReadyFor(fb) && RowsFit(before.rows, fb.ds.width, fb.ds.height)
        && CursorsFit(before.cursors, fb.ds.width, fb.ds.height)
      reads this
    {
      var full := |before.inFlight| >= MAX_IN_FLIGHT;
      var waiting := if full then [] else before.inFlight;
      var epoch := if full then NextEpoch(before.epoch) else before.epoch;
      var text := atGround(parserBefore) && 0x21 <= byte <= 0x7e;
      var start := if full then NothingGuessed(fb, epoch) else Guesses(before.rows, PlaceOf(before.cursors, fb), epoch);
      && inFlight == waiting + [Keystroke(byte, text, localFrameSent + 1, now, epoch)]
      && Follows(byte, Typing(parserBefore, last, start), Standing(fb), fb)
    }

    /** Record the byte under the frame that will carry it, and guess what it does, afresh if too many wait already. */
    method TakeByte(byte: int, fb: Screen, now: nat)
      requires ReadyFor(fb)
      modifies this`overlays, this`cursors, this`inFlight, this`predictionEpoch, this`parser, this`lastByte
      ensures ReadyFor(fb)
      ensures 0 < |inFlight| <= MAX_IN_FLIGHT && TakesByte(byte, now, old(Holding()), old(parser), old(lastByte), fb)
    {
      hide RowsFit, CursorsFit, Follows, View, Dated;
      if |inFlight| >= MAX_IN_FLIGHT {
        Reset();
      }
      var text := atGround(parser) && 0x21 <= byte <= 0x7e;
      inFlight := inFlight + [Keystroke(byte, text, localFrameSent + 1, now, predictionEpoch)];
      assert Now(fb) == if |old(inFlight)| < MAX_IN_FLIGHT then old(Now(fb))
        else NothingGuessed(fb, NextEpoch(old(predictionEpoch)));
      Predict(byte, fb, now, 0);
    }

    // ---------- showing ----------

    /** Draw the guesses onto a screen: each cell by itself, whatever its neighbours are guessed to be. */
    method Apply(fb: Screen) returns (shown: Screen)
      requires ReadyFor(fb)
      ensures |shown.rows| == |fb.rows| && forall y | 0 <= y < |fb.rows| :: |shown.rows[y]| == |fb.rows[y]|
      ensures var showing := preference != Never
          && (srttTrigger || glitchTrigger != 0 || preference == Always || preference == Experimental);
        if !showing then shown == fb
        else
          && shown.ds == CursorsMoved(fb.ds, cursors, confirmedEpoch)
          && forall y, x | 0 <= y < |fb.rows| && 0 <= x < |fb.rows[y]| ::
               var i := RowIndex(overlays, y);
               if i == |overlays| then shown.rows[y][x] == fb.rows[y][x]
               else
                 var cell := overlays[i].cells[x];
                 shown.rows[y][x] == Drawn(cell, fb.rows[y][x], confirmedEpoch, flagging, x == fb.ds.width - 1)
    {
      hide RowsFit, CursorsFit, WellFormed, Drawn, RowIndex, CursorsMoved;
      SizeOf(overlays, fb);
      shown := fb;
      var showing := srttTrigger || glitchTrigger != 0 || preference == Always || preference == Experimental;
      if preference == Never || !showing { return; }
      var ds := MoveToGuess(fb.ds);
      var rows := DrawRows(fb);
      shown := Screen(rows, ds);
    }

    method DrawRows(fb: Screen) returns (rows: seq<Row>)
      requires ReadyFor(fb)
      ensures |rows| == |fb.rows|
      ensures forall y | 0 <= y < |rows| :: rows[y] == DrawnOver(overlays, fb, y, confirmedEpoch, flagging)
    {
      hide Drawn, CursorsFit, WellFormed, KeystrokeFits;
      SizeOf(overlays, fb);
      rows := fb.rows;
      var ri := 0;
      while ri < |overlays|
        invariant 0 <= ri <= |overlays| && |rows| == |fb.rows|
        invariant forall y | 0 <= y < |rows| ::
          rows[y] == if RowIndex(overlays, y) < ri then DrawnOver(overlays, fb, y, confirmedEpoch, flagging)
            else fb.rows[y]
      {
        RowIndexIs(overlays, ri, fb.ds.width, fb.ds.height);
        var y := overlays[ri].rowNum;
        var row := DrawRow(overlays[ri].cells, rows[y]);
        rows := rows[y := row];
        ri := ri + 1;
      }
    }

    method MoveToGuess(start: DrawState) returns (ds: DrawState)
      ensures ds == CursorsMoved(start, cursors, confirmedEpoch)
    {
      ds := start;
      var i := 0;
      while i < |cursors|
        invariant 0 <= i <= |cursors|
        invariant CursorsMoved(ds, cursors[i..], confirmedEpoch) == CursorsMoved(start, cursors, confirmedEpoch)
      {
        assert cursors[i..][0] == cursors[i] && cursors[i..][1..] == cursors[i + 1..];
        ds := CursorMoved(ds, cursors[i], confirmedEpoch);
        i := i + 1;
      }
    }

    method DrawRow(cells: seq<OverlayCell>, was: Row) returns (row: Row)
      requires |cells| == |was|
      ensures row == DrawnRow(cells, was, confirmedEpoch, flagging)
    {
      hide Drawn;
      row := was;
      var x := 0;
      while x < |cells|
        invariant 0 <= x <= |cells| == |row|
        invariant forall j | 0 <= j < x :: row[j] == Drawn(cells[j], was[j], confirmedEpoch, flagging, j == |was| - 1)
        invariant forall j | x <= j < |row| :: row[j] == was[j]
      {
        row := row[x := Drawn(cells[x], row[x], confirmedEpoch, flagging, x == |row| - 1)];
        x := x + 1;
      }
    }
  }

  lemma NoGuesses(width: int, height: int, bound: nat)
    ensures RowsFit([], width, height) && CursorsFit([], width, height) && Dated([], bound)
  {
  }

  // ---------- what is shown ----------

  function CursorMoved(ds: DrawState, c: CursorMove, confirmedEpoch: nat): DrawState {
    if !c.base.active || Tentative(c.base, confirmedEpoch) then ds
    else if c.row >= ds.height || c.base.col >= ds.width || ds.modes.originMode then ds
    else MoveCol(MoveRow(ds, c.row, false), c.base.col, false)
  }

  function CursorsMoved(ds: DrawState, cursors: seq<CursorMove>, confirmedEpoch: nat): DrawState
    decreases |cursors|
  {
    if cursors == [] then ds
      else CursorsMoved(CursorMoved(ds, cursors[0], confirmedEpoch), cursors[1..], confirmedEpoch)
  }

  function Underlined(c: Cell): Cell {
    c.(ren := With(c.ren, {Attribute.Underlined}, true))
  }

  /** A cell with the guess about it drawn: not while tentative, underlined on request unless blank stays blank. */
  function Drawn(c: OverlayCell, current: Cell, confirmedEpoch: nat, flag: bool, lastColumn: bool): Cell {
    if !c.base.active || Tentative(c.base, confirmedEpoch) then current
    else
      var mark := flag && !(IsBlank(c.replacement) && IsBlank(current));
      if c.unknown then if mark && !lastColumn then Underlined(current) else current
      else if current == c.replacement then current
      else if mark then Underlined(c.replacement) else c.replacement
  }

  function DrawnRow(cells: seq<OverlayCell>, row: Row, confirmedEpoch: nat, flag: bool): (r: Row)
    requires |cells| == |row|
    ensures |r| == |row|
  {
    seq(|row|, x requires 0 <= x < |row| => Drawn(cells[x], row[x], confirmedEpoch, flag, x == |row| - 1))
  }

  lemma SizeOf(rows: seq<OverlayRow>, fb: Screen)
    requires WellFormed(fb) && RowsFit(rows, fb.ds.width, fb.ds.height)
    ensures |fb.rows| == fb.ds.height && forall y | 0 <= y < |fb.rows| :: |fb.rows[y]| == fb.ds.width
    ensures forall i | 0 <= i < |rows| :: |rows[i].cells| == fb.ds.width && 0 <= rows[i].rowNum < |fb.rows|
  {
    assert forall i | 0 <= i < |rows| :: RowFits(rows[i], fb.ds.width, fb.ds.height);
    forall y | 0 <= y < |fb.rows|
      ensures |fb.rows[y]| == fb.ds.width
    {
      WidthOf(fb, y);
    }
  }

  /** A row of the screen with whatever is guessed about it drawn. */
  function DrawnOver(rows: seq<OverlayRow>, fb: Screen, y: nat, confirmedEpoch: nat, flag: bool): (r: Row)
    requires WellFormed(fb) && RowsFit(rows, fb.ds.width, fb.ds.height) && y < |fb.rows|
    ensures |r| == |fb.rows[y]|
  {
    SizeOf(rows, fb);
    var i := RowIndex(rows, y);
    if i < |rows| then DrawnRow(rows[i].cells, fb.rows[y], confirmedEpoch, flag) else fb.rows[y]
  }

  /**
   * What is drawn is what the row is guessed to hold, wherever that is known and its epoch has been confirmed,
   * and otherwise what the server last showed; underlining is all that may be added.
   */
  lemma DrawnIsGuessed(c: OverlayCell, current: Cell, confirmedEpoch: nat, flag: bool, lastColumn: bool)
    ensures var shown := Drawn(c, current, confirmedEpoch, flag, lastColumn);
      var guess := Predicted(c, current);
      var base := if guess.Some? && !(c.base.active && Tentative(c.base, confirmedEpoch)) then guess.value else current;
      shown == base || (flag && shown == Underlined(base))
  {
  }

  // ---------- verdicts of which nothing is left to do ----------

  /** A guess there is not, or one the screen leaves undecided. */
  predicate Settles(c: OverlayCell, fb: Screen, row: int, lateAck: nat)
    requires WellFormed(fb) && row >= 0 && c.base.col >= 0
  {
    c.base.active ==> CellValidity(c, fb, row, lateAck) == Pending
  }

  predicate RowPending(r: OverlayRow, fb: Screen, lateAck: nat)
    requires WellFormed(fb)
  {
    RowFits(r, fb.ds.width, fb.ds.height) && forall x | 0 <= x < |r.cells| :: Settles(r.cells[x], fb, r.rowNum, lateAck)
  }

  /** Every active guess about a cell is pending against this screen. */
  predicate AllPending(rows: seq<OverlayRow>, fb: Screen, lateAck: nat)
    requires WellFormed(fb)
  {
    forall i | 0 <= i < |rows| :: RowPending(rows[i], fb, lateAck)
  }

  /** A row judged as far as column `x`: the guesses before it dealt with, the rest only in the colours learnt. */
  ghost predicate PartlyJudged(was: seq<OverlayCell>, cells: seq<OverlayCell>, fb: Screen, row: int, lateAck: nat,
                               x: nat)
    requires WellFormed(fb) && 0 <= row < fb.ds.height && x <= |was| == fb.ds.width && InColumns(was)
  {
    && |cells| == |was| && InColumns(cells)
    && (forall j | 0 <= j < x :: cells[j] == Judged(was, fb, row, lateAck, j))
    && (forall j | x <= j < |cells| :: cells[j] == Dressed(was[j], Learnt(was, fb, row, lateAck, x)))
  }

  lemma JudgedNone(was: seq<OverlayCell>, fb: Screen, row: int, lateAck: nat, t: Tally, now: nat)
    requires WellFormed(fb) && 0 <= row < fb.ds.height && |was| == fb.ds.width && InColumns(was)
    ensures PartlyJudged(was, was, fb, row, lateAck, 0)
    ensures Tallied(was, fb, row, lateAck, 0, t, now) == t
  {
  }

  /** Judging one cell more, where that cell's guess is not found wrong. */
  lemma JudgedStep(was: seq<OverlayCell>, cells: seq<OverlayCell>, fb: Screen, row: int, lateAck: nat, x: nat,
                   t: Tally, now: nat)
    requires WellFormed(fb) && 0 <= row < fb.ds.height && x < |was| == fb.ds.width && InColumns(was)
    requires PartlyJudged(was, cells, fb, row, lateAck, x)
    ensures |cells| == |was| && InColumns(cells) && cells[x].base == was[x].base
    ensures var after := CellJudged(cells, fb, row, lateAck, x);
      InColumns(after) && PartlyJudged(was, after, fb, row, lateAck, x + 1)
    ensures var v := CellValidity(cells[x], fb, row, lateAck);
      && Tallied(was, fb, row, lateAck, x + 1, t, now)
        == Counted(cells[x].base, v, Tallied(was, fb, row, lateAck, x, t, now), now)
      && FirstWrong(was, fb, row, lateAck, x) == if v == Incorrect then x else FirstWrong(was, fb, row, lateAck, x + 1)
  {
    hide CellValidity, WellFormed;
    ValidityIgnoresRendition(was[x], Learnt(was, fb, row, lateAck, x), fb, row, lateAck);
  }

  lemma ColumnsOf(r: OverlayRow, width: int, height: int)
    requires RowFits(r, width, height)
    ensures InColumns(r.cells) && |r.cells| == width
  {
  }

  /** A row judged to its end is the row as judging leaves it, and fits where it was. */
  lemma KeepJudged(rows: seq<OverlayRow>, ri: nat, was: seq<OverlayCell>, cells: seq<OverlayCell>, fb: Screen,
                   lateAck: nat)
    requires WellFormed(fb) && RowsFit(rows, fb.ds.width, fb.ds.height) && ri < |rows| && rows[ri].cells == was
    requires |cells| == fb.ds.width && InColumns(was) && InColumns(cells) && |was| == |cells|
    requires 0 <= rows[ri].rowNum < fb.ds.height
    ensures RowsFit(rows[ri := rows[ri].(cells := cells)], fb.ds.width, fb.ds.height)
    ensures RowFits(rows[ri], fb.ds.width, fb.ds.height)
    ensures PartlyJudged(was, cells, fb, rows[ri].rowNum, lateAck, |was|) ==>
      rows[ri].(cells := cells) == JudgedRow(rows[ri], fb, lateAck)
  {
    hide View, WellFormed, Judged, Learnt;
    ReplacedRow(rows, ri, cells, fb);
  }

  /** A row as judging leaves it when it ends no guess's epoch. */
  function JudgedRow(r: OverlayRow, fb: Screen, lateAck: nat): OverlayRow
    requires WellFormed(fb) && RowFits(r, fb.ds.width, fb.ds.height)
  {
    r.(cells := seq(|r.cells|, x requires 0 <= x < |r.cells| => Judged(r.cells, fb, r.rowNum, lateAck, x)))
  }

  function JudgedRows(rows: seq<OverlayRow>, fb: Screen, lateAck: nat): seq<OverlayRow>
    requires WellFormed(fb) && RowsFit(rows, fb.ds.width, fb.ds.height)
  {
    seq(|rows|, i requires 0 <= i < |rows| => JudgedRow(rows[i], fb, lateAck))
  }

  /** The column of the first wrong guess of a row, or its width. */
  function WrongColumn(r: OverlayRow, fb: Screen, lateAck: nat): (x: nat)
    requires WellFormed(fb) && RowFits(r, fb.ds.width, fb.ds.height)
    ensures x <= |r.cells|
  {
    FirstWrong(r.cells, fb, r.rowNum, lateAck, 0)
  }

  /** What judging comes to: the epoch given up, or everything, and what was counted. */
  datatype Judgement = Judgement(kill: Option<nat>, fullReset: bool, tally: Tally)
  {
    predicate Stands() { kill == None && !fullReset }
  }

  function RowJudgement(r: OverlayRow, fb: Screen, lateAck: nat, trying: bool, tally: Tally, now: nat): Judgement
    requires WellFormed(fb) && RowFits(r, fb.ds.width, fb.ds.height)
  {
    var wrong := if trying then |r.cells| else WrongColumn(r, fb, lateAck);
    var t := Tallied(r.cells, fb, r.rowNum, lateAck, wrong, tally, now);
    if wrong == |r.cells| then Judgement(None, false, t)
    else
      var base := r.cells[wrong].base;
      if Tentative(base, t.confirmed) then Judgement(Some(base.tentativeUntilEpoch), false, t)
      else Judgement(None, true, t)
  }

  /** Rows are judged in order until one has a wrong guess, unless only trying guesses out. */
  function JudgementFrom(rows: seq<OverlayRow>, fb: Screen, lateAck: nat, trying: bool, tally: Tally, now: nat,
                         i: nat): (j: Judgement)
    requires WellFormed(fb) && RowsFit(rows, fb.ds.width, fb.ds.height) && i <= |rows|
    ensures j.Stands() <==> trying || forall k | i <= k < |rows| :: WrongColumn(rows[k], fb, lateAck) == |rows[k].cells|
    decreases |rows| - i
  {
    if i == |rows| then Judgement(None, false, tally)
    else
      var j := RowJudgement(rows[i], fb, lateAck, trying, tally, now);
      if j.Stands() then JudgementFrom(rows, fb, lateAck, trying, j.tally, now, i + 1) else j
  }

  lemma JudgementStep(rows: seq<OverlayRow>, fb: Screen, lateAck: nat, trying: bool, tally: Tally, now: nat,
                      i: nat)
    requires WellFormed(fb) && RowsFit(rows, fb.ds.width, fb.ds.height) && i < |rows|
    ensures RowFits(rows[i], fb.ds.width, fb.ds.height)
    ensures var j := RowJudgement(rows[i], fb, lateAck, trying, tally, now);
      JudgementFrom(rows, fb, lateAck, trying, tally, now, i)
      == if j.Stands() then JudgementFrom(rows, fb, lateAck, trying, j.tally, now, i + 1) else j
  {
    hide WellFormed, RowJudgement;
  }

  lemma JudgementEnd(rows: seq<OverlayRow>, fb: Screen, lateAck: nat, trying: bool, tally: Tally, now: nat)
    requires WellFormed(fb) && RowsFit(rows, fb.ds.width, fb.ds.height)
    ensures JudgementFrom(rows, fb, lateAck, trying, tally, now, |rows|) == Judgement(None, false, tally)
  {
  }

  /** A guess still undecided that has been outstanding long enough to be a glitch. */
  predicate IsGlitch(r: OverlayRow, x: nat, fb: Screen, lateAck: nat, now: nat)
    requires WellFormed(fb) && RowFits(r, fb.ds.width, fb.ds.height) && x < |r.cells|
  {
    && CellValidity(r.cells[x], fb, r.rowNum, lateAck) == Pending
    && SaturatingSub(now, r.cells[x].base.predictionTime) >= GLITCH_THRESHOLD
  }

  predicate AnyGlitchBefore(r: OverlayRow, to: nat, fb: Screen, lateAck: nat, now: nat)
    requires WellFormed(fb) && RowFits(r, fb.ds.width, fb.ds.height) && to <= |r.cells|
  {
    exists x: nat | x < to :: IsGlitch(r, x, fb, lateAck, now)
  }

  predicate AnyGlitch(r: OverlayRow, fb: Screen, lateAck: nat, now: nat)
    requires WellFormed(fb) && RowFits(r, fb.ds.width, fb.ds.height)
  {
    AnyGlitchBefore(r, |r.cells|, fb, lateAck, now)
  }

  /** How a tally may have come from another, with or without a glitch having been seen. */
  predicate Moved(before: Tally, after: Tally, seen: bool, now: nat) {
    && after.glitches <= GLITCH_REPAIR_COUNT * 2 && (now > 0 ==> before.glitches - 1 <= after.glitches)
    && (after.glitches < before.glitches ==> after.lastQuick == now)
    && (after.glitches > before.glitches ==> seen)
    && (seen ==> now > 0)
    && (seen ==> after.glitches >= GLITCH_REPAIR_COUNT
                 || (after.glitches == GLITCH_REPAIR_COUNT - 1 && after.lastQuick == now))
  }

  lemma {:induction false} RowMoves(before: Tally, t: Tally, seen: bool, r: OverlayRow, x: nat, fb: Screen,
                                    lateAck: nat, now: nat)
    requires WellFormed(fb) && RowFits(r, fb.ds.width, fb.ds.height) && x <= |r.cells|
    requires Moved(before, t, seen, now)
    ensures var after := Tallied(r.cells, fb, r.rowNum, lateAck, x, t, now);
      Moved(before, after, seen || AnyGlitchBefore(r, x, fb, lateAck, now), now)
  {
    hide WellFormed, CellValidity;
    if x > 0 {
      RowMoves(before, t, seen, r, x - 1, fb, lateAck, now);
      assert AnyGlitchBefore(r, x, fb, lateAck, now)
        <==> AnyGlitchBefore(r, x - 1, fb, lateAck, now) || IsGlitch(r, x - 1, fb, lateAck, now);
    }
  }

  lemma {:induction false} JudgingMoves(before: Tally, t: Tally, was: bool, rows: seq<OverlayRow>, i: nat, fb: Screen,
                                        lateAck: nat, trying: bool, now: nat)
    returns (seen: bool)
    requires WellFormed(fb) && RowsFit(rows, fb.ds.width, fb.ds.height) && i <= |rows|
    requires Moved(before, t, was, now)
    ensures var j := JudgementFrom(rows, fb, lateAck, trying, t, now, i);
      && Moved(before, j.tally, seen, now)
      && (seen ==> was || exists k | i <= k < |rows| :: AnyGlitch(rows[k], fb, lateAck, now))
      && (was || (j.Stands() && exists k | i <= k < |rows| :: AnyGlitch(rows[k], fb, lateAck, now)) ==> seen)
    decreases |rows| - i
  {
    hide WellFormed, Tallied, Moved, AnyGlitchBefore;
    seen := was;
    if i < |rows| {
      var r := rows[i];
      var to := if trying then |r.cells| else WrongColumn(r, fb, lateAck);
      RowMoves(before, t, was, r, to, fb, lateAck, now);
      GlitchBefore(r, to, fb, lateAck, now);
      seen := was || AnyGlitchBefore(r, to, fb, lateAck, now);
      var j := RowJudgement(r, fb, lateAck, trying, t, now);
      if j.Stands() {
        seen := JudgingMoves(before, j.tally, seen, rows, i + 1, fb, lateAck, trying, now);
      }
    }
  }

  lemma GlitchBefore(r: OverlayRow, to: nat, fb: Screen, lateAck: nat, now: nat)
    requires WellFormed(fb) && RowFits(r, fb.ds.width, fb.ds.height) && to <= |r.cells|
    ensures AnyGlitchBefore(r, to, fb, lateAck, now) ==> AnyGlitch(r, fb, lateAck, now)
    ensures to == |r.cells| ==> (AnyGlitch(r, fb, lateAck, now) <==> AnyGlitchBefore(r, to, fb, lateAck, now))
  {
    hide WellFormed, IsGlitch;
  }

  /**
   * What a whole judging does to the count of glitches: it works off one at most, save at time zero, counts more only
   * when some guess has been outstanding for long, and then, unless a wrong guess cuts it short, leaves a full repair
   * to be done, or all but one of it.
   */
  lemma JudgingCounts(rows: seq<OverlayRow>, fb: Screen, lateAck: nat, trying: bool, t: Tally, now: nat)
    requires WellFormed(fb) && RowsFit(rows, fb.ds.width, fb.ds.height)
    requires t.glitches <= GLITCH_REPAIR_COUNT * 2
    ensures var j := JudgementFrom(rows, fb, lateAck, trying, t, now, 0);
      var overdue := exists k | 0 <= k < |rows| :: AnyGlitch(rows[k], fb, lateAck, now);
      && j.tally.glitches <= GLITCH_REPAIR_COUNT * 2 && (now > 0 ==> t.glitches - 1 <= j.tally.glitches)
      && (j.tally.glitches > t.glitches ==> overdue)
      && (overdue && j.Stands() ==> j.tally.glitches >= GLITCH_REPAIR_COUNT - 1)
  {
    hide WellFormed, AnyGlitch, JudgementFrom;
    var seen := JudgingMoves(t, t, false, rows, 0, fb, lateAck, trying, now);
  }

  /** The first `n` rows judged, the rest as they were. */
  ghost predicate JudgedAsFar(rows: seq<OverlayRow>, now: seq<OverlayRow>, fb: Screen, lateAck: nat, n: nat)
    requires WellFormed(fb) && RowsFit(rows, fb.ds.width, fb.ds.height)
  {
    |now| == |rows| && forall i | 0 <= i < |rows| :: now[i] == if i < n then JudgedRow(rows[i], fb, lateAck)
      else rows[i]
  }

  lemma JudgedBounds(rows: seq<OverlayRow>, now: seq<OverlayRow>, fb: Screen, lateAck: nat)
    requires WellFormed(fb) && RowsFit(rows, fb.ds.width, fb.ds.height)
    ensures JudgedAsFar(rows, rows, fb, lateAck, 0)
    ensures JudgedAsFar(rows, now, fb, lateAck, |rows|) ==> now == JudgedRows(rows, fb, lateAck)
  {
    hide WellFormed, JudgedRow;
  }

  lemma JudgedRowNext(rows: seq<OverlayRow>, now: seq<OverlayRow>, fb: Screen, lateAck: nat, n: nat)
    requires WellFormed(fb) && RowsFit(rows, fb.ds.width, fb.ds.height) && n < |rows|
    requires JudgedAsFar(rows, now, fb, lateAck, n)
    ensures |now| == |rows| && now[n] == rows[n]
  {
    hide WellFormed, JudgedRow;
  }

  lemma JudgedOneMore(rows: seq<OverlayRow>, before: seq<OverlayRow>, now: seq<OverlayRow>, fb: Screen, lateAck: nat,
                      n: nat)
    requires WellFormed(fb) && RowsFit(rows, fb.ds.width, fb.ds.height) && n < |rows|
    requires JudgedAsFar(rows, before, fb, lateAck, n) && |now| == |before|
    requires forall i | 0 <= i < |now| && i != n :: now[i] == before[i]
    ensures RowFits(rows[n], fb.ds.width, fb.ds.height)
    ensures now[n] == JudgedRow(rows[n], fb, lateAck) ==> JudgedAsFar(rows, now, fb, lateAck, n + 1)
  {
    hide WellFormed, JudgedRow;
  }

  lemma JudgedRowsPending(rows: seq<OverlayRow>, fb: Screen, lateAck: nat)
    requires WellFormed(fb) && RowsFit(rows, fb.ds.width, fb.ds.height)
    ensures AllPending(JudgedRows(rows, fb, lateAck), fb, lateAck)
  {
    hide JudgedRow, RowPending;
    forall i | 0 <= i < |rows|
      ensures RowPending(JudgedRow(rows[i], fb, lateAck), fb, lateAck)
    {
      JudgedRowPending(rows[i], fb, lateAck);
    }
  }

  /** Judging leaves only guesses that the screen does not decide. */
  lemma JudgedRowPending(r: OverlayRow, fb: Screen, lateAck: nat)
    requires WellFormed(fb) && RowFits(r, fb.ds.width, fb.ds.height)
    ensures RowPending(JudgedRow(r, fb, lateAck), fb, lateAck)
  {
    hide CellValidity, WellFormed;
    var j := JudgedRow(r, fb, lateAck);
    forall x | 0 <= x < |j.cells|
      ensures Settles(j.cells[x], fb, j.rowNum, lateAck) && j.cells[x].base.col == x
    {
      ValidityIgnoresRendition(r.cells[x], Learnt(r.cells, fb, r.rowNum, lateAck, x + 1), fb, r.rowNum, lateAck);
      InactiveMeans(r.cells[x], fb, r.rowNum, lateAck);
    }
  }

  predicate CursorsPending(cursors: seq<CursorMove>, fb: Screen, lateAck: nat) {
    forall i | 0 <= i < |cursors| :: CursorValidity(cursors[i], fb, lateAck) == Pending
  }

  /** A guess that can be judged only after frame `lateAck` is pending. */
  lemma DatedPending(rows: seq<OverlayRow>, fb: Screen, lateAck: nat)
    requires WellFormed(fb) && RowsFit(rows, fb.ds.width, fb.ds.height) && Dated(rows, lateAck)
    ensures AllPending(rows, fb, lateAck)
  {
    forall i, x | 0 <= i < |rows| && 0 <= x < |rows[i].cells|
      ensures Settles(rows[i].cells[x], fb, rows[i].rowNum, lateAck)
    {
      assert RowFits(rows[i], fb.ds.width, fb.ds.height);
    }
  }

  lemma OnScreenAll(rows: seq<OverlayRow>, width: int, height: int)
    requires RowsFit(rows, width, height)
    ensures OnScreen(rows, height) == rows
  {
    assert forall i | 0 <= i < |rows| :: RowFits(rows[i], width, height);
  }

  function OnScreen(rows: seq<OverlayRow>, height: int): (r: seq<OverlayRow>)
    ensures (forall i | 0 <= i < |rows| :: 0 <= rows[i].rowNum < height) ==> r == rows
  {
    if rows == [] then [] else (if 0 <= rows[0].rowNum < height then [rows[0]] else []) + OnScreen(rows[1..], height)
  }

  function PendingCursors(cursors: seq<CursorMove>, fb: Screen, lateAck: nat): (r: seq<CursorMove>)
    ensures |r| <= |cursors|
  {
    if cursors == [] then []
    else
      var first := if CursorValidity(cursors[0], fb, lateAck) == Pending then [cursors[0]] else [];
      first + PendingCursors(cursors[1..], fb, lateAck)
  }

  lemma {:induction false} StillPending(cursors: seq<CursorMove>, fb: Screen, lateAck: nat)
    ensures CursorsPending(PendingCursors(cursors, fb, lateAck), fb, lateAck)
    ensures forall w, h :: CursorsFit(cursors, w, h) ==> CursorsFit(PendingCursors(cursors, fb, lateAck), w, h)
    decreases |cursors|
  {
    hide CursorValidity;
    if cursors != [] {
      StillPending(cursors[1..], fb, lateAck);
      forall w, h | CursorsFit(cursors, w, h)
        ensures CursorsFit(PendingCursors(cursors, fb, lateAck), w, h)
      {
        assert CursorsFit(cursors[1..], w, h);
      }
    }
  }

  /** The cursor is not where the newest guess about it has it. */
  predicate Astray(cursors: seq<CursorMove>, fb: Screen, lateAck: nat) {
    cursors != [] && CursorValidity(cursors[|cursors| - 1], fb, lateAck) == Incorrect
  }

  /** What the server shows for a keystroke it echoes; for one that is not text, nothing is known. */
  function EchoOf(k: Keystroke): Option<char> {
    if k.text && 0 <= k.byte < 0x100 then Some(k.byte as char) else None
  }

  /** The last of these keystrokes carried by a frame up to `bound`. */
  function Newest(ks: seq<Keystroke>, bound: nat): (k: Option<Keystroke>)
    ensures k.Some? ==> k.value in ks && k.value.frame <= bound
  {
    if ks == [] then None
    else if ks[|ks| - 1].frame <= bound then Some(ks[|ks| - 1])
    else Newest(ks[..|ks| - 1], bound)
  }

  predicate AnyActive(rows: seq<OverlayRow>, cursors: seq<CursorMove>) {
    cursors != [] || exists i, x | 0 <= i < |rows| && 0 <= x < |rows[i].cells| :: rows[i].cells[x].base.active
  }

  /** Keystrokes carried by frames after `bound`, in order. */
  function Newer(ks: seq<Keystroke>, bound: nat): seq<Keystroke> {
    if ks == [] then [] else (if ks[0].frame > bound then [ks[0]] else []) + Newer(ks[1..], bound)
  }

  lemma {:induction false} NewerKeeps(ks: seq<Keystroke>, acked: nat, bound: nat)
    ensures forall i | 0 <= i < |Newer(ks, acked)| :: Newer(ks, acked)[i] in ks && Newer(ks, acked)[i].frame > acked
    ensures (forall i | 0 <= i < |ks| :: ks[i].frame > bound) ==>
      forall i | 0 <= i < |Newer(ks, acked)| :: Newer(ks, acked)[i].frame > bound
    decreases |ks|
  {
    if ks != [] {
      NewerKeeps(ks[1..], acked, bound);
    }
  }

  /** Overwriting back to `start` from `end`: each column backed over becomes a space. */
  function Overwritten(view: seq<Option<Cell>>, row: Row, start: nat, end: nat): seq<Option<Cell>>
    requires start <= end <= |view| == |row|
  {
    seq(|view|, x requires 0 <= x < |view| => if start <= x < end then Some(row[x].(contents := " ")) else view[x])
  }

  lemma OverwrittenNone(view: seq<Option<Cell>>, row: Row, end: nat)
    requires end <= |view| == |row|
    ensures Overwritten(view, row, end, end) == view
  {
  }

  lemma OverwrittenStep(view: seq<Option<Cell>>, row: Row, start: nat, end: nat)
    requires start < end <= |view| == |row|
    ensures |Overwritten(view, row, start + 1, end)| == |view|
    ensures Overwritten(view, row, start, end)
      == Overwritten(view, row, start + 1, end)[start := Some(row[start].(contents := " "))]
  {
  }

  lemma DeletedSpanNone(view: seq<Option<Cell>>, col: nat)
    requires col <= |view|
    ensures DeletedSpan(view, col, 0) == view
  {
  }

  lemma SameViewsTwice(c: seq<OverlayRow>, b: seq<OverlayRow>, a: seq<OverlayRow>, fb: Screen, row: int)
    requires WellFormed(fb) && RowsFit(a, fb.ds.width, fb.ds.height)
    requires RowsFit(b, fb.ds.width, fb.ds.height) && RowsFit(c, fb.ds.width, fb.ds.height)
    requires SameViewsBut(c, b, fb, row) && SameViewsBut(b, a, fb, row)
    ensures SameViewsBut(c, a, fb, row)
  {
    hide View, WellFormed, RowsFit;
    forall y | 0 <= y < fb.ds.height && y != row
      ensures View(c, fb, y) == View(a, fb, y)
    {
      assert View(b, fb, y) == View(a, fb, y);
    }
  }

  lemma DatedAt(rows: seq<OverlayRow>, i: nat, bound: nat)
    requires i < |rows|
    ensures Dated(rows, bound) ==> DatedCells(rows[i].cells, bound)
  {
  }

  lemma GuessedOne(cells: seq<OverlayCell>, row: Row, x: nat, cell: OverlayCell)
    requires x < |cells| == |row|
    ensures Guessed(cells[x := cell], row) == Guessed(cells, row)[x := Predicted(cell, row[x])]
  {
  }

  lemma TypedView(was: seq<OverlayCell>, cells: seq<OverlayCell>, row: Row, col: nat, rightmost: int, frame: nat,
                  cell: OverlayCell)
    requires |was| == |cells| == |row| && col <= rightmost < |row|
    requires forall x | 0 <= x <= col || rightmost < x < |cells| :: cells[x] == was[x]
    requires Shifted(was, cells, row, col, rightmost, frame) && cell.base.active && !cell.unknown
    ensures rightmost == col ==> Guessed(cells[col := cell], row) == Guessed(was, row)[col := Some(cell.replacement)]
    ensures rightmost == |row| - 1 ==>
      Guessed(cells[col := cell], row) == Typed(Guessed(was, row), col, cell.replacement)
  {
    var after := Guessed(cells[col := cell], row);
    if rightmost == |row| - 1 {
      var goal := Typed(Guessed(was, row), col, cell.replacement);
      forall x: nat | x < |row|
        ensures after[x] == goal[x]
      {
        if x > col { assert TakesLeft(was, cells, row, x, frame); }
      }
    }
  }

  lemma TypedDated(was: seq<OverlayCell>, cells: seq<OverlayCell>, row: Row, col: nat, rightmost: int, frame: nat,
                   cell: OverlayCell, bound: nat)
    requires |was| == |cells| == |row| && col <= rightmost < |row|
    requires forall x | 0 <= x <= col || rightmost < x < |cells| :: cells[x] == was[x]
    requires Shifted(was, cells, row, col, rightmost, frame) && cell.base.expirationFrame == frame
    ensures DatedCells(was, bound) && bound < frame ==> DatedCells(cells[col := cell], bound)
  {
    var all := cells[col := cell];
    forall x | 0 <= x < |all| && DatedCells(was, bound) && bound < frame && all[x].base.active
      ensures all[x].base.expirationFrame > bound
    {
      if col < x <= rightmost { assert TakesLeft(was, cells, row, x, frame); }
    }
  }

  lemma RowFound(rows: seq<OverlayRow>, i: nat, fb: Screen)
    requires WellFormed(fb) && RowsFit(rows, fb.ds.width, fb.ds.height) && i < |rows|
    ensures RowFits(rows[i], fb.ds.width, fb.ds.height)
    ensures View(rows, fb, rows[i].rowNum) == Guessed(rows[i].cells, fb.rows[rows[i].rowNum])
  {
    RowIndexIs(rows, i, fb.ds.width, fb.ds.height);
  }
}

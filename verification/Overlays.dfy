/** Guesses about the screen, and the verdicts passed on them when the server has spoken. */
module Overlays {
  import opened Arithmetic
  import opened Options
  import opened Rendition
  import opened Screens

  datatype Validity = Pending | Correct | CorrectNoCredit | Incorrect | Inactive

  /** What every guess has: the frame after which it can be judged, its column, and the epoch it belongs to. */
  datatype Overlay = Overlay(expirationFrame: nat, col: int, active: bool, tentativeUntilEpoch: nat,
                             predictionTime: nat)

  function NewOverlay(expirationFrame: nat, col: int, epoch: nat): Overlay {
    Overlay(expirationFrame, col, false, epoch, NEVER)
  }

  /** Still too speculative to show. */
  predicate Tentative(o: Overlay, confirmedEpoch: nat) {
    o.tentativeUntilEpoch > confirmedEpoch
  }

  function ResetOverlay(o: Overlay): Overlay {
    o.(expirationFrame := NEVER, tentativeUntilEpoch := NEVER, active := false)
  }

  function Expire(o: Overlay, frame: nat, now: nat): Overlay {
    o.(expirationFrame := frame, predictionTime := now)
  }

  // ---------- the cursor ----------

  datatype CursorMove = CursorMove(base: Overlay, row: int)

  function CursorValidity(c: CursorMove, fb: Screen, lateAck: nat): Validity {
    if !c.base.active then Inactive
    else if c.row >= fb.ds.height || c.base.col >= fb.ds.width then Incorrect
    else if lateAck >= c.base.expirationFrame then
      if fb.ds.cursorCol == c.base.col && fb.ds.cursorRow == c.row then Correct else Incorrect
    else Pending
  }

  // ---------- a cell ----------

  /** A guess about a cell; being right earns nothing when the cell comes to hold one of `originals` again. */
  datatype OverlayCell = OverlayCell(base: Overlay, replacement: Cell, unknown: bool, originals: seq<Cell>)

  function NewOverlayCell(col: int, epoch: nat): OverlayCell {
    OverlayCell(NewOverlay(0, col, epoch), Blank(0), false, [])
  }

  function ResetCell(c: OverlayCell): OverlayCell {
    OverlayCell(ResetOverlay(c.base), c.replacement, false, [])
  }

  /** Reset, but remember what had been guessed, so that the same guess again is recognised as unearned. */
  function ResetWithOrig(c: OverlayCell): OverlayCell {
    if !c.base.active || c.unknown then ResetCell(c)
    else c.(originals := c.originals + [c.replacement], base := ResetOverlay(c.base))
  }

  predicate IsBlank(c: Cell) {
    c.contents == "" || c.contents == " " || c.contents == ['\U{A0}']
  }

  predicate ContentsMatch(a: Cell, b: Cell) {
    (IsBlank(a) && IsBlank(b)) || a.contents == b.contents
  }

  /** The verdict on a guess, where the screen has this cell. */
  function Verdict(c: OverlayCell, current: Cell, lateAck: nat): Validity {
    if lateAck < c.base.expirationFrame then Pending
    else if c.unknown then CorrectNoCredit
    else if IsBlank(c.replacement) then
      if !IsBlank(current) then Pending
      else if exists o | o in c.originals :: !IsBlank(o) then Correct
      else CorrectNoCredit
    else if ContentsMatch(current, c.replacement) then
      if exists o | o in c.originals :: ContentsMatch(o, c.replacement) then CorrectNoCredit else Correct
    else Incorrect
  }

  function CellValidity(c: OverlayCell, fb: Screen, row: int, lateAck: nat): Validity
    requires WellFormed(fb) && row >= 0 && c.base.col >= 0
  {
    if !c.base.active then Inactive
    else if row >= fb.ds.height || c.base.col >= fb.ds.width then Incorrect
    else Verdict(c, fb.rows[row][c.base.col], lateAck)
  }

  /** A verdict looks at characters only: taking on the server's colours does not change it. */
  lemma VerdictIgnoresRendition(c: OverlayCell, ren: Renditions, current: Cell, lateAck: nat)
    ensures Verdict(c.(replacement := c.replacement.(ren := ren)), current, lateAck) == Verdict(c, current, lateAck)
  {
    var d := c.replacement.(ren := ren);
    assert forall o: Cell :: ContentsMatch(o, d) <==> ContentsMatch(o, c.replacement);
  }

  /**
   * Credit has to be earned: it is given only when the guess has come due and matches the screen, and then
   * either nothing the cell is known to have held matches it, or it was an erasure of something.
   */
  lemma CreditIsEarned(c: OverlayCell, current: Cell, lateAck: nat)
    ensures Verdict(c, current, lateAck) == Correct <==>
      (&& lateAck >= c.base.expirationFrame && !c.unknown && ContentsMatch(current, c.replacement)
       && if IsBlank(c.replacement) then exists o | o in c.originals :: !ContentsMatch(o, c.replacement)
          else forall o | o in c.originals :: !ContentsMatch(o, c.replacement))
  {
    assert IsBlank(c.replacement) ==> forall o :: ContentsMatch(o, c.replacement) <==> IsBlank(o);
    assert ContentsMatch(current, c.replacement) && IsBlank(c.replacement) ==> IsBlank(current);
  }

  // ---------- judging a row ----------

  /** A guess that now expects the server's colours, where those are known. */
  function Dressed(c: OverlayCell, ren: Option<Renditions>): OverlayCell {
    if ren == None then c else c.(replacement := c.replacement.(ren := ren.value))
  }

  lemma ValidityIgnoresRendition(c: OverlayCell, ren: Option<Renditions>, fb: Screen, row: int, lateAck: nat)
    requires WellFormed(fb) && row >= 0 && c.base.col >= 0
    ensures CellValidity(Dressed(c, ren), fb, row, lateAck) == CellValidity(c, fb, row, lateAck)
  {
    hide Verdict, WellFormed;
    if ren.Some? && 0 <= row < fb.ds.height && c.base.col < fb.ds.width {
      WidthOf(fb, row);
      VerdictIgnoresRendition(c, ren.value, fb.rows[row][c.base.col], lateAck);
    }
  }

  lemma InactiveMeans(c: OverlayCell, fb: Screen, row: int, lateAck: nat)
    requires WellFormed(fb) && row >= 0 && c.base.col >= 0
    ensures CellValidity(c, fb, row, lateAck) == Inactive <==> !c.base.active
  {
    hide WellFormed;
    if 0 <= row < fb.ds.height { WidthOf(fb, row); }
  }

  lemma WidthOf(fb: Screen, row: int)
    requires WellFormed(fb) && 0 <= row < fb.ds.height
    ensures |fb.rows| == fb.ds.height && |fb.rows[row]| == fb.ds.width
  {
    assert WellFormedRow(fb.rows[row], fb.ds.width);
  }

  predicate InColumns(cells: seq<OverlayCell>) {
    forall x | 0 <= x < |cells| :: cells[x].base.col == x
  }

  /** The colours learnt from the first `x` columns: those of the last one whose guess proved correct. */
  function Learnt(cells: seq<OverlayCell>, fb: Screen, row: int, lateAck: nat, x: nat): Option<Renditions>
    requires WellFormed(fb) && 0 <= row < fb.ds.height && x <= |cells| == fb.ds.width
    requires InColumns(cells)
  {
    if x == 0 then None
    else if CellValidity(cells[x - 1], fb, row, lateAck) == Correct then
      WidthOf(fb, row);
      Some(fb.rows[row][x - 1].ren)
    else Learnt(cells, fb, row, lateAck, x - 1)
  }

  function DressedFrom(cells: seq<OverlayCell>, from: nat, ren: Renditions): (r: seq<OverlayCell>)
    ensures |r| == |cells|
  {
    seq(|cells|, x requires 0 <= x < |cells| => if x < from then cells[x] else Dressed(cells[x], Some(ren)))
  }

  /** What judging one cell does to its row: a correct guess dresses the rest of the row too. */
  function CellJudged(cells: seq<OverlayCell>, fb: Screen, row: int, lateAck: nat, x: nat): (r: seq<OverlayCell>)
    requires WellFormed(fb) && 0 <= row < fb.ds.height && x < |cells| == fb.ds.width && InColumns(cells)
    ensures |r| == |cells|
  {
    WidthOf(fb, row);
    var v := CellValidity(cells[x], fb, row, lateAck);
    var dressed := if v == Correct then DressedFrom(cells, x, fb.rows[row][x].ren) else cells;
    if v in {Pending, Inactive} then dressed else dressed[x := ResetCell(dressed[x])]
  }

  const GLITCH_THRESHOLD := 250
  const GLITCH_REPAIR_COUNT := 10
  const GLITCH_REPAIR_MININTERVAL := 150
  const GLITCH_FLAG_THRESHOLD := 5000

  /** What judging keeps count of: the newest epoch confirmed, the glitches to work off, and when one last was. */
  datatype Tally = Tally(confirmed: nat, glitches: nat, lastQuick: nat)

  /** A glitch can be worked off by a guess made at `time` that turns out right now. */
  predicate WorksOff(t: Tally, time: nat, now: nat) {
    && SaturatingSub(now, time) < GLITCH_THRESHOLD && t.glitches > 0
    && SaturatingSub(now, GLITCH_REPAIR_MININTERVAL) >= t.lastQuick
  }

  /** The glitches once a guess has been outstanding for so long. */
  function Outstanding(glitches: nat, elapsed: nat): nat {
    if elapsed >= GLITCH_FLAG_THRESHOLD then GLITCH_REPAIR_COUNT * 2
    else if elapsed >= GLITCH_THRESHOLD then Max(glitches, GLITCH_REPAIR_COUNT)
    else glitches
  }

  /** What one verdict does to the tally. */
  function Counted(base: Overlay, v: Validity, t: Tally, now: nat): (r: Tally)
    ensures r.confirmed >= t.confirmed
  {
    if v == Correct then
      var confirmed := Max(base.tentativeUntilEpoch, t.confirmed);
      if WorksOff(t, base.predictionTime, now) then Tally(confirmed, t.glitches - 1, now)
      else t.(confirmed := confirmed)
    else if v == Pending then t.(glitches := Outstanding(t.glitches, SaturatingSub(now, base.predictionTime)))
    else t
  }

  /** What is left of a guess once its row was judged: nothing if it was decided, else itself in the colours learnt. */
  function Judged(cells: seq<OverlayCell>, fb: Screen, row: int, lateAck: nat, x: nat): OverlayCell
    requires WellFormed(fb) && 0 <= row < fb.ds.height && x < |cells| == fb.ds.width
    requires InColumns(cells)
  {
    var c := Dressed(cells[x], Learnt(cells, fb, row, lateAck, x + 1));
    if CellValidity(cells[x], fb, row, lateAck) in {Pending, Inactive} then c else ResetCell(c)
  }

  /** The tally after the first `x` columns of a row. */
  function Tallied(cells: seq<OverlayCell>, fb: Screen, row: int, lateAck: nat, x: nat, before: Tally,
                   now: nat): (t: Tally)
    requires WellFormed(fb) && row >= 0 && x <= |cells|
    requires InColumns(cells)
    ensures t.confirmed >= before.confirmed
  {
    if x == 0 then before
    else
      var t := Tallied(cells, fb, row, lateAck, x - 1, before, now);
      Counted(cells[x - 1].base, CellValidity(cells[x - 1], fb, row, lateAck), t, now)
  }

  /** The first column from `x` on whose guess is wrong, or the length. */
  function FirstWrong(cells: seq<OverlayCell>, fb: Screen, row: int, lateAck: nat, x: nat): (k: nat)
    requires WellFormed(fb) && row >= 0 && x <= |cells|
    requires InColumns(cells)
    ensures x <= k <= |cells|
    ensures forall j | x <= j < k :: CellValidity(cells[j], fb, row, lateAck) != Incorrect
    ensures k < |cells| ==> CellValidity(cells[k], fb, row, lateAck) == Incorrect
    decreases |cells| - x
  {
    if x == |cells| || CellValidity(cells[x], fb, row, lateAck) == Incorrect then x
    else FirstWrong(cells, fb, row, lateAck, x + 1)
  }

  // ---------- a row ----------

  datatype OverlayRow = OverlayRow(rowNum: int, cells: seq<OverlayCell>)

  function NewOverlayRow(rowNum: int, width: nat, epoch: nat): OverlayRow {
    OverlayRow(rowNum, seq(width, x => NewOverlayCell(x, epoch)))
  }

  /** A cell as guessed, `None` if all that is guessed is that it changes. */
  function Predicted(c: OverlayCell, current: Cell): Option<Cell> {
    if !c.base.active then Some(current) else if c.unknown then None else Some(c.replacement)
  }

  /** The row as guessed, over the row as the server last had it. */
  function Guessed(cells: seq<OverlayCell>, row: Row): seq<Option<Cell>>
    requires |cells| == |row|
  {
    seq(|cells|, x requires 0 <= x < |cells| => Predicted(cells[x], row[x]))
  }

  // ---------- what typing and erasing do to a row of text ----------

  /** Typing pushes the rest of the row right; what then stands in the last column is anyone's guess. */
  function Typed(view: seq<Option<Cell>>, col: nat, cell: Cell): seq<Option<Cell>>
    requires col < |view|
  {
    if col == |view| - 1 then view[..col] + [Some(cell)]
    else view[..col] + [Some(cell)] + view[col..|view| - 2] + [None]
  }

  /** Erasing pulls the rest of the row left; what then stands in the last two columns is anyone's guess. */
  function Deleted(view: seq<Option<Cell>>, col: nat): seq<Option<Cell>>
    requires col < |view|
  {
    seq(|view|, x requires 0 <= x < |view| => if x < col then view[x] else if x + 2 < |view| then view[x + 1] else None)
  }

  /** Erasing `count` cells up to column `col` at once. */
  function DeletedSpan(view: seq<Option<Cell>>, col: nat, count: nat): seq<Option<Cell>>
    requires count <= col <= |view|
  {
    if count == 0 then view
    else
      seq(|view|, x requires 0 <= x < |view| =>
        if x < col - count then view[x] else if x + count + 1 < |view| then view[x + count] else None)
  }

  lemma DeletedSpanAt(view: seq<Option<Cell>>, col: nat, count: nat, x: nat)
    requires count <= col <= |view| && x < |view|
    ensures |DeletedSpan(view, col, count)| == |view|
    ensures DeletedSpan(view, col, count)[x]
         == if count == 0 || x < col - count then view[x] else if x + count + 1 < |view| then view[x + count] else None
  {
  }

  lemma DeletedAt(view: seq<Option<Cell>>, col: nat, x: nat)
    requires col < |view| && x < |view|
    ensures |Deleted(view, col)| == |view|
    ensures Deleted(view, col)[x] == if x < col then view[x] else if x + 2 < |view| then view[x + 1] else None
  {
  }

  /** One erasure more takes one cell more off the span. */
  lemma DeletedStep(view: seq<Option<Cell>>, col: nat, count: nat)
    requires count < col <= |view|
    ensures |DeletedSpan(view, col, count)| == |view|
    ensures Deleted(DeletedSpan(view, col, count), col - count - 1) == DeletedSpan(view, col, count + 1)
  {
    var part, span := DeletedSpan(view, col, count), DeletedSpan(view, col, count + 1);
    DeletedSpanAt(view, col, count, 0);
    DeletedSpanAt(view, col, count + 1, 0);
    var once := Deleted(part, col - count - 1);
    DeletedAt(part, col - count - 1, 0);
    hide DeletedSpan, Deleted;
    forall x: nat | x < |view|
      ensures once[x] == span[x]
    {
      DeletedAt(part, col - count - 1, x);
      DeletedSpanAt(view, col, count, x);
      DeletedSpanAt(view, col, count + 1, x);
      if x + 1 < |view| { DeletedSpanAt(view, col, count, x + 1); }
    }
  }

  /** Typing a character and erasing it again gives back every column but those whose content was pushed off. */
  lemma ErasingUndoesTyping(view: seq<Option<Cell>>, col: nat, cell: Cell)
    requires col + 1 < |view|
    ensures |Typed(view, col, cell)| == |view|
    ensures forall x | 0 <= x < |view| && (x < col || x + 2 < |view|) ::
      Deleted(Typed(view, col, cell), col)[x] == view[x]
    ensures forall x | col <= x < |view| && |view| <= x + 2 :: Deleted(Typed(view, col, cell), col)[x] == None
  {
  }

  /** Where the word to the left begins: back over blanks, then over what is not blank; an unknown cell ends it. */
  function SkipBlanks(view: seq<Option<Cell>>, col: nat, blank: bool): (r: nat)
    requires col <= |view|
    ensures r <= col
    ensures forall x | r <= x < col :: view[x].Some? && IsBlank(view[x].value) == blank
    ensures r > 0 ==> !(view[r - 1].Some? && IsBlank(view[r - 1].value) == blank)
  {
    if col > 0 && view[col - 1].Some? && IsBlank(view[col - 1].value) == blank then SkipBlanks(view, col - 1, blank)
    else col
  }

  function WordStart(view: seq<Option<Cell>>, col: nat): (r: nat)
    requires col <= |view|
    ensures var end := SkipBlanks(view, col, true);
      && r <= end <= col
      && (forall x | r <= x < col :: view[x].Some? && (IsBlank(view[x].value) <==> x >= end))
      && (r > 0 ==> view[r - 1].None? || IsBlank(view[r - 1].value))
  {
    SkipBlanks(view, SkipBlanks(view, col, true), false)
  }
}

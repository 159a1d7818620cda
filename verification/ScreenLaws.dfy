/** Laws of the shifts a screen makes: a bulk shift is so many single ones, and nothing outside it moves. */
module ScreenLaws {
  import opened Rendition
  import opened Screens
  import opened Actions

  // ---------- cells ----------

  lemma InsertedCellAt(row: Row, col: nat, count: nat, bg: Color, x: nat)
    requires col < |row| && x < |row|
    ensures |InsertedCells(row, col, count, bg)| == |row|
    ensures InsertedCells(row, col, count, bg)[x]
         == if x < col then row[x] else if x < col + count then Blank(bg) else row[x - count]
  {
  }

  lemma DeletedCellAt(row: Row, col: nat, count: nat, bg: Color, x: nat)
    requires col < |row| && x < |row|
    ensures |DeletedCells(row, col, count, bg)| == |row|
    ensures DeletedCells(row, col, count, bg)[x]
         == if x < col then row[x] else if x + count < |row| then row[x + count] else Blank(bg)
  {
  }

  function InsertedOneByOne(row: Row, col: nat, count: nat, bg: Color): Row
    decreases count
  {
    if count == 0 then row else InsertedCells(InsertedOneByOne(row, col, count - 1, bg), col, 1, bg)
  }

  function DeletedOneByOne(row: Row, col: nat, count: nat, bg: Color): Row
    decreases count
  {
    if count == 0 then row else DeletedCells(DeletedOneByOne(row, col, count - 1, bg), col, 1, bg)
  }

  lemma InsertNone(row: Row, col: nat, bg: Color)
    ensures InsertedCells(row, col, 0, bg) == row
  {
    assert BlankRow(0, bg) == [];
  }

  lemma InsertOneMore(row: Row, col: nat, count: nat, bg: Color)
    ensures InsertedCells(row, col, count + 1, bg) == InsertedCells(InsertedCells(row, col, count, bg), col, 1, bg)
  {
    var all, most := InsertedCells(row, col, count + 1, bg), InsertedCells(row, col, count, bg);
    if col < |row| {
      InsertedCellAt(row, col, count + 1, bg, 0);
      InsertedCellAt(row, col, count, bg, 0);
      InsertedCellAt(most, col, 1, bg, 0);
      var again := InsertedCells(most, col, 1, bg);
      hide InsertedCells, Blank;
      forall x: nat | x < |row|
        ensures all[x] == again[x]
      {
        InsertedCellAt(row, col, count + 1, bg, x);
        InsertedCellAt(row, col, count, bg, x);
        InsertedCellAt(most, col, 1, bg, x);
        if x > 0 { InsertedCellAt(row, col, count, bg, x - 1); }
      }
      assert all == again;
    }
  }

  /** Opening `count` cells at once is opening one `count` times, at any column and for any count. */
  lemma {:induction false} InsertInBulk(row: Row, col: nat, count: nat, bg: Color)
    ensures InsertedCells(row, col, count, bg) == InsertedOneByOne(row, col, count, bg)
    decreases count
  {
    hide InsertedCells;
    if count == 0 {
      InsertNone(row, col, bg);
    } else {
      InsertInBulk(row, col, count - 1, bg);
      InsertOneMore(row, col, count - 1, bg);
    }
  }

  lemma DeleteNone(row: Row, col: nat, bg: Color)
    ensures DeletedCells(row, col, 0, bg) == row
  {
    assert BlankRow(0, bg) == [];
  }

  lemma DeleteOneMore(row: Row, col: nat, count: nat, bg: Color)
    ensures DeletedCells(row, col, count + 1, bg) == DeletedCells(DeletedCells(row, col, count, bg), col, 1, bg)
  {
    var all, most := DeletedCells(row, col, count + 1, bg), DeletedCells(row, col, count, bg);
    if col < |row| {
      DeletedCellAt(row, col, count + 1, bg, 0);
      DeletedCellAt(row, col, count, bg, 0);
      DeletedCellAt(most, col, 1, bg, 0);
      var again := DeletedCells(most, col, 1, bg);
      hide DeletedCells, Blank;
      forall x: nat | x < |row|
        ensures all[x] == again[x]
      {
        DeletedCellAt(row, col, count + 1, bg, x);
        DeletedCellAt(row, col, count, bg, x);
        DeletedCellAt(most, col, 1, bg, x);
        if x + 1 < |row| { DeletedCellAt(row, col, count, bg, x + 1); }
      }
      assert all == again;
    }
  }

  /** Removing `count` cells at once is removing one `count` times. */
  lemma {:induction false} DeleteInBulk(row: Row, col: nat, count: nat, bg: Color)
    ensures DeletedCells(row, col, count, bg) == DeletedOneByOne(row, col, count, bg)
    decreases count
  {
    hide DeletedCells;
    if count == 0 {
      DeleteNone(row, col, bg);
    } else {
      DeleteInBulk(row, col, count - 1, bg);
      DeleteOneMore(row, col, count - 1, bg);
    }
  }

  /** Removing what was just opened restores the row, but for the cells that fell off its end. */
  lemma DeleteUndoesInsert(row: Row, col: nat, count: nat, bg: Color)
    requires col < |row| && col + count <= |row|
    ensures DeletedCells(InsertedCells(row, col, count, bg), col, count, bg)
      == row[..|row| - count] + BlankRow(count, bg)
  {
    var wider := InsertedCells(row, col, count, bg);
    InsertedCellAt(row, col, count, bg, 0);
    var closed := DeletedCells(wider, col, count, bg);
    DeletedCellAt(wider, col, count, bg, 0);
    forall x: nat | x < |row|
      ensures closed[x] == (row[..|row| - count] + BlankRow(count, bg))[x]
    {
      DeletedCellAt(wider, col, count, bg, x);
      InsertedCellAt(row, col, count, bg, if x < col || x + count >= |row| then x else x + count);
    }
  }

  // ---------- lines ----------

  lemma InsertedLineAt<R>(rows: seq<R>, top: int, bottom: int, before: int, count: nat, blank: R, y: nat)
    requires 0 <= top <= before <= bottom < |rows| && y < |rows|
    ensures LinesInserted(rows, top, bottom, before, count, blank)[y]
         == if y < before || y > bottom then rows[y] else if y < before + count then blank else rows[y - count]
  {
  }

  lemma DeletedLineAt<R>(rows: seq<R>, top: int, bottom: int, row: int, count: nat, blank: R, y: nat)
    requires 0 <= top <= row <= bottom < |rows| && y < |rows|
    ensures LinesDeleted(rows, top, bottom, row, count, blank)[y]
         == if y < row || y > bottom then rows[y] else if y + count <= bottom then rows[y + count] else blank
  {
  }

  function LinesInsertedOneByOne<R>(rows: seq<R>, top: int, bottom: int, before: int, count: nat, blank: R): (r: seq<R>)
    requires 0 <= top <= bottom < |rows|
    ensures |r| == |rows|
    decreases count
  {
    if count == 0 then rows
    else LinesInserted(LinesInsertedOneByOne(rows, top, bottom, before, count - 1, blank), top, bottom, before, 1,
      blank)
  }

  function LinesDeletedOneByOne<R>(rows: seq<R>, top: int, bottom: int, row: int, count: nat, blank: R): (r: seq<R>)
    requires 0 <= top <= bottom < |rows|
    ensures |r| == |rows|
    decreases count
  {
    if count == 0 then rows
    else LinesDeleted(LinesDeletedOneByOne(rows, top, bottom, row, count - 1, blank), top, bottom, row, 1, blank)
  }

  lemma InsertLinesNone<R>(rows: seq<R>, top: int, bottom: int, before: int, blank: R)
    requires 0 <= top <= bottom < |rows|
    ensures LinesInserted(rows, top, bottom, before, 0, blank) == rows
  {
  }

  lemma InsertOneMoreLine<R>(rows: seq<R>, top: int, bottom: int, before: int, count: nat, blank: R)
    requires 0 <= top <= bottom < |rows|
    ensures var most := LinesInserted(rows, top, bottom, before, count, blank);
      LinesInserted(rows, top, bottom, before, count + 1, blank) == LinesInserted(most, top, bottom, before, 1, blank)
  {
    if top <= before <= bottom {
      var all := LinesInserted(rows, top, bottom, before, count + 1, blank);
      var most := LinesInserted(rows, top, bottom, before, count, blank);
      var again := LinesInserted(most, top, bottom, before, 1, blank);
      hide LinesInserted;
      forall y: nat | y < |rows|
        ensures all[y] == again[y]
      {
        InsertedLineAt(rows, top, bottom, before, count + 1, blank, y);
        InsertedLineAt(rows, top, bottom, before, count, blank, y);
        InsertedLineAt(most, top, bottom, before, 1, blank, y);
        if y > 0 { InsertedLineAt(rows, top, bottom, before, count, blank, y - 1); }
      }
      assert all == again;
    }
  }

  /** Inserting `count` lines at once is inserting one `count` times, wherever the cursor and the region are. */
  lemma {:induction false} InsertLinesInBulk<R>(rows: seq<R>, top: int, bottom: int, before: int, count: nat, blank: R)
    requires 0 <= top <= bottom < |rows|
    ensures LinesInserted(rows, top, bottom, before, count, blank)
      == LinesInsertedOneByOne(rows, top, bottom, before, count, blank)
    decreases count
  {
    hide LinesInserted;
    if count == 0 {
      InsertLinesNone(rows, top, bottom, before, blank);
    } else {
      InsertLinesInBulk(rows, top, bottom, before, count - 1, blank);
      InsertOneMoreLine(rows, top, bottom, before, count - 1, blank);
    }
  }

  lemma DeleteLinesNone<R>(rows: seq<R>, top: int, bottom: int, row: int, blank: R)
    requires 0 <= top <= bottom < |rows|
    ensures LinesDeleted(rows, top, bottom, row, 0, blank) == rows
  {
  }

  lemma DeleteOneMoreLine<R>(rows: seq<R>, top: int, bottom: int, row: int, count: nat, blank: R)
    requires 0 <= top <= bottom < |rows|
    ensures var most := LinesDeleted(rows, top, bottom, row, count, blank);
      LinesDeleted(rows, top, bottom, row, count + 1, blank) == LinesDeleted(most, top, bottom, row, 1, blank)
  {
    if top <= row <= bottom {
      var all := LinesDeleted(rows, top, bottom, row, count + 1, blank);
      var most := LinesDeleted(rows, top, bottom, row, count, blank);
      var again := LinesDeleted(most, top, bottom, row, 1, blank);
      hide LinesDeleted;
      forall y: nat | y < |rows|
        ensures all[y] == again[y]
      {
        DeletedLineAt(rows, top, bottom, row, count + 1, blank, y);
        DeletedLineAt(rows, top, bottom, row, count, blank, y);
        DeletedLineAt(most, top, bottom, row, 1, blank, y);
        if y + 1 < |rows| { DeletedLineAt(rows, top, bottom, row, count, blank, y + 1); }
      }
      assert all == again;
    }
  }

  /** Deleting `count` lines at once is deleting one `count` times. */
  lemma {:induction false} DeleteLinesInBulk<R>(rows: seq<R>, top: int, bottom: int, row: int, count: nat, blank: R)
    requires 0 <= top <= bottom < |rows|
    ensures LinesDeleted(rows, top, bottom, row, count, blank)
      == LinesDeletedOneByOne(rows, top, bottom, row, count, blank)
    decreases count
  {
    hide LinesDeleted;
    if count == 0 {
      DeleteLinesNone(rows, top, bottom, row, blank);
    } else {
      DeleteLinesInBulk(rows, top, bottom, row, count - 1, blank);
      DeleteOneMoreLine(rows, top, bottom, row, count - 1, blank);
    }
  }

  /** Neither touches a line above the cursor or outside the region, and a cursor outside it changes nothing. */
  lemma LinesOutsideRegionStay<R>(rows: seq<R>, top: int, bottom: int, row: int, count: nat, blank: R, y: nat)
    requires 0 <= top <= bottom < |rows| && y < |rows|
    requires y < top || y > bottom || y < row || row < top || row > bottom
    ensures LinesInserted(rows, top, bottom, row, count, blank)[y] == rows[y]
    ensures LinesDeleted(rows, top, bottom, row, count, blank)[y] == rows[y]
  {
    if top <= row <= bottom {
      InsertedLineAt(rows, top, bottom, row, count, blank, y);
      DeletedLineAt(rows, top, bottom, row, count, blank, y);
    }
  }

  // ---------- whole sessions ----------

  datatype Event = Host(action: Action) | Resized(width: int, height: int)

  function Happen(s: Screen, e: Event): (r: Screen)
    requires WellFormed(s)
    ensures WellFormed(r)
  {
    match e
    case Host(action) => Act(s, action)
    case Resized(width, height) => Resize(s, width, height)
  }

  /** Everything a terminal lives through: output from the host and resizes, in any order. */
  function Live(s: Screen, events: seq<Event>): (r: Screen)
    requires WellFormed(s)
    ensures WellFormed(r)
    decreases |events|
  {
    if events == [] then s else Live(Happen(s, events[0]), events[1..])
  }

  /** No sequence of output and resizes, from any starting size, breaks the screen's shape. */
  lemma AlwaysWellFormed(width: int, height: int, events: seq<Event>)
    ensures WellFormed(NewScreen(width, height)) && WellFormed(Live(NewScreen(width, height), events))
  {
    var s := NewScreen(width, height);
    assert WellFormed(s);
  }
}

/** Cutting formatted text to a window of columns, and expanding tabs (fmtext.c). */
module FormattedColumns {
  import opened Strings
  import opened FormattedText
  import opened FormattedLines

  /** `mk_wcwidth`: how many columns a character takes. */
  type Width = Rune -> int

  /** No control characters: everything shown takes no column, one or two. */
  ghost predicate Printable(cells: seq<Cell>, w: Width) {
    forall i :: 0 <= i < |cells| && !IsNewline(cells[i]) ==> 0 <= w(cells[i].ch) <= 2
  }

  // ------------------------------------------------------------ columns of a line

  /** The column cell k of a line starts at. */
  function ColAt(line: seq<Cell>, k: nat, w: Width): int
    requires k <= |line|
  {
    if k == 0 then 0 else ColAt(line, k - 1, w) + w(line[k - 1].ch)
  }

  /** A line whose cells take no column, one or two. */
  ghost predicate IsLine(line: seq<Cell>, w: Width) {
    NoNewline(line) && forall i :: 0 <= i < |line| ==> 0 <= w(line[i].ch) <= 2
  }

  lemma ColStep(line: seq<Cell>, k: nat, w: Width)
    requires k < |line|
    ensures ColAt(line, k + 1, w) == ColAt(line, k, w) + w(line[k].ch) && ColAt(line, 0, w) == 0
  {
  }

  lemma {:induction false} ColMonotone(line: seq<Cell>, i: nat, j: nat, w: Width)
    requires IsLine(line, w) && i <= j <= |line|
    ensures ColAt(line, i, w) <= ColAt(line, j, w)
    decreases j
  {
    if i >= j {
    } else {
      ColMonotone(line, i, j - 1, w);
    }
  }

  /** The first cell, from k on, that starts at or after a column. */
  function FirstAt(line: seq<Cell>, k: nat, col: int, w: Width): (r: nat)
    requires k <= |line|
    ensures k <= r <= |line|
    ensures r < |line| ==> ColAt(line, r, w) >= col
    ensures forall i :: k <= i < r ==> ColAt(line, i, w) < col
    decreases |line| - k
  {
    if k == |line| || ColAt(line, k, w) >= col then k else FirstAt(line, k + 1, col, w)
  }

  /** The first cell, from k on, that reaches past a column. */
  function BreakAt(line: seq<Cell>, k: nat, bcol: int, w: Width): (r: nat)
    requires k <= |line|
    ensures k <= r <= |line|
    ensures r < |line| ==> ColAt(line, r, w) + w(line[r].ch) > bcol
    ensures forall i :: k <= i < r ==> ColAt(line, i, w) + w(line[i].ch) <= bcol
    decreases |line| - k
  {
    if k == |line| || ColAt(line, k, w) + w(line[k].ch) > bcol then k else BreakAt(line, k + 1, bcol, w)
  }

  // -------------------------------------------------------- what should be shown

  /** A cell on a screen row, with its column. */
  datatype Placed = Placed(col: int, cell: Cell)

  type Row = seq<Placed>

  /** Cell k of the line belongs in the window: it starts at acol or later and ends by
      bcol. */
  predicate InWindow(line: seq<Cell>, k: nat, acol: int, bcol: int, w: Width)
    requires k < |line|
  {
    acol <= ColAt(line, k, w) <= bcol && ColAt(line, k, w) + w(line[k].ch) <= bcol + 1
  }

  /** The cells of line[..k] that belong in the window, shifted left by acol. */
  function Shown(line: seq<Cell>, k: nat, acol: int, bcol: int, w: Width): Row
    requires k <= |line|
  {
    if k == 0 then []
    else if !InWindow(line, k - 1, acol, bcol, w) then Shown(line, k - 1, acol, bcol, w)
    else Shown(line, k - 1, acol, bcol, w) + [Placed(ColAt(line, k - 1, w) - acol, line[k - 1])]
  }

  /** Blanks for columns 0 up to n. */
  function BlankRow(n: int): Row {
    if n <= 0 then [] else BlankRow(n - 1) + [Placed(n - 1, Cell(BLANK, NORMAL))]
  }

  function Padded(cells: Row): Row {
    if cells == [] then [] else BlankRow(cells[0].col) + cells
  }

  /** How a source line looks through the window: its cells at their own columns, after
      blanks for the half of a wide character that is cut at the left edge. */
  function WindowRow(line: seq<Cell>, acol: int, bcol: int, w: Width): Row {
    Padded(Shown(line, |line|, acol, bcol, w))
  }

  // ------------------------------------------------------------ a screen to show it

  /** A screen `width` columns wide while text is printed to it: the rows finished, the
      current row, and the cursor's column. */
  datatype Screen = Screen(rows: seq<Row>, cur: Row, col: int)

  /** A newline ends the row; a character that does not fit goes to the next row; a row
      that is full ends by itself. */
  function Put(s: Screen, c: Cell, width: int, w: Width): Screen {
    if IsNewline(c) then Screen(s.rows + [s.cur], [], 0)
    else
      var s' := if s.col + w(c.ch) > width then Screen(s.rows + [s.cur], [], 0) else s;
      var row := s'.cur + [Placed(s'.col, c)];
      if s'.col + w(c.ch) >= width then Screen(s'.rows + [row], [], 0)
      else Screen(s'.rows, row, s'.col + w(c.ch))
  }

  function PutAll(s: Screen, cells: seq<Cell>, width: int, w: Width): Screen
    decreases |cells|
  {
    if cells == [] then s else PutAll(Put(s, cells[0], width, w), cells[1..], width, w)
  }

  lemma {:induction false} PutAllConcat(s: Screen, a: seq<Cell>, b: seq<Cell>, width: int, w: Width)
    ensures PutAll(s, a + b, width, w) == PutAll(PutAll(s, a, width, w), b, width, w)
    decreases |a|
  {
    if a == [] {
      assert a + b == b;
    } else {
      assert (a + b)[1..] == a[1..] + b;
      PutAllConcat(Put(s, a[0], width, w), a[1..], b, width, w);
    }
  }

  lemma PutOne(s: Screen, c: Cell, width: int, w: Width)
    ensures PutAll(s, [c], width, w) == Put(s, c, width, w)
  {
  }

  // ------------------------------------------------- what the source makes of a line

  /** The cells `_owl_fmtext_truncate_cols_internal` writes for one line: nothing but a
      newline if no cell at or after acol comes before the break; otherwise padding, and
      the cells up to the newline, up to a wide character that does not fit (and a newline
      in its place), or up to and including the narrow character on the last column. */
  function PieceCells(line: seq<Cell>, nl: Cell, acol: int, bcol: int, w: Width): seq<Cell> {
    var first, stop := FirstAt(line, 0, acol, w), BreakAt(line, 0, bcol, w);
    if first >= stop then [Cell(NEWLINE, NORMAL)]
    else
      Blanks(ColAt(line, first, w) - acol) +
      (if stop == |line| then line[first..] + [nl]
       else if w(line[stop].ch) > 1 then line[first..stop] + [Cell(NEWLINE, NORMAL)]
       else line[first..stop + 1])
  }

  // ------------------------------------------------------ what the source reaches

  /** The source reaches cell k: it starts at acol or later and ends before bcol, or it is a
      narrow character on bcol itself. */
  predicate Reached(line: seq<Cell>, k: nat, acol: int, bcol: int, w: Width)
    requires k < |line|
  {
    var col := ColAt(line, k, w);
    acol <= col && (col + w(line[k].ch) <= bcol || (col == bcol && w(line[k].ch) == 1))
  }

  /** The cells of line[..k] the source reaches, shifted left by acol. */
  function Kept(line: seq<Cell>, k: nat, acol: int, bcol: int, w: Width): Row
    requires k <= |line|
  {
    if k == 0 then []
    else if !Reached(line, k - 1, acol, bcol, w) then Kept(line, k - 1, acol, bcol, w)
    else Kept(line, k - 1, acol, bcol, w) + [Placed(ColAt(line, k - 1, w) - acol, line[k - 1])]
  }

  function ReachedRow(line: seq<Cell>, acol: int, bcol: int, w: Width): Row {
    Padded(Kept(line, |line|, acol, bcol, w))
  }

  /** One way a line goes wrong: its first character at or after acol is a narrow one
      exactly on bcol. The break comes before anything has been kept. */
  predicate LosesLastColumn(line: seq<Cell>, acol: int, bcol: int, w: Width) {
    var first := FirstAt(line, 0, acol, w);
    first < |line| && ColAt(line, first, w) == bcol && w(line[first].ch) == 1
  }

  /** The other: a wide character on the last two columns. It would fit, but is taken for one
      that does not. */
  predicate LosesWide(line: seq<Cell>, acol: int, bcol: int, w: Width) {
    exists k :: 0 <= k < |line| && OnLastTwo(line, k, acol, bcol, w)
  }

  predicate OnLastTwo(line: seq<Cell>, k: nat, acol: int, bcol: int, w: Width)
    requires k < |line|
  {
    acol <= ColAt(line, k, w) == bcol - 1 && w(line[k].ch) == 2
  }

  predicate Loses(line: seq<Cell>, acol: int, bcol: int, w: Width) {
    LosesLastColumn(line, acol, bcol, w) || LosesWide(line, acol, bcol, w)
  }

  lemma {:induction false} KeptNothing(line: seq<Cell>, k: nat, acol: int, bcol: int, w: Width)
    requires k <= FirstAt(line, 0, acol, w)
    ensures Kept(line, k, acol, bcol, w) == []
  {
    if k == 0 {
    } else {
      KeptNothing(line, k - 1, acol, bcol, w);
    }
  }

  /** Past the break nothing belongs in the window. */
  lemma {:induction false} KeptNoMore(line: seq<Cell>, k: nat, acol: int, bcol: int, w: Width)
    requires IsLine(line, w)
    requires var stop := BreakAt(line, 0, bcol, w); stop < k <= |line|
    ensures var stop := BreakAt(line, 0, bcol, w);
            Kept(line, k, acol, bcol, w) == Kept(line, stop + 1, acol, bcol, w)
    decreases k
  {
    hide BreakAt;
    hide ColAt;
    var stop := BreakAt(line, 0, bcol, w);
    if k <= stop + 1 {
    } else {
      KeptNoMore(line, k - 1, acol, bcol, w);
      ColStep(line, stop, w);
      ColMonotone(line, stop + 1, k - 1, w);
    }
  }

  /** Before the break everything from the first cell on belongs in the window, and
      printing it puts every cell at its source column minus acol. */
  lemma {:induction false} PrintKept(rows: seq<Row>, line: seq<Cell>, k: nat, acol: int, bcol: int, w: Width)
    requires IsLine(line, w) && acol <= bcol
    requires FirstAt(line, 0, acol, w) < k <= BreakAt(line, 0, bcol, w)
    ensures var first := FirstAt(line, 0, acol, w);
            var pad := ColAt(line, first, w) - acol;
            var kept := Kept(line, k, acol, bcol, w);
            kept != [] && kept[0].col == pad && acol <= ColAt(line, k, w) <= bcol &&
            PutAll(Screen(rows, BlankRow(pad), pad), line[first..k], bcol - acol + 1, w) ==
            Screen(rows, BlankRow(pad) + kept, ColAt(line, k, w) - acol)
    decreases k
  {
    hide FirstAt;
    hide BreakAt;
    hide ColAt;
    hide PutAll;
    hide BlankRow;
    var first := FirstAt(line, 0, acol, w);
    var pad := ColAt(line, first, w) - acol;
    var start, width := Screen(rows, BlankRow(pad), pad), bcol - acol + 1;
    var c := line[k - 1];
    ColMonotone(line, first, k - 1, w);
    ColStep(line, k - 1, w);
    KeptStep(line, k - 1, acol, bcol, w);
    hide Kept;
    if k - 1 == first {
      KeptNothing(line, first, acol, bcol, w);
      assert line[first..k] == [c];
      PutOne(start, c, width, w);
      assert PutAll(start, line[first..k], width, w) ==
             Screen(rows, BlankRow(pad) + [Placed(pad, c)], ColAt(line, k, w) - acol);
    } else {
      PrintKept(rows, line, k - 1, acol, bcol, w);
      PutNext(start, line, first, k - 1, width, w);
    }
  }

  lemma KeptStep(line: seq<Cell>, k: nat, acol: int, bcol: int, w: Width)
    requires k < |line| && Reached(line, k, acol, bcol, w)
    ensures var placed := Placed(ColAt(line, k, w) - acol, line[k]);
            var before := Kept(line, k, acol, bcol, w);
            Kept(line, k + 1, acol, bcol, w) == before + [placed] &&
            forall row: Row :: row + before + [placed] == row + (before + [placed])
  {
  }

  lemma PutNext(start: Screen, line: seq<Cell>, i: nat, k: nat, width: int, w: Width)
    requires i <= k < |line|
    ensures PutAll(start, line[i..k + 1], width, w) == Put(PutAll(start, line[i..k], width, w), line[k], width, w)
  {
    hide Put;
    assert line[i..k + 1] == line[i..k] + [line[k]];
    PutAllConcat(start, line[i..k], [line[k]], width, w);
    PutOne(PutAll(start, line[i..k], width, w), line[k], width, w);
  }

  lemma {:induction false} PrintBlanks(rows: seq<Row>, n: nat, width: int, w: Width)
    requires n < width && w(BLANK) == 1
    ensures PutAll(Screen(rows, [], 0), Blanks(n), width, w) == Screen(rows, BlankRow(n), n)
  {
    if n == 0 {
    } else {
      PrintBlanks(rows, n - 1, width, w);
      BlanksSnoc(n - 1);
      var blank := Cell(BLANK, NORMAL);
      PutAllConcat(Screen(rows, [], 0), Blanks(n - 1), [blank], width, w);
      PutOne(Screen(rows, BlankRow(n - 1), n - 1), blank, width, w);
    }
  }

  /** What is printed for a line is one screen row, always a beginning of the row the window
      shows of the line, and all of it exactly if the line does not lose anything. */
  lemma PieceIsOneRow(rows: seq<Row>, line: seq<Cell>, nl: Cell, acol: int, bcol: int, w: Width)
    requires IsLine(line, w) && IsNewline(nl) && w(BLANK) == 1 && 0 <= acol <= bcol
    ensures PutAll(Screen(rows, [], 0), PieceCells(line, nl, acol, bcol, w), bcol - acol + 1, w) ==
      Screen(rows + [PrintedRow(line, acol, bcol, w)], [], 0)
    ensures PrintedRow(line, acol, bcol, w) <= WindowRow(line, acol, bcol, w)
    ensures PrintedRow(line, acol, bcol, w) == WindowRow(line, acol, bcol, w) <==> !Loses(line, acol, bcol, w)
  {
    hide *;
    PieceIsPrinted(rows, line, nl, acol, bcol, w);
    PrintedOrLost(line, acol, bcol, w);
  }

  /** The row printed for a line. */
  function PrintedRow(line: seq<Cell>, acol: int, bcol: int, w: Width): Row {
    if LosesLastColumn(line, acol, bcol, w) then [] else ReachedRow(line, acol, bcol, w)
  }

  lemma {:induction false} ShownIsKept(line: seq<Cell>, k: nat, acol: int, bcol: int, w: Width)
    requires IsLine(line, w) && k <= |line| && forall j :: 0 <= j < k ==> !OnLastTwo(line, j, acol, bcol, w)
    ensures Shown(line, k, acol, bcol, w) == Kept(line, k, acol, bcol, w)
  {
    if k == 0 {
    } else {
      ShownIsKept(line, k - 1, acol, bcol, w);
      assert !OnLastTwo(line, k - 1, acol, bcol, w);
    }
  }

  /** After a wide character on the last two columns nothing is shown. */
  lemma {:induction false} ShownUpToWide(line: seq<Cell>, j: nat, k: nat, acol: int, bcol: int, w: Width)
    requires IsLine(line, w) && j < k <= |line| && OnLastTwo(line, j, acol, bcol, w)
    ensures Shown(line, k, acol, bcol, w) == Kept(line, k, acol, bcol, w) + [Placed(bcol - 1 - acol, line[j])]
    decreases k
  {
    hide ColAt;
    if k == j + 1 {
      forall i | 0 <= i < j ensures !OnLastTwo(line, i, acol, bcol, w) {
        ColStep(line, i, w);
        ColMonotone(line, i + 1, j, w);
      }
      ShownIsKept(line, j, acol, bcol, w);
    } else {
      ShownUpToWide(line, j, k - 1, acol, bcol, w);
      ColStep(line, j, w);
      ColMonotone(line, j + 1, k - 1, w);
    }
  }

  lemma PrintedOrLost(line: seq<Cell>, acol: int, bcol: int, w: Width)
    requires IsLine(line, w) && 0 <= acol <= bcol
    ensures PrintedRow(line, acol, bcol, w) <= WindowRow(line, acol, bcol, w)
    ensures PrintedRow(line, acol, bcol, w) == WindowRow(line, acol, bcol, w) <==> !Loses(line, acol, bcol, w)
  {
    hide Shown;
    hide Kept;
    hide ColAt;
    hide BlankRow;
    hide OnLastTwo;
    if LosesLastColumn(line, acol, bcol, w) { LastColumnReached(line, acol, bcol, w); }
    hide LosesLastColumn;
    if LosesWide(line, acol, bcol, w) {
      var j :| 0 <= j < |line| && OnLastTwo(line, j, acol, bcol, w);
      ShownUpToWide(line, j, |line|, acol, bcol, w);
      OneMore(Kept(line, |line|, acol, bcol, w), Placed(bcol - 1 - acol, line[j]));
    } else {
      ShownIsKept(line, |line|, acol, bcol, w);
    }
  }

  lemma OneMore(cells: Row, last: Placed)
    ensures Padded(cells) <= Padded(cells + [last]) && Padded(cells) != Padded(cells + [last])
    ensures Padded(cells + [last]) != []
  {
    hide BlankRow;
    if cells != [] {
      assert (cells + [last])[0] == cells[0];
      assert BlankRow(cells[0].col) + (cells + [last]) == (BlankRow(cells[0].col) + cells) + [last];
    }
  }

  lemma LastColumnReached(line: seq<Cell>, acol: int, bcol: int, w: Width)
    requires IsLine(line, w) && 0 <= acol <= bcol && LosesLastColumn(line, acol, bcol, w)
    ensures ReachedRow(line, acol, bcol, w) != []
  {
    hide FirstAt;
    hide ColAt;
    var first := FirstAt(line, 0, acol, w);
    assert Reached(line, first, acol, bcol, w);
    hide Reached;
    KeptHas(line, first, |line|, acol, bcol, w);
  }

  lemma {:induction false} KeptHas(line: seq<Cell>, j: nat, k: nat, acol: int, bcol: int, w: Width)
    requires j < k <= |line| && Reached(line, j, acol, bcol, w)
    ensures Kept(line, k, acol, bcol, w) != []
    decreases k
  {
    if k == j + 1 {
    } else {
      KeptHas(line, j, k - 1, acol, bcol, w);
    }
  }

  /** What is printed for a line is one screen row. */
  lemma PieceIsPrinted(rows: seq<Row>, line: seq<Cell>, nl: Cell, acol: int, bcol: int, w: Width)
    requires IsLine(line, w) && IsNewline(nl) && w(BLANK) == 1 && 0 <= acol <= bcol
    ensures PutAll(Screen(rows, [], 0), PieceCells(line, nl, acol, bcol, w), bcol - acol + 1, w) ==
      Screen(rows + [PrintedRow(line, acol, bcol, w)], [], 0)
  {
    var first, stop := FirstAt(line, 0, acol, w), BreakAt(line, 0, bcol, w);
    if first >= stop {
      NothingPrinted(line, acol, bcol, w);
      PutOne(Screen(rows, [], 0), Cell(NEWLINE, NORMAL), bcol - acol + 1, w);
    } else {
      ColMonotone(line, first, stop, w);
      PrintKept(rows, line, stop, acol, bcol, w);
      SomethingPrinted(rows, line, nl, acol, bcol, w);
    }
  }

  /** The break comes first: only the last column could have shown anything. */
  lemma NothingPrinted(line: seq<Cell>, acol: int, bcol: int, w: Width)
    requires IsLine(line, w) && 0 <= acol <= bcol
    requires FirstAt(line, 0, acol, w) >= BreakAt(line, 0, bcol, w)
    ensures LosesLastColumn(line, acol, bcol, w) <==> ReachedRow(line, acol, bcol, w) != []
  {
    hide FirstAt;
    hide BreakAt;
    hide ColAt;
    hide Reached;
    var first, stop := FirstAt(line, 0, acol, w), BreakAt(line, 0, bcol, w);
    KeptNothing(line, stop, acol, bcol, w);
    if stop < |line| {
      KeptNoMore(line, |line|, acol, bcol, w);
      BreakInWindow(line, acol, bcol, w);
    }
  }

  lemma BreakInWindow(line: seq<Cell>, acol: int, bcol: int, w: Width)
    requires IsLine(line, w) && 0 <= acol <= bcol
    requires FirstAt(line, 0, acol, w) >= BreakAt(line, 0, bcol, w) && BreakAt(line, 0, bcol, w) < |line|
    ensures Reached(line, BreakAt(line, 0, bcol, w), acol, bcol, w) <==> LosesLastColumn(line, acol, bcol, w)
  {
    hide FirstAt;
    hide BreakAt;
    hide ColAt;
    hide Kept;
    var first, stop := FirstAt(line, 0, acol, w), BreakAt(line, 0, bcol, w);
    ColStep(line, stop, w);
    if stop < first { ColMonotone(line, stop + 1, first, w); }
  }

  lemma SomethingPrinted(rows: seq<Row>, line: seq<Cell>, nl: Cell, acol: int, bcol: int, w: Width)
    requires IsLine(line, w) && IsNewline(nl) && w(BLANK) == 1 && 0 <= acol <= bcol
    requires FirstAt(line, 0, acol, w) < BreakAt(line, 0, bcol, w)
    ensures !LosesLastColumn(line, acol, bcol, w)
    ensures PutAll(Screen(rows, [], 0), PieceCells(line, nl, acol, bcol, w), bcol - acol + 1, w) ==
      Screen(rows + [ReachedRow(line, acol, bcol, w)], [], 0)
  {
    hide FirstAt;
    hide BreakAt;
    hide ColAt;
    hide PutAll;
    hide BlankRow;
    hide Blanks;
    var first, stop, width := FirstAt(line, 0, acol, w), BreakAt(line, 0, bcol, w), bcol - acol + 1;
    var pad := ColAt(line, first, w) - acol;
    var s0, s1 := Screen(rows, [], 0), Screen(rows, BlankRow(pad), pad);
    ColMonotone(line, first, stop, w);
    assert ColAt(line, first, w) + w(line[first].ch) <= bcol;
    PrintBlanks(rows, pad, width, w);
    PrintKept(rows, line, stop, acol, bcol, w);
    var kept := Kept(line, stop, acol, bcol, w);
    var s2 := Screen(rows, BlankRow(pad) + kept, ColAt(line, stop, w) - acol);
    var body := line[first..stop];
    var last := if stop == |line| then nl else if w(line[stop].ch) > 1 then Cell(NEWLINE, NORMAL) else line[stop];
    assert PieceCells(line, nl, acol, bcol, w) == Blanks(pad) + (body + [last]);
    PutAllConcat(s0, Blanks(pad), body + [last], width, w);
    PutAllConcat(s1, body, [last], width, w);
    PutOne(s2, last, width, w);
    LastPut(rows, line, last, acol, bcol, w);
  }

  /** The last cell of a piece finishes the row. */
  lemma LastPut(rows: seq<Row>, line: seq<Cell>, last: Cell, acol: int, bcol: int, w: Width)
    requires IsLine(line, w) && 0 <= acol <= bcol
    requires var stop := BreakAt(line, 0, bcol, w);
      acol <= ColAt(line, stop, w) <= bcol &&
      if stop < |line| && w(line[stop].ch) <= 1 then last == line[stop] else IsNewline(last)
    requires Kept(line, BreakAt(line, 0, bcol, w), acol, bcol, w) != []
    ensures var stop := BreakAt(line, 0, bcol, w);
      var kept := Kept(line, stop, acol, bcol, w);
      Put(Screen(rows, BlankRow(kept[0].col) + kept, ColAt(line, stop, w) - acol), last, bcol - acol + 1, w) ==
      Screen(rows + [ReachedRow(line, acol, bcol, w)], [], 0)
  {
    hide BreakAt;
    hide ColAt;
    hide BlankRow;
    var stop := BreakAt(line, 0, bcol, w);
    if stop < |line| {
      KeptNoMore(line, |line|, acol, bcol, w);
      if Reached(line, stop, acol, bcol, w) { KeptStep(line, stop, acol, bcol, w); }
    }
  }

  /** A window at least three columns wide never loses a last column. */
  lemma WideWindowLosesNothing(line: seq<Cell>, acol: int, bcol: int, w: Width)
    requires IsLine(line, w) && 0 <= acol && acol + 2 <= bcol
    ensures !LosesLastColumn(line, acol, bcol, w)
  {
    var first := FirstAt(line, 0, acol, w);
    if 0 < first < |line| {
      assert ColAt(line, first, w) == ColAt(line, first - 1, w) + w(line[first - 1].ch);
    }
  }

  // --------------------------------------------------------------- line by line

  function FirstNewline(cells: seq<Cell>): (e: nat)
    ensures e <= |cells| && (e < |cells| ==> IsNewline(cells[e])) && NoNewline(cells[..e])
  {
    if cells == [] || IsNewline(cells[0]) then 0 else 1 + FirstNewline(cells[1..])
  }

  /** What is written for all complete lines. */
  function Pieces(cells: seq<Cell>, acol: int, bcol: int, w: Width): seq<Cell>
    decreases |cells|
  {
    var e := FirstNewline(cells);
    if e == |cells| then []
    else PieceCells(cells[..e], cells[e], acol, bcol, w) + Pieces(cells[e + 1..], acol, bcol, w)
  }

  /** What the window shows of all complete lines, one row each. */
  function WindowRows(cells: seq<Cell>, acol: int, bcol: int, w: Width): seq<Row>
    decreases |cells|
  {
    var e := FirstNewline(cells);
    if e == |cells| then []
    else [WindowRow(cells[..e], acol, bcol, w)] + WindowRows(cells[e + 1..], acol, bcol, w)
  }

  lemma {:induction false} FirstNewlineIs(line: seq<Cell>, nl: Cell, rest: seq<Cell>)
    requires NoNewline(line) && IsNewline(nl)
    ensures var all := line + [nl] + rest;
      FirstNewline(all) == |line| && all[..|line|] == line && all[|line| + 1..] == rest
    decreases |line|
  {
    var all := line + [nl] + rest;
    if line == [] {
    } else {
      assert all[1..] == line[1..] + [nl] + rest;
      FirstNewlineIs(line[1..], nl, rest);
    }
  }

  function PrintedRows(cells: seq<Cell>, acol: int, bcol: int, w: Width): seq<Row>
    decreases |cells|
  {
    var e := FirstNewline(cells);
    if e == |cells| then []
    else [PrintedRow(cells[..e], acol, bcol, w)] + PrintedRows(cells[e + 1..], acol, bcol, w)
  }

  predicate NoLineLoses(cells: seq<Cell>, acol: int, bcol: int, w: Width)
    decreases |cells|
  {
    var e := FirstNewline(cells);
    e == |cells| || (!Loses(cells[..e], acol, bcol, w) && NoLineLoses(cells[e + 1..], acol, bcol, w))
  }

  /** No line has a wide character on the last two columns. */
  predicate NoWideLost(cells: seq<Cell>, acol: int, bcol: int, w: Width)
    decreases |cells|
  {
    var e := FirstNewline(cells);
    e == |cells| || (!LosesWide(cells[..e], acol, bcol, w) && NoWideLost(cells[e + 1..], acol, bcol, w))
  }

  lemma FirstPiece(cells: seq<Cell>, acol: int, bcol: int, w: Width)
    ensures var e := FirstNewline(cells);
            Pieces(cells, acol, bcol, w) ==
            if e == |cells| then []
            else PieceCells(cells[..e], cells[e], acol, bcol, w) + Pieces(cells[e + 1..], acol, bcol, w)
  {
    hide PieceCells;
    hide FirstNewline;
    hide NoNewline;
  }

  lemma FirstRow(cells: seq<Cell>, acol: int, bcol: int, w: Width)
    ensures var e := FirstNewline(cells);
            PrintedRows(cells, acol, bcol, w) ==
            if e == |cells| then []
            else [PrintedRow(cells[..e], acol, bcol, w)] + PrintedRows(cells[e + 1..], acol, bcol, w)
  {
    hide PrintedRow;
    hide FirstNewline;
    hide NoNewline;
  }

  lemma {:induction false} PiecesAreRows(rows: seq<Row>, cells: seq<Cell>, acol: int, bcol: int, w: Width)
    requires Printable(cells, w) && w(BLANK) == 1 && 0 <= acol <= bcol
    ensures PutAll(Screen(rows, [], 0), Pieces(cells, acol, bcol, w), bcol - acol + 1, w) ==
            Screen(rows + PrintedRows(cells, acol, bcol, w), [], 0)
    decreases |cells|
  {
    hide PutAll;
    hide PieceCells;
    hide ReachedRow;
    hide LosesLastColumn;
    hide FirstNewline;
    hide NoNewline;
    hide IsLine;
    hide Printable;
    hide Pieces;
    hide PrintedRows;
    FirstPiece(cells, acol, bcol, w);
    FirstRow(cells, acol, bcol, w);
    var e := FirstNewline(cells);
    if e == |cells| {
      NothingToPut(Screen(rows, [], 0), bcol - acol + 1, w);
      assert rows + [] == rows;
    } else {
      var line, rest := cells[..e], cells[e + 1..];
      PartsPrintable(cells, e, w);
      PieceIsOneRow(rows, line, cells[e], acol, bcol, w);
      var row := PrintedRow(line, acol, bcol, w);
      var more := PrintedRows(rest, acol, bcol, w);
      PutAllConcat(Screen(rows, [], 0), PieceCells(line, cells[e], acol, bcol, w), Pieces(rest, acol, bcol, w),
                   bcol - acol + 1, w);
      PiecesAreRows(rows + [row], rest, acol, bcol, w);
      assert (rows + [row]) + more == rows + ([row] + more);
    }
  }

  lemma PartsPrintable(cells: seq<Cell>, e: nat, w: Width)
    requires Printable(cells, w) && e < |cells| && NoNewline(cells[..e])
    ensures IsLine(cells[..e], w) && Printable(cells[e + 1..], w)
  {
    var line, rest := cells[..e], cells[e + 1..];
    assert forall i :: 0 <= i < |rest| ==> rest[i] == cells[e + 1 + i];
    assert forall i :: 0 <= i < e ==> line[i] == cells[i];
  }

  /** The rows printed are those the window shows exactly if no line loses anything. */
  lemma {:induction false} PrintedAsShown(cells: seq<Cell>, acol: int, bcol: int, w: Width)
    requires Printable(cells, w) && w(BLANK) == 1 && 0 <= acol <= bcol
    ensures PrintedRows(cells, acol, bcol, w) == WindowRows(cells, acol, bcol, w) <==> NoLineLoses(cells, acol, bcol, w)
    ensures acol + 2 <= bcol ==> (NoLineLoses(cells, acol, bcol, w) <==> NoWideLost(cells, acol, bcol, w))
    decreases |cells|
  {
    hide PieceCells;
    hide PrintedRow;
    hide WindowRow;
    hide LosesWide;
    hide LosesLastColumn;
    hide FirstNewline;
    hide PutAll;
    var e := FirstNewline(cells);
    if e == |cells| {
    } else {
      var line, rest := cells[..e], cells[e + 1..];
      PartsPrintable(cells, e, w);
      PieceIsOneRow([], line, cells[e], acol, bcol, w);
      if acol + 2 <= bcol { WideWindowLosesNothing(line, acol, bcol, w); }
      PrintedAsShown(rest, acol, bcol, w);
      var p, q := PrintedRows(rest, acol, bcol, w), WindowRows(rest, acol, bcol, w);
      var a, b := PrintedRow(line, acol, bcol, w), ReachedRow(line, acol, bcol, w);
      assert ([a] + p)[0] == a && ([b] + q)[0] == b && ([a] + p)[1..] == p && ([b] + q)[1..] == q;
    }
  }

  /** Row i of a screen as wide as the window shows source line i exactly if no line loses
      anything; in a window at least three columns wide that can only be a wide character on
      the last two columns. */
  lemma RowsAreAligned(rows: seq<Row>, cells: seq<Cell>, acol: int, bcol: int, w: Width)
    requires Printable(cells, w) && w(BLANK) == 1 && 0 <= acol <= bcol
    ensures PutAll(Screen(rows, [], 0), Pieces(cells, acol, bcol, w), bcol - acol + 1, w) ==
            Screen(rows + WindowRows(cells, acol, bcol, w), [], 0) <==>
      NoLineLoses(cells, acol, bcol, w)
    ensures acol + 2 <= bcol ==> (NoLineLoses(cells, acol, bcol, w) <==> NoWideLost(cells, acol, bcol, w))
  {
    hide *;
    PiecesAreRows(rows, cells, acol, bcol, w);
    PrintedAsShown(cells, acol, bcol, w);
    var p, q := PrintedRows(cells, acol, bcol, w), WindowRows(cells, acol, bcol, w);
    assert (rows + p)[|rows|..] == p && (rows + q)[|rows|..] == q;
  }

  lemma NothingToPut(s: Screen, width: int, w: Width)
    ensures PutAll(s, [], width, w) == s
  {
  }

  /** The inner loop and the ending of `_owl_fmtext_truncate_cols_internal`, for the text
      line inp[ptr_s..ptr_e] and its newline. */
  method TruncateLine(inp: Fmtext, ptr_s: nat, ptr_e: nat, acol: int, bcol: int, w: Width, out: Fmtext)
    requires out.Valid() && Clean(inp.buff) && inp != out
    requires ptr_s <= ptr_e < |inp.buff| && inp.buff[ptr_e] == NEWLINE
    requires forall i :: ptr_s <= i < ptr_e ==> inp.buff[i] != NEWLINE
    requires IsLine(SliceCells(inp.buff, ptr_s, ptr_e), w) && 0 <= acol <= bcol
    modifies out
    ensures out.Valid()
    ensures exists nl :: (SliceCells(inp.buff, ptr_e, ptr_e + 1) == [nl] && IsNewline(nl) &&
      out.Cells() == old(out.Cells()) + PieceCells(SliceCells(inp.buff, ptr_s, ptr_e), nl, acol, bcol, w))
  {
    hide SliceCells;
    hide Clean;
    hide IsFormat;
    hide Update;
    hide InPlane16;
    hide Settled;
    hide Render;
    hide FirstAt;
    hide BreakAt;
    hide ColAt;
    hide PieceCells;
    hide Blanks;
    ghost var text := inp.buff;
    ghost var line := SliceCells(text, ptr_s, ptr_e);
    ghost var nl := LineCells(text, ptr_s, ptr_e);
    var st, start, padding, ptr_c, chwidth := ScanLine(inp, ptr_s, ptr_e, acol, bcol, w);
    ghost var before := out.Cells();
    if st {
      out.AppendSpaces(padding);
      PieceParts(before, line, nl, acol, bcol, w);
      if ptr_c == ptr_e {
        out.AppendFmtext(inp, start, ptr_c + 1);
        SlicesJoin(text, start, ptr_e, ptr_e + 1);
      } else if chwidth > 1 {
        out.AppendFmtext(inp, start, ptr_c);
        NewlineCells();
        out.AppendNormal([NEWLINE]);
      } else {
        out.AppendFmtext(inp, start, ptr_c + 1);
      }
    } else {
      NewlineCells();
      EmptyPiece(line, nl, acol, bcol, w);
      out.AppendNormal([NEWLINE]);
    }
  }

  lemma EmptyPiece(line: seq<Cell>, nl: Cell, acol: int, bcol: int, w: Width)
    requires FirstAt(line, 0, acol, w) >= BreakAt(line, 0, bcol, w)
    ensures PieceCells(line, nl, acol, bcol, w) == [Cell(NEWLINE, NORMAL)]
  {
  }

  /** The three endings of a piece, as they are appended. */
  lemma PieceParts(before: seq<Cell>, line: seq<Cell>, nl: Cell, acol: int, bcol: int, w: Width)
    requires FirstAt(line, 0, acol, w) < BreakAt(line, 0, bcol, w)
    ensures var first, stop := FirstAt(line, 0, acol, w), BreakAt(line, 0, bcol, w);
      var padded := before + Blanks(ColAt(line, first, w) - acol);
      var all := before + PieceCells(line, nl, acol, bcol, w);
      if stop == |line| then all == padded + (line[first..] + [nl])
      else if w(line[stop].ch) > 1 then all == padded + line[first..stop] + [Cell(NEWLINE, NORMAL)]
      else all == padded + line[first..stop + 1]
  {
    hide FirstAt;
    hide BreakAt;
    hide ColAt;
    hide Blanks;
  }

  lemma NewlineCells()
    ensures Settled([NEWLINE]) && !IsFormat(NEWLINE) && Render(NORMAL, [NEWLINE]) == [Cell(NEWLINE, NORMAL)]
  {
  }

  /** The scan of one line for the part to keep. */
  method ScanLine(inp: Fmtext, ptr_s: nat, ptr_e: nat, acol: int, bcol: int, w: Width)
    returns (st: bool, start: nat, padding: int, ptr_c: nat, chwidth: int)
    requires ptr_s <= ptr_e <= |inp.buff|
    requires IsLine(SliceCells(inp.buff, ptr_s, ptr_e), w) && 0 <= acol <= bcol
    ensures var line := SliceCells(inp.buff, ptr_s, ptr_e);
      var first, stop := FirstAt(line, 0, acol, w), BreakAt(line, 0, bcol, w);
      (st <==> first < stop) && ptr_s <= ptr_c <= ptr_e &&
      (ptr_c == ptr_e <==> stop == |line|) &&
      (stop < |line| ==> chwidth == w(line[stop].ch)) &&
      (st ==> padding == ColAt(line, first, w) - acol && ptr_s <= start <= ptr_c &&
              SliceCells(inp.buff, start, ptr_c) == line[first..stop] &&
              SliceCells(inp.buff, start, ptr_e) == line[first..] &&
              (stop < |line| ==> SliceCells(inp.buff, start, ptr_c + 1) == line[first..stop + 1]))
  {
    hide *;
    ghost var text := inp.buff;
    ghost var line := SliceCells(text, ptr_s, ptr_e);
    ghost var k, k0: nat := 0, 0;
    var col := 0;
    st, start, padding, ptr_c, chwidth := false, ptr_s, 0, ptr_s, 0;
    ScanStarts(text, ptr_s, ptr_e, acol, bcol, w);
    while ptr_c < ptr_e
      invariant ptr_s <= start <= ptr_c <= ptr_e && k0 <= k <= |line|
      invariant Scanning(text, ptr_s, ptr_e, acol, bcol, w, st, start, padding, ptr_c, col, k0, k)
    {
      var c := inp.buff[ptr_c];
      ScanNext(text, ptr_s, ptr_e, acol, bcol, w, st, start, padding, ptr_c, col, k0, k);
      if !IsFormat(c) {
        chwidth := w(c);
        if col + chwidth > bcol { break; }
        if col >= acol {
          if !st {
            start, padding, st := ptr_c, col - acol, true;
            k0 := k;
          }
        }
        col, chwidth := col + chwidth, 0;
        k := k + 1;
      }
      ptr_c := ptr_c + 1;
    }
    ScanEnds(text, ptr_s, ptr_e, acol, bcol, w, st, start, padding, ptr_c, col, k0, k);
  }

  /** Where the scan of a line stands: k cells read, of which the first k0 are cut. */
  ghost predicate Scanning(text: seq<Rune>, s: nat, e: nat, acol: int, bcol: int, w: Width,
                           st: bool, start: nat, padding: int, c: nat, col: int, k0: nat, k: nat)
    requires s <= start <= c <= e <= |text| && k0 <= k <= |SliceCells(text, s, e)|
  {
    var line := SliceCells(text, s, e);
    SliceCells(text, s, c) == line[..k] &&
    col == ColAt(line, k, w) && BreakAt(line, 0, bcol, w) == BreakAt(line, k, bcol, w) &&
    (!st ==> FirstAt(line, 0, acol, w) == FirstAt(line, k, acol, w)) &&
    (st ==> FirstAt(line, 0, acol, w) == k0 < k && padding == ColAt(line, k0, w) - acol &&
            SliceCells(text, s, start) == line[..k0])
  }

  lemma ScanStarts(text: seq<Rune>, s: nat, e: nat, acol: int, bcol: int, w: Width)
    requires s <= e <= |text|
    ensures Scanning(text, s, e, acol, bcol, w, false, s, 0, s, 0, 0, 0)
  {
  }

  lemma ScanNext(text: seq<Rune>, s: nat, e: nat, acol: int, bcol: int, w: Width,
                 st: bool, start: nat, padding: int, c: nat, col: int, k0: nat, k: nat)
    requires s <= start <= c < e <= |text| && k0 <= k <= |SliceCells(text, s, e)|
    requires Scanning(text, s, e, acol, bcol, w, st, start, padding, c, col, k0, k)
    ensures IsFormat(text[c]) ==> Scanning(text, s, e, acol, bcol, w, st, start, padding, c + 1, col, k0, k)
    ensures !IsFormat(text[c]) ==> k < |SliceCells(text, s, e)|
    ensures !IsFormat(text[c]) && col + w(text[c]) <= bcol && (st || col < acol) ==>
      Scanning(text, s, e, acol, bcol, w, st, start, padding, c + 1, col + w(text[c]), k0, k + 1)
    ensures !IsFormat(text[c]) && col + w(text[c]) <= bcol && !st && col >= acol ==>
      Scanning(text, s, e, acol, bcol, w, true, c, col - acol, c + 1, col + w(text[c]), k, k + 1)
  {
    hide SliceCells;
    hide IsFormat;
    NextCell(text, s, c, e, k);
  }

  lemma ScanEnds(text: seq<Rune>, s: nat, e: nat, acol: int, bcol: int, w: Width,
                 st: bool, start: nat, padding: int, c: nat, col: int, k0: nat, k: nat)
    requires s <= start <= c <= e <= |text| && k0 <= k <= |SliceCells(text, s, e)|
    requires Scanning(text, s, e, acol, bcol, w, st, start, padding, c, col, k0, k)
    requires c < e ==> !IsFormat(text[c]) && col + w(text[c]) > bcol
    ensures var line := SliceCells(text, s, e);
      var first, stop := FirstAt(line, 0, acol, w), BreakAt(line, 0, bcol, w);
      (st <==> first < stop) && (c == e <==> stop == |line|) &&
      (stop < |line| ==> c < e && w(text[c]) == w(line[stop].ch)) &&
      (st ==> padding == ColAt(line, first, w) - acol &&
              SliceCells(text, start, c) == line[first..stop] && SliceCells(text, start, e) == line[first..] &&
              (stop < |line| ==> SliceCells(text, start, c + 1) == line[first..stop + 1]))
  {
    hide SliceCells;
    hide IsFormat;
    ScanResult(text, s, e, start, c, k0, k, st);
    if c < e { NextCell(text, s, c, e, k); }
  }

  /** Reading one more character of a line adds its next cell, or none. */
  lemma NextCell(text: seq<Rune>, s: nat, c: nat, e: nat, k: nat)
    requires s <= c < e <= |text|
    requires k <= |SliceCells(text, s, e)| && SliceCells(text, s, c) == SliceCells(text, s, e)[..k]
    ensures IsFormat(text[c]) ==> SliceCells(text, s, c + 1) == SliceCells(text, s, c)
    ensures !IsFormat(text[c]) ==>
      k < |SliceCells(text, s, e)| && SliceCells(text, s, e)[k].ch == text[c] &&
      SliceCells(text, s, c + 1) == SliceCells(text, s, e)[..k + 1]
  {
    hide IsFormat;
    hide SliceCells;
    SlicesJoin(text, s, c, c + 1);
    SlicesJoin(text, s, c + 1, e);
    OneCell(text, c);
  }

  /** The slices that start where the kept part starts. */
  lemma ScanResult(text: seq<Rune>, s: nat, e: nat, start: nat, c: nat, k0: nat, k: nat, st: bool)
    requires s <= start <= c <= e <= |text| && k0 <= k <= |SliceCells(text, s, e)|
    requires SliceCells(text, s, c) == SliceCells(text, s, e)[..k]
    requires st ==> SliceCells(text, s, start) == SliceCells(text, s, e)[..k0]
    ensures var line := SliceCells(text, s, e);
      (c == e ==> k == |line|) &&
      (st ==> SliceCells(text, start, c) == line[k0..k] && SliceCells(text, start, e) == line[k0..]) &&
      (st && c < e && !IsFormat(text[c]) ==> k < |line| && SliceCells(text, start, c + 1) == line[k0..k + 1])
  {
    hide IsFormat;
    hide SliceCells;
    var line := SliceCells(text, s, e);
    SlicesJoin(text, s, start, c);
    SlicesJoin(text, s, start, e);
    if c < e {
      NextCell(text, s, c, e, k);
      SlicesJoin(text, s, start, c + 1);
    }
  }

  /** `_owl_fmtext_truncate_cols_internal`: every complete line becomes a piece; a last
      line without a newline is dropped. */
  method TruncateColsInternal(inp: Fmtext, acol: int, bcol: int, w: Width, out: Fmtext)
    requires out.Valid() && Clean(inp.buff) && inp != out
    requires Printable(inp.Cells(), w) && 0 <= acol <= bcol
    modifies out
    ensures out.Valid()
    ensures out.Cells() == old(out.Cells()) + Pieces(inp.Cells(), acol, bcol, w)
  {
    hide SliceCells;
    hide Clean;
    hide IsFormat;
    hide Update;
    hide InPlane16;
    hide Settled;
    hide Render;
    hide PieceCells;
    hide Pieces;
    var text := inp.buff;
    ghost var all, before := inp.Cells(), out.Cells();
    WholeSlice(text);
    var ptr_s := 0;
    while ptr_s < |text|
      invariant 0 <= ptr_s <= |text| && out.Valid()
      invariant Printable(SliceCells(text, ptr_s, |text|), w)
      invariant before + Pieces(all, acol, bcol, w) ==
        out.Cells() + Pieces(SliceCells(text, ptr_s, |text|), acol, bcol, w)
    {
      var ptr_e := FindNewline(text, ptr_s);
      if ptr_e == None {
        NoLineLeft(text, ptr_s);
        NoPieces(SliceCells(text, ptr_s, |text|), acol, bcol, w);
        return;
      }
      ghost var nl := LineCells(text, ptr_s, ptr_e.value);
      ghost var line, rest := SliceCells(text, ptr_s, ptr_e.value), SliceCells(text, ptr_e.value + 1, |text|);
      PiecesOfLine(line, nl, rest, acol, bcol, w);
      ghost var shown := out.Cells();
      TruncateLine(inp, ptr_s, ptr_e.value, acol, bcol, w, out);
      assert shown + (PieceCells(line, nl, acol, bcol, w) + Pieces(rest, acol, bcol, w)) ==
             out.Cells() + Pieces(rest, acol, bcol, w);
      ptr_s := ptr_e.value + 1;
    }
    EmptySlice(text, |text|);
    NoPieces([], acol, bcol, w);
  }

  lemma NoPieces(cells: seq<Cell>, acol: int, bcol: int, w: Width)
    requires NoNewline(cells)
    ensures Pieces(cells, acol, bcol, w) == []
    ensures forall a: seq<Cell> :: a + Pieces(cells, acol, bcol, w) == a
  {
  }

  lemma PiecesOfLine(line: seq<Cell>, nl: Cell, rest: seq<Cell>, acol: int, bcol: int, w: Width)
    requires NoNewline(line) && IsNewline(nl) && Printable(line + [nl] + rest, w)
    ensures Pieces(line + [nl] + rest, acol, bcol, w) ==
            PieceCells(line, nl, acol, bcol, w) + Pieces(rest, acol, bcol, w)
    ensures IsLine(line, w) && Printable(rest, w)
  {
    hide PieceCells;
    var all := line + [nl] + rest;
    FirstNewlineIs(line, nl, rest);
    assert all[|line|] == nl;
    assert forall i :: 0 <= i < |line| ==> line[i] == all[i];
    assert forall i :: 0 <= i < |rest| ==> rest[i] == all[|line| + 1 + i];
  }

  // ---------------------------------------------------------------- tab expansion

  const TAB_WIDTH := 8

  /** The cells with every tab replaced by blanks up to the next tab stop, counting from
      column `start` on every line. */
  function ExpandCells(cells: seq<Cell>, col: int, start: int, w: Width): seq<Cell>
    decreases |cells|
  {
    if cells == [] then []
    else if cells[0].ch == TAB then
      var n := TAB_WIDTH - col % TAB_WIDTH;
      Blanks(n) + ExpandCells(cells[1..], col + n, start, w)
    else [cells[0]] + ExpandCells(cells[1..], if IsNewline(cells[0]) then start else col + w(cells[0].ch), start, w)
  }

  /** No cell but a tab or a newline has a negative width. */
  ghost predicate NoControls(cells: seq<Cell>, w: Width) {
    forall i :: 0 <= i < |cells| && !IsNewline(cells[i]) && cells[i].ch != TAB ==> 0 <= w(cells[i].ch) <= 2
  }

  /** The column after some cells, none of them a tab. */
  function ColAfter(cells: seq<Cell>, col: int, start: int, w: Width): int
    decreases |cells|
  {
    if cells == [] then col
    else ColAfter(cells[1..], if IsNewline(cells[0]) then start else col + w(cells[0].ch), start, w)
  }

  predicate NoTab(cells: seq<Cell>) { forall i :: 0 <= i < |cells| ==> cells[i].ch != TAB }

  lemma ExpandFirst(cells: seq<Cell>, col: int, start: int, w: Width)
    requires cells != [] && cells[0].ch != TAB
    ensures var next := if IsNewline(cells[0]) then start else col + w(cells[0].ch);
      ExpandCells(cells, col, start, w) == [cells[0]] + ExpandCells(cells[1..], next, start, w) &&
      ColAfter(cells, col, start, w) == ColAfter(cells[1..], next, start, w)
  {
  }

  lemma {:induction false} ExpandPlain(a: seq<Cell>, b: seq<Cell>, col: int, start: int, w: Width)
    requires NoTab(a)
    ensures ExpandCells(a + b, col, start, w) == a + ExpandCells(b, ColAfter(a, col, start, w), start, w)
    decreases |a|
  {
    hide ExpandCells;
    if a == [] {
      assert a + b == b;
    } else {
      var next, all := if IsNewline(a[0]) then start else col + w(a[0].ch), a + b;
      assert all[0] == a[0] && all[1..] == a[1..] + b;
      ExpandFirst(all, col, start, w);
      ExpandFirst(a, col, start, w);
      ExpandPlain(a[1..], b, next, start, w);
      hide ColAfter;
      hide IsNewline;
      var tail := ExpandCells(b, ColAfter(a, col, start, w), start, w);
      assert [a[0]] + (a[1..] + tail) == a + tail;
    }
  }

  lemma {:induction false} ColAfterSnoc(a: seq<Cell>, c: Cell, col: int, start: int, w: Width)
    ensures ColAfter(a + [c], col, start, w) ==
            if IsNewline(c) then start else ColAfter(a, col, start, w) + w(c.ch)
    decreases |a|
  {
    if a == [] {
      assert (a + [c])[1..] == [];
    } else {
      assert (a + [c])[1..] == a[1..] + [c];
      ColAfterSnoc(a[1..], c, if IsNewline(a[0]) then start else col + w(a[0].ch), start, w);
    }
  }

  lemma {:induction false} ColAfterConcat(a: seq<Cell>, b: seq<Cell>, col: int, start: int, w: Width)
    ensures ColAfter(a + b, col, start, w) == ColAfter(b, ColAfter(a, col, start, w), start, w)
    decreases |a|
  {
    if a == [] {
      assert a + b == b;
    } else {
      assert (a + b)[1..] == a[1..] + b;
      ColAfterConcat(a[1..], b, if IsNewline(a[0]) then start else col + w(a[0].ch), start, w);
    }
  }

  lemma {:induction false} ColAfterBlanks(n: nat, col: int, start: int, w: Width)
    requires w(BLANK) == 1
    ensures |Blanks(n)| == n && ColAfter(Blanks(n), col, start, w) == col + n
  {
    if n == 0 {
    } else {
      ColAfterBlanks(n - 1, col + 1, start, w);
      assert Blanks(n)[1..] == Blanks(n - 1);
    }
  }

  /** What one cell becomes, and the column after it. */
  lemma ExpandOne(c: Cell, col: int, start: int, w: Width) returns (first: seq<Cell>, next: int)
    requires w(BLANK) == 1
    ensures first == if c.ch == TAB then Blanks(8 - col % 8) else [c]
    ensures next == ColAfter(first, col, start, w)
    ensures next == if c.ch == TAB then col + (8 - col % 8) else if IsNewline(c) then start else col + w(c.ch)
  {
    if c.ch == TAB {
      first, next := Blanks(8 - col % 8), col + (8 - col % 8);
      ColAfterBlanks(8 - col % 8, col, start, w);
    } else {
      first, next := [c], if IsNewline(c) then start else col + w(c.ch);
      assert [c][1..] == [];
    }
  }

  lemma ExpandsAs(cells: seq<Cell>, first: seq<Cell>, next: int, col: int, start: int, w: Width)
    requires cells != []
    requires first == if cells[0].ch == TAB then Blanks(8 - col % 8) else [cells[0]]
    requires next == if cells[0].ch == TAB then col + (8 - col % 8)
                     else if IsNewline(cells[0]) then start else col + w(cells[0].ch)
    ensures ExpandCells(cells, col, start, w) == first + ExpandCells(cells[1..], next, start, w)
  {
  }

  /** A tab anywhere becomes one to eight blanks, after which the line has been filled up to
      a multiple of eight columns; what comes before and after is expanded as it is. */
  lemma {:induction false} TabStops(before: seq<Cell>, tab: Cell, after: seq<Cell>, col: int, start: int, w: Width)
    returns (n: nat)
    requires tab.ch == TAB && w(BLANK) == 1
    ensures var shown := ExpandCells(before, col, start, w) + Blanks(n);
      var stop := ColAfter(shown, col, start, w);
      1 <= n <= 8 && |Blanks(n)| == n && stop % 8 == 0 &&
      ExpandCells(before + [tab] + after, col, start, w) == shown + ExpandCells(after, stop, start, w)
    decreases |before|
  {
    hide ExpandCells;
    hide Blanks;
    hide ColAfter;
    var all := before + [tab] + after;
    if before == [] {
      n := TabAtFront(tab, after, col, start, w);
      assert all == [tab] + after;
    } else {
      var first, next := ExpandOne(before[0], col, start, w);
      n := TabStops(before[1..], tab, after, next, start, w);
      assert all[0] == before[0] && all[1..] == before[1..] + [tab] + after;
      ExpandsAs(before, first, next, col, start, w);
      ExpandsAs(all, first, next, col, start, w);
      var rest := ExpandCells(before[1..], next, start, w);
      assert first + rest + Blanks(n) == first + (rest + Blanks(n));
      ColAfterConcat(first, rest + Blanks(n), col, start, w);
    }
  }

  lemma TabAtFront(tab: Cell, after: seq<Cell>, col: int, start: int, w: Width) returns (n: nat)
    requires tab.ch == TAB && w(BLANK) == 1
    ensures var shown := ExpandCells([], col, start, w) + Blanks(n);
      var stop := ColAfter(shown, col, start, w);
      1 <= n <= 8 && |Blanks(n)| == n && stop % 8 == 0 &&
      ExpandCells([tab] + after, col, start, w) == shown + ExpandCells(after, stop, start, w)
  {
    n := 8 - col % 8;
    ColAfterBlanks(n, col, start, w);
    assert [] + Blanks(n) == Blanks(n);
    ExpandsAs([tab] + after, Blanks(n), col + n, col, start, w);
  }

  /** `owl_fmtext_expand_tabs`: tabs become normal blanks, everything else keeps its
      place in the text and its style. */
  method ExpandTabs(inp: Fmtext, out: Fmtext, start: nat, w: Width)
    requires out.Valid() && Clean(inp.buff) && inp != out && NoControls(inp.Cells(), w)
    modifies out
    ensures out.Valid() && out.Cells() == old(out.Cells()) + ExpandCells(inp.Cells(), start, start, w)
  {
    hide IsFormat;
    hide Render;
    hide EndStyle;
    hide Settled;
    hide Clean;
    hide SliceCells;
    hide ExpandCells;
    hide Expanding;
    hide NoControls;
    hide Blanks;
    var text := inp.buff;
    ghost var before := out.Cells();
    var col, numcopied, ptr: nat := start, 0, 0;
    ghost var base: int := start;
    ExpandStarts(text, before, start, w);
    while ptr < |text|
      invariant 0 <= numcopied <= ptr <= |text| && out.Valid() && col >= 0
      invariant Expanding(text, before, out.Cells(), start, w, numcopied, ptr, base, col)
    {
      var c := text[ptr];
      ExpandNext(text, before, out.Cells(), start, w, numcopied, ptr, base, col);
      if c == TAB {
        out.AppendFmtext(inp, numcopied, ptr);
        var chwidth := TAB_WIDTH - col % TAB_WIDTH;
        out.AppendSpaces(chwidth);
        col := col + chwidth;
        numcopied := ptr + 1;
        base := col;
      } else if c == NEWLINE {
        col := start;
      } else if !IsFormat(c) {
        col := col + w(c);
      }
      ptr := ptr + 1;
    }
    ExpandEnds(text, before, out.Cells(), start, w, numcopied, ptr, base, col);
    if numcopied < |text| {
      out.AppendFmtext(inp, numcopied, |text|);
    }
  }

  /** Where tab expansion stands: text[..numcopied] is written out, text[numcopied..ptr]
      has no tab, and the column counts from `base` at numcopied. */
  ghost predicate Expanding(text: seq<Rune>, before: seq<Cell>, out: seq<Cell>, start: int, w: Width,
                            numcopied: nat, ptr: nat, base: int, col: int)
    requires numcopied <= ptr <= |text|
  {
    var n := |text|;
    NoTab(SliceCells(text, numcopied, ptr)) &&
    col == ColAfter(SliceCells(text, numcopied, ptr), base, start, w) &&
    NoControls(SliceCells(text, ptr, n), w) &&
    before + ExpandCells(Render(NORMAL, text), start, start, w) ==
      out + ExpandCells(SliceCells(text, numcopied, n), base, start, w)
  }

  lemma ExpandStarts(text: seq<Rune>, before: seq<Cell>, start: nat, w: Width)
    requires NoControls(Render(NORMAL, text), w)
    ensures Expanding(text, before, before, start, w, 0, 0, start, start)
  {
    WholeSlice(text);
    EmptySlice(text, 0);
  }

  /** One more character: either it only moves the column on, or it is a tab and all up
      to it gets written. */
  lemma ExpandNext(text: seq<Rune>, before: seq<Cell>, out: seq<Cell>, start: nat, w: Width,
                   numcopied: nat, ptr: nat, base: int, col: nat)
    requires numcopied <= ptr < |text|
    requires Expanding(text, before, out, start, w, numcopied, ptr, base, col)
    ensures text[ptr] != TAB ==>
      var col' := if text[ptr] == NEWLINE then start else if IsFormat(text[ptr]) then col else col + w(text[ptr]);
      col' >= 0 && Expanding(text, before, out, start, w, numcopied, ptr + 1, base, col')
    ensures text[ptr] == TAB ==>
      var n := TAB_WIDTH - col % TAB_WIDTH;
      Expanding(text, before, out + SliceCells(text, numcopied, ptr) + Blanks(n), start, w, ptr + 1, ptr + 1,
        col + n, col + n)
  {
    if text[ptr] == TAB {
      ExpandTab(text, before, out, start, w, numcopied, ptr, base, col);
    } else {
      ExpandOther(text, before, out, start, w, numcopied, ptr, base, col);
    }
  }

  lemma ExpandTab(text: seq<Rune>, before: seq<Cell>, out: seq<Cell>, start: nat, w: Width,
                  numcopied: nat, ptr: nat, base: int, col: nat)
    requires numcopied <= ptr < |text| && text[ptr] == TAB
    requires Expanding(text, before, out, start, w, numcopied, ptr, base, col)
    ensures var n := TAB_WIDTH - col % TAB_WIDTH;
      Expanding(text, before, out + SliceCells(text, numcopied, ptr) + Blanks(n), start, w, ptr + 1, ptr + 1,
        col + n, col + n)
  {
    hide IsFormat;
    hide SliceCells;
    hide Blanks;
    var cell := Cell(text[ptr], EndStyle(NORMAL, text[..ptr]));
    var a, rest := SliceCells(text, numcopied, ptr), SliceCells(text, ptr + 1, |text|);
    var n := TAB_WIDTH - col % TAB_WIDTH;
    BlankIsPlain();
    OneCell(text, ptr);
    SlicesJoin(text, ptr, ptr + 1, |text|);
    SlicesJoin(text, numcopied, ptr, |text|);
    NoControlsParts([cell], rest, w);
    ExpandPlain(a, [cell] + rest, base, start, w);
    assert ([cell] + rest)[1..] == rest;
    hide ExpandCells;
    var tail := ExpandCells(rest, col + n, start, w);
    assert out + (a + (Blanks(n) + tail)) == out + a + Blanks(n) + tail;
    EmptySlice(text, ptr + 1);
  }

  lemma ExpandOther(text: seq<Rune>, before: seq<Cell>, out: seq<Cell>, start: nat, w: Width,
                    numcopied: nat, ptr: nat, base: int, col: nat)
    requires numcopied <= ptr < |text| && text[ptr] != TAB
    requires Expanding(text, before, out, start, w, numcopied, ptr, base, col)
    ensures var col' := if text[ptr] == NEWLINE then start else if IsFormat(text[ptr]) then col else col + w(text[ptr]);
      col' >= 0 && Expanding(text, before, out, start, w, numcopied, ptr + 1, base, col')
  {
    hide IsFormat;
    hide SliceCells;
    hide ExpandCells;
    var cell := Cell(text[ptr], EndStyle(NORMAL, text[..ptr]));
    var a, c, rest := SliceCells(text, numcopied, ptr), SliceCells(text, ptr, ptr + 1),
      SliceCells(text, ptr + 1, |text|);
    OneCell(text, ptr);
    SlicesJoin(text, numcopied, ptr, ptr + 1);
    SlicesJoin(text, ptr, ptr + 1, |text|);
    NoControlsParts(c, rest, w);
    BlankIsPlain();
    if IsFormat(text[ptr]) {
      assert a + c == a;
    } else {
      ColAfterSnoc(a, cell, base, start, w);
      assert (c + rest)[0] == cell;
    }
  }

  lemma NoControlsParts(a: seq<Cell>, b: seq<Cell>, w: Width)
    requires NoControls(a + b, w)
    ensures NoControls(a, w) && NoControls(b, w)
  {
    assert forall i :: 0 <= i < |a| ==> a[i] == (a + b)[i];
    assert forall i :: 0 <= i < |b| ==> b[i] == (a + b)[|a| + i];
  }

  lemma ExpandEnds(text: seq<Rune>, before: seq<Cell>, out: seq<Cell>, start: nat, w: Width,
                   numcopied: nat, ptr: nat, base: int, col: int)
    requires numcopied <= ptr == |text|
    requires Expanding(text, before, out, start, w, numcopied, ptr, base, col)
    ensures before + ExpandCells(Render(NORMAL, text), start, start, w) == out + SliceCells(text, numcopied, |text|)
    ensures numcopied == |text| ==> out + SliceCells(text, numcopied, |text|) == out
  {
    hide SliceCells;
    var a := SliceCells(text, numcopied, |text|);
    ExpandPlain(a, [], base, start, w);
    assert a + [] == a;
    EmptySlice(text, |text|);
  }

  /** Expanded text has no tabs and is printable. */
  lemma {:induction false} ExpandedIsPrintable(cells: seq<Cell>, col: int, start: int, w: Width)
    requires NoControls(cells, w) && w(BLANK) == 1
    ensures Printable(ExpandCells(cells, col, start, w), w) && NoTab(ExpandCells(cells, col, start, w))
    decreases |cells|
  {
    hide Printable;
    hide NoTab;
    hide NoControls;
    hide Blanks;
    hide ExpandCells;
    if cells == [] {
      NothingIsPrintable(w);
      ExpandEmpty(col, start, w);
    } else {
      RestNoControls(cells, w);
      if cells[0].ch == TAB {
        var n := ExpandTabFirst(cells, col, start, w);
        ExpandedIsPrintable(cells[1..], col + n, start, w);
        BlanksPrintable(n, w);
        BothPrintable(Blanks(n), ExpandCells(cells[1..], col + n, start, w), w);
      } else {
        var next := if IsNewline(cells[0]) then start else col + w(cells[0].ch);
        ExpandFirst(cells, col, start, w);
        ExpandedIsPrintable(cells[1..], next, start, w);
        BothPrintable([cells[0]], ExpandCells(cells[1..], next, start, w), w);
      }
    }
  }

  lemma ExpandEmpty(col: int, start: int, w: Width)
    ensures ExpandCells([], col, start, w) == []
  {
  }

  lemma ExpandTabFirst(cells: seq<Cell>, col: int, start: int, w: Width) returns (n: nat)
    requires cells != [] && cells[0].ch == TAB
    ensures ExpandCells(cells, col, start, w) == Blanks(n) + ExpandCells(cells[1..], col + n, start, w)
  {
    n := TAB_WIDTH - col % TAB_WIDTH;
  }

  lemma NothingIsPrintable(w: Width)
    ensures Printable([], w) && NoTab([])
  {
  }

  lemma RestNoControls(cells: seq<Cell>, w: Width)
    requires NoControls(cells, w) && cells != []
    ensures NoControls(cells[1..], w)
    ensures cells[0].ch != TAB ==> Printable([cells[0]], w) && NoTab([cells[0]])
  {
    assert forall i :: 0 <= i < |cells[1..]| ==> cells[1..][i] == cells[i + 1];
  }

  lemma BlanksPrintable(n: nat, w: Width)
    requires w(BLANK) == 1
    ensures Printable(Blanks(n), w) && NoTab(Blanks(n))
  {
    BlanksAre(n);
  }

  lemma BothPrintable(a: seq<Cell>, b: seq<Cell>, w: Width)
    requires Printable(a, w) && NoTab(a) && Printable(b, w) && NoTab(b)
    ensures Printable(a + b, w) && NoTab(a + b)
  {
  }

  lemma {:induction false} BlanksAre(n: nat)
    ensures forall i :: 0 <= i < |Blanks(n)| ==> Blanks(n)[i] == Cell(BLANK, NORMAL)
  {
    if n == 0 {
    } else {
      BlanksAre(n - 1);
    }
  }

  /** Text without tabs is its own expansion. */
  lemma ExpandNothing(cells: seq<Cell>, col: int, start: int, w: Width)
    requires NoTab(cells)
    ensures ExpandCells(cells, col, start, w) == cells
  {
  }

  /** `owl_fmtext_truncate_cols`: printed to a screen as wide as the window, row i of what
      is added is what the window shows of line i of the tab-expanded text, exactly if no
      line loses anything. */
  method TruncateCols(inp: Fmtext, acol: int, bcol: int, w: Width, out: Fmtext)
    requires out.Valid() && Clean(inp.buff) && inp != out
    requires NoControls(inp.Cells(), w) && w(BLANK) == 1 && 0 <= acol <= bcol
    modifies out
    ensures out.Valid()
    ensures exists added :: (out.Cells() == old(out.Cells()) + added &&
      var expanded := ExpandCells(inp.Cells(), 0, 0, w);
      (PutAll(Screen([], [], 0), added, bcol - acol + 1, w) == Screen(WindowRows(expanded, acol, bcol, w), [], 0) <==>
        NoLineLoses(expanded, acol, bcol, w)) &&
      (acol + 2 <= bcol ==> (NoLineLoses(expanded, acol, bcol, w) <==> NoWideLost(expanded, acol, bcol, w))))
  {
    hide *;
    ghost var expanded := ExpandCells(inp.Cells(), 0, 0, w);
    ExpandedIsPrintable(inp.Cells(), 0, 0, w);
    RowsAreAligned([], expanded, acol, bcol, w);
    assert [] + WindowRows(expanded, acol, bcol, w) == WindowRows(expanded, acol, bcol, w);
    assert [] + expanded == expanded;
    if exists i :: 0 <= i < |inp.buff| && inp.buff[i] == TAB {
      var notabs := new Fmtext();
      EmptyIsSettled(notabs);
      ExpandTabs(inp, notabs, 0, w);
      ValidIsClean(notabs);
      TruncateColsInternal(notabs, acol, bcol, w, out);
    } else {
      TabFree(inp, w);
      TruncateColsInternal(inp, acol, bcol, w, out);
    }
  }

  lemma EmptyIsSettled(f: Fmtext)
    ensures f.buff == [] ==> f.Valid() && f.Cells() == []
  {
  }

  lemma ValidIsClean(f: Fmtext)
    requires f.Valid()
    ensures Clean(f.buff)
  {
  }

  lemma TabFree(f: Fmtext, w: Width)
    requires forall i :: 0 <= i < |f.buff| ==> f.buff[i] != TAB
    ensures ExpandCells(f.Cells(), 0, 0, w) == f.Cells()
  {
    NoTabRendered(NORMAL, f.buff);
    ExpandNothing(f.Cells(), 0, 0, w);
  }

  lemma {:induction false} NoTabRendered(st: Style, text: seq<Rune>)
    requires forall i :: 0 <= i < |text| ==> text[i] != TAB
    ensures NoTab(Render(st, text))
    decreases |text|
  {
    hide IsFormat;
    hide Update;
    if text == [] {
    } else {
      NoTabRendered(if IsFormat(text[0]) then Update(st, text[0]) else st, text[1..]);
    }
  }

  /** Through a window one column wide, the line "a" shows its letter, and the source prints
      an empty row. */
  lemma NarrowWindowLosesText(w: Width, nl: Cell)
    requires w(97) == 1 && w(BLANK) == 1 && IsNewline(nl)
    ensures var line := [Cell(97, NORMAL)];
      WindowRow(line, 0, 0, w) == [Placed(0, Cell(97, NORMAL))] &&
      PutAll(Screen([], [], 0), PieceCells(line, nl, 0, 0, w), 1, w) == Screen([[]], [], 0)
  {
    var line := [Cell(97, NORMAL)];
    assert FirstAt(line, 0, 0, w) == 0;
    assert Kept(line, 0, 0, 0, w) == [] && Shown(line, 0, 0, 0, w) == [] && InWindow(line, 0, 0, 0, w);
    assert Shown(line, 1, 0, 0, w) == [Placed(0, line[0])];
    PieceIsOneRow([], line, nl, 0, 0, w);
    var none: seq<Row> := [];
    assert none + [[]] == [[]];
  }

  /** Through a window four columns wide, two letters and a CJK character show all of
      themselves, as they do when printed whole; the source drops the CJK character. */
  lemma WideCharacterLost(w: Width, nl: Cell)
    requires w(97) == 1 && w(0x5B57) == 2 && w(BLANK) == 1 && IsNewline(nl)
    ensures var a, cjk := Cell(97, NORMAL), Cell(0x5B57, NORMAL);
      var line, row := [a, a, cjk], [Placed(0, a), Placed(1, a), Placed(2, cjk)];
      WindowRow(line, 0, 3, w) == row && PutAll(Screen([], [], 0), line, 4, w) == Screen([row], [], 0) &&
      PutAll(Screen([], [], 0), PieceCells(line, nl, 0, 3, w), 4, w) == Screen([row[..2]], [], 0)
  {
    var a, cjk := Cell(97, NORMAL), Cell(0x5B57, NORMAL);
    var line, row := [a, a, cjk], [Placed(0, a), Placed(1, a), Placed(2, cjk)];
    assert !IsNewline(a) && !IsNewline(cjk);
    WideCharacterShown(line, w);
    var s0: Screen := Screen([], [], 0);
    var s2 := Put(Put(s0, a, 4, w), a, 4, w);
    assert s2 == Screen([], row[..2], 2);
    PutOne(s0, a, 4, w);
    PutOne(Put(s0, a, 4, w), a, 4, w);
    PutOne(s2, cjk, 4, w);
    PutAllConcat(s0, [a] + [a], [cjk], 4, w);
    PutAllConcat(s0, [a], [a], 4, w);
    assert line == ([a] + [a]) + [cjk];
    PieceIsPrinted([], line, nl, 0, 3, w);
    var none: seq<Row> := [];
    assert none + [row[..2]] == [row[..2]] && none + [row] == [row] && row[..2] + [Placed(2, cjk)] == row;
  }

  lemma WideCharacterShown(line: seq<Cell>, w: Width)
    requires w(97) == 1 && w(0x5B57) == 2 && w(BLANK) == 1
    requires line == [Cell(97, NORMAL), Cell(97, NORMAL), Cell(0x5B57, NORMAL)]
    ensures var row := [Placed(0, line[0]), Placed(1, line[1]), Placed(2, line[2])];
      WindowRow(line, 0, 3, w) == row && PrintedRow(line, 0, 3, w) == row[..2]
  {
    assert ColAt(line, 0, w) == 0 && ColAt(line, 1, w) == 1 && ColAt(line, 2, w) == 2;
    assert FirstAt(line, 0, 0, w) == 0;
    hide ColAt;
    assert Shown(line, 1, 0, 3, w) == [Placed(0, line[0])] && Kept(line, 1, 0, 3, w) == [Placed(0, line[0])];
    assert Kept(line, 2, 0, 3, w) == [Placed(0, line[0]), Placed(1, line[1])];
    assert Kept(line, 3, 0, 3, w) == Kept(line, 2, 0, 3, w);
    assert Shown(line, 2, 0, 3, w) == [Placed(0, line[0]), Placed(1, line[1])];
    assert Shown(line, 3, 0, 3, w) == Shown(line, 2, 0, 3, w) + [Placed(2, line[2])];
    assert BlankRow(0) == [];
  }
}

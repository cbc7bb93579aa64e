/** Cutting formatted text to a window of lines and columns (fmtext.c), stated on the
    cells the text renders to. */
module FormattedLines {
  import opened Strings
  import opened FormattedText

  predicate IsNewline(c: Cell) { c.ch == NEWLINE }

  function CountNewlines(cells: seq<Cell>): nat {
    if cells == [] then 0 else (if IsNewline(cells[0]) then 1 else 0) + CountNewlines(cells[1..])
  }

  /** What follows the first k lines; everything, if there are not that many. */
  function DropLines(cells: seq<Cell>, k: nat): seq<Cell>
    decreases |cells|
  {
    if k == 0 || cells == [] then cells
    else DropLines(cells[1..], if IsNewline(cells[0]) then k - 1 else k)
  }

  /** The first k lines, with their newlines. */
  function TakeLines(cells: seq<Cell>, k: nat): seq<Cell>
    decreases |cells|
  {
    if k == 0 || cells == [] then []
    else [cells[0]] + TakeLines(cells[1..], if IsNewline(cells[0]) then k - 1 else k)
  }

  predicate NoNewline(cells: seq<Cell>) { forall i :: 0 <= i < |cells| ==> !IsNewline(cells[i]) }

  /** A line: no newline but the last cell. */
  lemma {:induction false} FirstLine(line: seq<Cell>, nl: Cell, rest: seq<Cell>, k: nat)
    requires NoNewline(line) && IsNewline(nl) && k > 0
    ensures var all := line + [nl] + rest;
            CountNewlines(all) == 1 + CountNewlines(rest) && DropLines(all, k) == DropLines(rest, k - 1) &&
            TakeLines(all, k) == line + [nl] + TakeLines(rest, k - 1)
    decreases |line|
  {
    var all := line + [nl] + rest;
    if line == [] {
      assert all[0] == nl && all[1..] == rest;
      assert [nl] + TakeLines(rest, k - 1) == line + [nl] + TakeLines(rest, k - 1);
    } else {
      assert all[0] == line[0] && all[1..] == line[1..] + [nl] + rest;
      FirstLine(line[1..], nl, rest, k);
      assert [line[0]] + (line[1..] + [nl] + TakeLines(rest, k - 1)) == line + [nl] + TakeLines(rest, k - 1);
    }
  }

  lemma {:induction false} LastLine(line: seq<Cell>, k: nat)
    requires NoNewline(line) && k > 0
    ensures CountNewlines(line) == 0 && TakeLines(line, k) == line && DropLines(line, k) == []
    decreases |line|
  {
    if line == [] {
    } else {
      LastLine(line[1..], k);
    }
  }

  /** `strchr(text + from, '\n')`. */
  method FindNewline(text: seq<Rune>, from: nat) returns (p: Option<nat>)
    requires from <= |text|
    ensures p == None ==> forall i :: from <= i < |text| ==> text[i] != NEWLINE
    ensures p != None ==> from <= p.value < |text| && text[p.value] == NEWLINE &&
                          forall i :: from <= i < p.value ==> text[i] != NEWLINE
  {
    var i := from;
    while i < |text|
      invariant from <= i <= |text|
      invariant forall j :: from <= j < i ==> text[j] != NEWLINE
    {
      if text[i] == NEWLINE { return Some(i); }
      i := i + 1;
    }
    return None;
  }

  lemma {:induction false} NoNewlineRendered(st: Style, text: seq<Rune>)
    requires forall i :: 0 <= i < |text| ==> text[i] != NEWLINE
    ensures NoNewline(Render(st, text))
    decreases |text|
  {
    hide IsFormat;
    hide Update;
    if text == [] {
    } else {
      NoNewlineRendered(if IsFormat(text[0]) then Update(st, text[0]) else st, text[1..]);
    }
  }

  /** The cells of a text line, its newline and what follows. */
  lemma LineCells(text: seq<Rune>, s: nat, e: nat) returns (nl: Cell)
    requires s <= e < |text| && text[e] == NEWLINE && forall i :: s <= i < e ==> text[i] != NEWLINE
    ensures IsNewline(nl) && NoNewline(SliceCells(text, s, e))
    ensures SliceCells(text, s, e + 1) == SliceCells(text, s, e) + [nl]
    ensures SliceCells(text, s, |text|) == SliceCells(text, s, e) + [nl] + SliceCells(text, e + 1, |text|)
    ensures SliceCells(text, e, e + 1) == [nl]
  {
    var st := EndStyle(NORMAL, text[..e]);
    nl := Cell(NEWLINE, st);
    OneCell(text, e);
    BlankIsPlain();
    NoNewlineRendered(EndStyle(NORMAL, text[..s]), text[s..e]);
    hide SliceCells;
    SlicesJoin(text, s, e, e + 1);
    SlicesJoin(text, s, e + 1, |text|);
  }

  lemma OneCell(text: seq<Rune>, i: nat)
    requires i < |text|
    ensures SliceCells(text, i, i + 1) ==
      if IsFormat(text[i]) then [] else [Cell(text[i], EndStyle(NORMAL, text[..i]))]
  {
    hide IsFormat;
    hide Update;
    var c, st := [text[i]], EndStyle(NORMAL, text[..i]);
    assert text[i..i + 1] == c;
    if IsFormat(c[0]) {
      FormatChar(st, c[0]);
    } else {
      assert Render(st, c) == [Cell(c[0], st)] + Render(st, c[1..]);
    }
  }

  lemma EmptySlice(text: seq<Rune>, i: nat)
    requires i <= |text|
    ensures SliceCells(text, i, i) == []
  {
  }

  /** The requested lines of what the text shows. */
  function LineWindow(cells: seq<Cell>, aline: nat, lines: nat): seq<Cell> {
    if CountNewlines(cells) < aline then [] else TakeLines(DropLines(cells, aline), lines)
  }

  predicate EndsLine(cells: seq<Cell>) { cells != [] && IsNewline(cells[|cells| - 1]) }

  /** What is dropped: up to and with the k-th newline. */
  lemma {:induction false} DroppedLines(cells: seq<Cell>, k: nat) returns (before: seq<Cell>)
    requires CountNewlines(cells) >= k
    ensures cells == before + DropLines(cells, k) && CountNewlines(before) == k
    ensures before == [] || EndsLine(before)
    decreases |cells|
  {
    before := [];
    if k == 0 {
    } else {
      before := DroppedLines(cells[1..], if IsNewline(cells[0]) then k - 1 else k);
      var rest := before;
      before := [cells[0]] + rest;
      assert before[1..] == rest && cells == [cells[0]] + cells[1..];
    }
  }

  /** What is taken: up to and with the k-th newline, or everything. */
  lemma {:induction false} TakenLines(cells: seq<Cell>, k: nat) returns (after: seq<Cell>)
    ensures var taken := TakeLines(cells, k);
      cells == taken + after && (k == 0 ==> taken == []) &&
      if CountNewlines(taken) == k then taken == [] || EndsLine(taken)
      else CountNewlines(taken) < k && after == []
    decreases |cells|
  {
    after := cells;
    if k == 0 || cells == [] {
    } else {
      var k' := if IsNewline(cells[0]) then k - 1 else k;
      after := TakenLines(cells[1..], k');
      var rest := TakeLines(cells[1..], k');
      assert TakeLines(cells, k)[1..] == rest && cells == [cells[0]] + cells[1..];
    }
  }

  /** The window is what comes after `aline` newlines, up to and with the next `lines` of them,
      or up to the end if there are fewer. */
  lemma LineWindowIs(cells: seq<Cell>, aline: nat, lines: nat) returns (before: seq<Cell>, after: seq<Cell>)
    ensures var window := LineWindow(cells, aline, lines);
      if CountNewlines(cells) < aline then window == []
      else
        cells == before + window + after &&
        CountNewlines(before) == aline && (before == [] || EndsLine(before)) &&
        if CountNewlines(window) == lines then window == [] || EndsLine(window)
        else CountNewlines(window) < lines && after == []
    ensures lines == 0 ==> LineWindow(cells, aline, lines) == []
  {
    before, after := [], [];
    if CountNewlines(cells) >= aline {
      before := DroppedLines(cells, aline);
      after := TakenLines(DropLines(cells, aline), lines);
    }
  }

  /** `owl_fmtext_truncate_lines`: appends exactly the requested lines, and returns 0 if
      and only if there are that many complete lines. */
  method TruncateLines(inp: Fmtext, aline: nat, lines: int, out: Fmtext) returns (rv: int)
    requires out.Valid() && Clean(inp.buff) && inp != out
    modifies out
    ensures out.Valid()
    ensures out.Cells() == old(out.Cells()) + LineWindow(inp.Cells(), aline, if lines < 0 then 0 else lines)
    ensures rv == if lines >= 1 && CountNewlines(inp.Cells()) >= aline + lines then 0 else -1
  {
    hide SliceCells;
    hide Clean;
    hide IsFormat;
    hide Update;
    hide InPlane16;
    hide Settled;
    ghost var all, before := inp.Cells(), out.Cells();
    WholeSlice(inp.buff);
    var text := inp.buff;
    var ptr1 := SkipLines(inp, aline);
    if ptr1 == None || lines < 1 {
      NoLines(all, aline);
      assert before + [] == before;
      return -1;
    }
    ghost var wanted := SliceCells(text, ptr1.value, |text|);
    rv := CopyLines(inp, ptr1.value, lines, out);
  }

  lemma NoLines(cells: seq<Cell>, aline: nat)
    ensures LineWindow(cells, aline, 0) == []
  {
  }

  /** The first loop: find the starting line. */
  method SkipLines(inp: Fmtext, aline: nat) returns (ptr1: Option<nat>)
    ensures ptr1 == None <==> CountNewlines(inp.Cells()) < aline
    ensures ptr1 != None ==>
      (ptr1.value <= |inp.buff| &&
       SliceCells(inp.buff, ptr1.value, |inp.buff|) == DropLines(inp.Cells(), aline) &&
       CountNewlines(inp.Cells()) == aline + CountNewlines(SliceCells(inp.buff, ptr1.value, |inp.buff|)))
  {
    hide SliceCells;
    hide IsFormat;
    hide Update;
    var text := inp.buff;
    ghost var all := inp.Cells();
    WholeSlice(text);
    var p, i := 0, 0;
    while i < aline
      invariant 0 <= i <= aline && 0 <= p <= |text|
      invariant CountNewlines(all) == i + CountNewlines(SliceCells(text, p, |text|))
      invariant DropLines(all, aline) == DropLines(SliceCells(text, p, |text|), aline - i)
    {
      var q := FindNewline(text, p);
      if q == None {
        NoLineLeft(text, p);
        return None;
      }
      ghost var nl := LineCells(text, p, q.value);
      FirstLine(SliceCells(text, p, q.value), nl, SliceCells(text, q.value + 1, |text|), aline - i);
      p := q.value + 1;
      i := i + 1;
    }
    return Some(p);
  }

  lemma NoLineLeft(text: seq<Rune>, p: nat)
    requires p <= |text| && forall i :: p <= i < |text| ==> text[i] != NEWLINE
    ensures NoNewline(SliceCells(text, p, |text|)) && CountNewlines(SliceCells(text, p, |text|)) == 0
    ensures forall k: nat :: k > 0 ==> TakeLines(SliceCells(text, p, |text|), k) == SliceCells(text, p, |text|)
  {
    NoNewlineRendered(EndStyle(NORMAL, text[..p]), text[p..|text|]);
    var line := SliceCells(text, p, |text|);
    forall k: nat | k > 0 ensures TakeLines(line, k) == line { LastLine(line, k); }
    LastLine(line, 1);
  }

  /** The second loop: copy line after line. */
  method CopyLines(inp: Fmtext, from: nat, lines: int, out: Fmtext) returns (rv: int)
    requires out.Valid() && Clean(inp.buff) && inp != out && lines >= 1 && from <= |inp.buff|
    modifies out
    ensures out.Valid()
    ensures out.Cells() == old(out.Cells()) + TakeLines(SliceCells(inp.buff, from, |inp.buff|), lines)
    ensures rv == if CountNewlines(SliceCells(inp.buff, from, |inp.buff|)) >= lines then 0 else -1
  {
    hide SliceCells;
    hide Clean;
    hide IsFormat;
    hide Update;
    hide InPlane16;
    hide Settled;
    var text := inp.buff;
    ghost var wanted, before := SliceCells(text, from, |text|), out.Cells();
    var ptr1, i := from, 0;
    assert before + TakeLines(wanted, lines) == out.Cells() + TakeLines(SliceCells(text, ptr1, |text|), lines);
    while i < lines
      invariant 0 <= i <= lines && from <= ptr1 <= |text| && out.Valid()
      invariant CountNewlines(wanted) == i + CountNewlines(SliceCells(text, ptr1, |text|))
      invariant before + TakeLines(wanted, lines) == out.Cells() + TakeLines(SliceCells(text, ptr1, |text|), lines - i)
    {
      ghost var shown := out.Cells();
      var ptr2 := FindNewline(text, ptr1);
      if ptr2 == None {
        NoLineLeft(text, ptr1);
        out.AppendFmtext(inp, ptr1, |text|);
        return -1;
      }
      ghost var nl := LineCells(text, ptr1, ptr2.value);
      ghost var line, rest := SliceCells(text, ptr1, ptr2.value), SliceCells(text, ptr2.value + 1, |text|);
      FirstLine(line, nl, rest, lines - i);
      out.AppendFmtext(inp, ptr1, ptr2.value + 1);
      assert shown + (line + [nl] + TakeLines(rest, lines - i - 1)) ==
        shown + (line + [nl]) + TakeLines(rest, lines - i - 1);
      ptr1 := ptr2.value + 1;
      i := i + 1;
    }
    assert out.Cells() + [] == out.Cells();
    return 0;
  }
}

/** The text of an edit window (editwin.c) as values: replacements, the points they move,
    display columns, and what remains when whitespace is ignored. */
module EditText {

  // ------------------------------------------------------------------------- edits

  /** The characters from start up to end are replaced by `text`. */
  datatype Edit = Edit(start: nat, end: nat, text: seq<char>)

  predicate Fits(b: seq<char>, e: Edit)
  {
    e.start <= e.end <= |b|
  }

  function Apply(b: seq<char>, e: Edit): (r: seq<char>)
    requires Fits(b, e)
    ensures |r| == |b| + |e.text| - (e.end - e.start)
  {
    b[..e.start] + e.text + b[e.end..]
  }

  /** The text made by a list of edits, starting from nothing. */
  function Text(log: seq<Edit>): seq<char>
  {
    if log == [] then [] else
      var b, e := Text(log[..|log| - 1]), log[|log| - 1];
      if Fits(b, e) then Apply(b, e) else b
  }

  ghost predicate Legal(log: seq<Edit>)
  {
    log == [] || (Legal(log[..|log| - 1]) && Fits(Text(log[..|log| - 1]), log[|log| - 1]))
  }

  lemma TextMore(log: seq<Edit>, e: Edit)
    requires Fits(Text(log), e)
    ensures Text(log + [e]) == Apply(Text(log), e) && (Legal(log) ==> Legal(log + [e]))
  {
  }

  /** `oe_fixup`: where an edit moves a point. */
  function Fixup(target: int, e: Edit): int
  {
    var change := |e.text| - (e.end - e.start);
    if target > e.start then (if target <= e.end then e.end + change else target + change) else target
  }

  /** Where the edits from position `from` on move a point. */
  function FixAll(target: int, log: seq<Edit>, from: nat): int
    requires from <= |log|
  {
    if |log| == from then target else Fixup(FixAll(target, log[..|log| - 1], from), log[|log| - 1])
  }

  lemma FixMore(target: int, log: seq<Edit>, from: nat, e: Edit)
    requires from <= |log|
    ensures FixAll(target, log + [e], from) == Fixup(FixAll(target, log, from), e)
  {
  }

  /** The characters before and after a point are the same in both texts. */
  predicate SamePlace(a: seq<char>, i: int, b: seq<char>, j: int)
  {
    0 <= i <= |a| && 0 <= j <= |b| && (i == 0 <==> j == 0) && (i == |a| <==> j == |b|) &&
    (i > 0 && j > 0 ==> a[i - 1] == b[j - 1]) && (i < |a| && j < |b| ==> a[i] == b[j])
  }

  /** A point outside the replaced region stays between the same two characters; one inside
      it, or at its end, goes to the end of what was put in; one at its start stays. */
  lemma PointStays(b: seq<char>, e: Edit, t: int)
    requires Fits(b, e) && 0 <= t <= |b|
    ensures 0 <= Fixup(t, e) <= |Apply(b, e)|
    ensures t < e.start || t > e.end ==> SamePlace(b, t, Apply(b, e), Fixup(t, e))
    ensures e.start < t <= e.end ==> Fixup(t, e) == e.start + |e.text| && Apply(b, e)[Fixup(t, e)..] == b[e.end..]
    ensures t == e.start ==> Fixup(t, e) == t && Apply(b, e)[..t] == b[..t]
  {
  }

  /** The point is never inside, or at the edge of, what the edits from `from` on replace. */
  ghost predicate Untouched(t: int, log: seq<Edit>, from: nat)
    requires from <= |log|
  {
    |log| == from ||
    (var n := |log| - 1;
     Untouched(t, log[..n], from) && !(log[n].start <= FixAll(t, log[..n], from) <= log[n].end))
  }

  /** Through a whole run of edits, an untouched point stays between the same two
      characters. */
  lemma {:induction false} PointStaysThroughRun(log: seq<Edit>, from: nat, t: int)
    requires Legal(log) && from <= |log| && 0 <= t <= |Text(log[..from])| && Untouched(t, log, from)
    ensures SamePlace(Text(log[..from]), t, Text(log), FixAll(t, log, from))
    decreases |log|
  {
    if |log| == from {
      assert log[..from] == log;
    } else {
      var n := |log| - 1;
      assert log[..n][..from] == log[..from];
      PointStaysThroughRun(log[..n], from, t);
      PointStaysOnce(Text(log[..from]), t, Text(log[..n]), FixAll(t, log[..n], from), log[n]);
    }
  }

  lemma PointStaysOnce(a: seq<char>, i: int, b: seq<char>, j: int, e: Edit)
    requires SamePlace(a, i, b, j) && Fits(b, e) && (j < e.start || j > e.end)
    ensures SamePlace(a, i, Apply(b, e), Fixup(j, e))
  {
  }

  // ----------------------------------------------------------------------- columns

  const TABSIZE: nat := 8

  /** `oe_char_width`, over a width for every character but the tab. */
  function CharWidth(widths: char -> nat, c: char, column: nat): nat
  {
    if c == '\t' then TABSIZE - column % TABSIZE else widths(c)
  }

  /** The column after s, starting from `offset`, with newlines going back to 0. */
  function RegionColumn(widths: char -> nat, s: seq<char>, offset: nat): nat
  {
    if s == [] then offset else
      var c, before := s[|s| - 1], RegionColumn(widths, s[..|s| - 1], offset);
      if c == '\n' then 0 else before + CharWidth(widths, c, before)
  }

  /** The column after s, starting from `offset`, with newlines like other characters. */
  function RegionEnd(widths: char -> nat, s: seq<char>, offset: nat): nat
    ensures RegionEnd(widths, s, offset) >= offset
  {
    if s == [] then offset else
      var before := RegionEnd(widths, s[..|s| - 1], offset);
      before + CharWidth(widths, s[|s| - 1], before)
  }

  lemma {:induction false} ColumnAppend(widths: char -> nat, a: seq<char>, b: seq<char>, offset: nat)
    ensures RegionColumn(widths, a + b, offset) == RegionColumn(widths, b, RegionColumn(widths, a, offset))
    decreases |b|
  {
    if b == [] {
      assert a + b == a;
    } else {
      var n := |b| - 1;
      assert (a + b)[..|a + b| - 1] == a + b[..n];
      ColumnAppend(widths, a, b[..n], offset);
    }
  }

  /** A tab goes to the next multiple of eight columns, a newline back to column 0, and any
      other character as far as it is wide. */
  lemma ColumnSteps(widths: char -> nat, s: seq<char>, c: char, offset: nat)
    ensures var col, next := RegionColumn(widths, s, offset), RegionColumn(widths, s + [c], offset);
      if c == '\n' then next == 0
      else if c == '\t' then next % 8 == 0 && col < next <= col + 8
      else next == col + widths(c)
    ensures var col, next := RegionEnd(widths, s, offset), RegionEnd(widths, s + [c], offset);
      if c == '\t' then next % 8 == 0 && col < next <= col + 8 else next == col + widths(c)
  {
    assert (s + [c])[..|s|] == s;
  }

  /** Where the line of position i starts: after the last newline, or at the lock. */
  function LineStart(b: seq<char>, lock: nat, i: nat): (s: nat)
    requires lock <= i <= |b|
    ensures lock <= s <= i && NoNewline(b, s, i) && (s == lock || b[s - 1] == '\n')
    decreases i
  {
    if i == lock || b[i - 1] == '\n' then i else LineStart(b, lock, i - 1)
  }

  predicate NoNewline(b: seq<char>, i: nat, j: nat)
    requires j <= |b|
  {
    forall k :: i <= k < j ==> b[k] != '\n'
  }

  lemma {:induction false} LineStartUnique(b: seq<char>, lock: nat, i: nat, s: nat)
    requires lock <= s <= i <= |b| && NoNewline(b, s, i) && (s == lock || b[s - 1] == '\n')
    ensures s == LineStart(b, lock, i)
  {
  }

  function Newlines(s: seq<char>): nat {
    if s == [] then 0 else Newlines(s[..|s| - 1]) + if s[|s| - 1] == '\n' then 1 else 0
  }

  lemma {:induction false} NewlinesSplit(b: seq<char>, i: nat, j: nat, k: nat)
    requires i <= j <= k <= |b|
    ensures Newlines(b[i..k]) == Newlines(b[i..j]) + Newlines(b[j..k])
    decreases k - j
  {
    if k == j {
    } else {
      NewlinesSplit(b, i, j, k - 1);
      assert b[i..k][..k - i - 1] == b[i..k - 1] && b[j..k][..k - j - 1] == b[j..k - 1];
    }
  }

  lemma {:induction false} NoNewlines(b: seq<char>, i: nat, j: nat)
    requires i <= j <= |b| && NoNewline(b, i, j)
    ensures Newlines(b[i..j]) == 0
    decreases j - i
  {
    if i == j {
    } else {
      NoNewlines(b, i, j - 1);
      assert b[i..j][..j - i - 1] == b[i..j - 1];
    }
  }

  /** From after a newline back to the start of the line it ends. */
  lemma OneNewline(b: seq<char>, i: nat, j: nat)
    requires i < j <= |b| && NoNewline(b, i, j - 1) && b[j - 1] == '\n'
    ensures Newlines(b[i..j]) == 1
  {
    NoNewlines(b, i, j - 1);
    assert b[i..j][..j - i - 1] == b[i..j - 1];
  }

  lemma {:induction false} ColumnWithoutNewline(widths: char -> nat, s: seq<char>, offset: nat)
    requires '\n' !in s
    ensures RegionColumn(widths, s, offset) == RegionEnd(widths, s, offset)
    decreases |s|
  {
    if s == [] {
    } else {
      ColumnWithoutNewline(widths, s[..|s| - 1], offset);
    }
  }

  /** The column at i, counted from the lock, is the width of the line up to i. */
  lemma ColumnIsLineWidth(widths: char -> nat, b: seq<char>, lock: nat, i: nat)
    requires lock <= i <= |b|
    ensures RegionColumn(widths, b[lock..i], 0) == RegionEnd(widths, b[LineStart(b, lock, i)..i], 0)
  {
    var s := LineStart(b, lock, i);
    assert b[lock..i] == b[lock..s] + b[s..i];
    ColumnAppend(widths, b[lock..s], b[s..i], 0);
    ColumnWithoutNewline(widths, b[s..i], 0);
    if s > lock { assert b[lock..s][|b[lock..s]| - 1] == '\n'; }
  }

  // -------------------------------------------------------------------- whitespace

  /** What is left of s without its whitespace. */
  function NonSpace(isSpace: char -> bool, s: seq<char>): seq<char>
  {
    if s == [] then [] else
      NonSpace(isSpace, s[..|s| - 1]) + (if isSpace(s[|s| - 1]) then [] else [s[|s| - 1]])
  }

  lemma {:induction false} NonSpaceAppend(isSpace: char -> bool, a: seq<char>, b: seq<char>)
    ensures NonSpace(isSpace, a + b) == NonSpace(isSpace, a) + NonSpace(isSpace, b)
    decreases |b|
  {
    if b == [] {
      assert a + b == a;
    } else {
      assert (a + b)[..|a + b| - 1] == a + b[..|b| - 1];
      NonSpaceAppend(isSpace, a, b[..|b| - 1]);
    }
  }

  /** An edit that replaces whitespace by whitespace. */
  predicate Respaces(isSpace: char -> bool, b: seq<char>, e: Edit)
  {
    Fits(b, e) && (forall i :: e.start <= i < e.end ==> isSpace(b[i])) &&
    forall i :: 0 <= i < |e.text| ==> isSpace(e.text[i])
  }

  lemma {:induction false} AllSpace(isSpace: char -> bool, s: seq<char>)
    requires forall i :: 0 <= i < |s| ==> isSpace(s[i])
    ensures NonSpace(isSpace, s) == []
    decreases |s|
  {
    if s == [] {
    } else {
      AllSpace(isSpace, s[..|s| - 1]);
    }
  }

  lemma RespacingKeeps(isSpace: char -> bool, b: seq<char>, e: Edit)
    requires Respaces(isSpace, b, e)
    ensures NonSpace(isSpace, Apply(b, e)) == NonSpace(isSpace, b)
  {
    assert b == b[..e.start] + b[e.start..e.end] + b[e.end..];
    NonSpaceAppend(isSpace, b[..e.start] + b[e.start..e.end], b[e.end..]);
    NonSpaceAppend(isSpace, b[..e.start], b[e.start..e.end]);
    NonSpaceAppend(isSpace, b[..e.start] + e.text, b[e.end..]);
    NonSpaceAppend(isSpace, b[..e.start], e.text);
    AllSpace(isSpace, b[e.start..e.end]);
    AllSpace(isSpace, e.text);
  }

  /** b is orig with some of its whitespace between positions k and q changed. */
  predicate OnlyRespaced(isSpace: char -> bool, orig: seq<char>, b: seq<char>, k: nat, q: nat)
  {
    k <= |b| && k <= |orig| && q <= |orig| && |orig| - q <= |b| &&
    b[..k] == orig[..k] && b[|b| - (|orig| - q)..] == orig[q..] &&
    NonSpace(isSpace, b) == NonSpace(isSpace, orig)
  }

  lemma RespacedFurther(isSpace: char -> bool, orig: seq<char>, b: seq<char>, k: nat, q: nat, e: Edit)
    requires OnlyRespaced(isSpace, orig, b, k, q) && Respaces(isSpace, b, e)
    requires k <= e.start && e.end <= |b| - (|orig| - q)
    ensures OnlyRespaced(isSpace, orig, Apply(b, e), k, q)
  {
    RespacingKeeps(isSpace, b, e);
    var r, tail := Apply(b, e), |orig| - q;
    assert r[..k] == b[..k];
    assert r[|r| - tail..] == b[|b| - tail..];
  }

  // -------------------------------------------------------------------- paragraphs

  /** A newline after a newline. */
  predicate EmptyLine(b: seq<char>, i: nat)
  {
    0 < i < |b| && b[i] == '\n' && b[i - 1] == '\n'
  }

  /** The last empty line at or before i, or the lock. */
  function ParagraphStart(b: seq<char>, lock: nat, i: nat): (p: nat)
    requires lock <= i
    ensures lock <= p <= i && (p == lock || EmptyLine(b, p)) && forall k :: p < k <= i ==> !EmptyLine(b, k)
    decreases i
  {
    if i == lock || EmptyLine(b, i) then i else ParagraphStart(b, lock, i - 1)
  }

  /** The first empty line at or after i, or the end of the text. */
  function ParagraphEnd(b: seq<char>, i: nat): (q: nat)
    requires i <= |b|
    ensures i <= q <= |b| && (q == |b| || EmptyLine(b, q)) && forall k :: i <= k < q ==> !EmptyLine(b, k)
    decreases |b| - i
  {
    if i == |b| || EmptyLine(b, i) then i else ParagraphEnd(b, i + 1)
  }

  // ------------------------------------------------------------------ line breaking

  /** `owl_util_can_break_after`: at a blank, and around most CJK characters. */
  predicate CanBreakAfter(c: char)
  {
    var n := c as int;
    c == ' ' ||
    (if 0x3000 <= n <= 0x312f
     then n !in [0x300a, 0x300c, 0x300e, 0x3010, 0x3014, 0x3016, 0x3018, 0x301a]
     else 0x31a0 <= n <= 0x31bf || 0x31f0 <= n <= 0x31ff || 0x3400 <= n <= 0x9fff ||
          0xf900 <= n <= 0xfaff || 0x20000 <= n <= 0x2ffff)
  }

  /** Lines can be broken at blanks and CJK characters, but not after an opening bracket, and
      not at letters, tabs and newlines. */
  lemma BreakPlaces(c: char)
    ensures c as int < 0x3000 ==> (CanBreakAfter(c) <==> c == ' ')
    ensures c in "\U{300A}\U{300C}\U{300E}\U{3010}\U{3014}\U{3016}\U{3018}\U{301A}" ==> !CanBreakAfter(c)
    ensures c in "\U{3000}\U{3001}\U{300B}\U{300D}\U{3042}\U{30A2}\U{4E00}\U{5B57}\U{9FFF}" ==> CanBreakAfter(c)
  {
  }

  /** The last position before i with a newline or a character a line can be broken at. */
  function LastBreak(b: seq<char>, lock: nat, i: nat): (j: int)
    requires lock <= i <= |b|
    ensures j == -1 || (lock <= j < i && (CanBreakAfter(b[j]) || b[j] == '\n'))
    ensures forall k :: Max(j + 1, lock) <= k < i ==> !CanBreakAfter(b[k]) && b[k] != '\n'
    decreases i
  {
    if i == lock then -1 else
      if CanBreakAfter(b[i - 1]) || b[i - 1] == '\n' then i - 1 else LastBreak(b, lock, i - 1)
  }

  function Max(a: int, b: int): int
  {
    if a < b then b else a
  }

  function Min(a: int, b: int): int
  {
    if a < b then a else b
  }

  /** The display column of position i. */
  function ColumnAt(widths: char -> nat, b: seq<char>, lock: nat, i: nat): nat
    requires lock <= i <= |b|
  {
    RegionEnd(widths, b[LineStart(b, lock, i)..i], 0)
  }

  /** b with the line of position i broken at the last place it can be. */
  function BreakLine(b: seq<char>, lock: nat, i: nat): (r: seq<char>)
    requires lock <= i <= |b|
    ensures |b| <= |r| <= |b| + 1
  {
    var j := LastBreak(b, lock, i);
    if j == -1 || b[j] == '\n' then b else Apply(b, Edit(j, if b[j] == ' ' then j + 1 else j, "\n"))
  }

  /** Breaking a line leaves an empty line before the break exactly if the place to break
      it is where the line starts. */
  lemma BreakAddsEmptyLine(b: seq<char>, lock: nat, i: nat)
    requires lock <= i <= |b| && BreakLine(b, lock, i) != b
    ensures var j := LastBreak(b, lock, i);
      LineStart(BreakLine(b, lock, i), lock, j) == j <==> LineStart(b, lock, i) == j
  {
    var j, r := LastBreak(b, lock, i), BreakLine(b, lock, i);
    SameLine(b, lock, j, i);
    assert r[..j] == b[..j];
    SameUpTo(b, r, lock, j);
  }

  lemma {:induction false} SameLine(b: seq<char>, lock: nat, j: nat, i: nat)
    requires lock <= j <= i <= |b| && NoNewline(b, j, i)
    ensures LineStart(b, lock, i) == LineStart(b, lock, j)
    decreases i
  {
    if j >= i {
    } else {
      SameLine(b, lock, j, i - 1);
    }
  }

  // --------------------------------------------------------- filling, as a function

  /** Whitespace from i up to m is deleted; also gives where m has gone. */
  function DropBlanks(isSpace: char -> bool, b: seq<char>, i: nat, m: int): (r: (seq<char>, int))
    requires i <= |b| && m <= |b|
    ensures i <= |r.0| && r.1 <= |r.0| && r.1 <= m && (i <= m ==> i <= r.1)
    decreases |b|
  {
    if i < m && isSpace(b[i]) then DropBlanks(isSpace, b[..i] + b[i + 1..], i, m - 1) else (b, m)
  }

  /** Whitespace at i becomes a blank; after a sentence one more whitespace character stays,
      as it is; what else follows up to m is deleted. */
  function CollapseAt(isSpace: char -> bool, b: seq<char>, i: nat, m: int, sentence: bool): (r: (seq<char>, nat, int))
    requires i < m <= |b|
    ensures r.1 <= |r.0| && r.2 <= |r.0| && i <= r.1 <= r.2 && r.2 <= m
  {
    var b1 := if isSpace(b[i]) then b[i := ' '] else b;
    var i1 := if isSpace(b[i]) then i + 1 else i;
    var i2 := if sentence && i1 < m && isSpace(b1[i1]) then i1 + 1 else i1;
    var (b2, m2) := DropBlanks(isSpace, b1, i2, m);
    (b2, i2, m2)
  }

  /** At a character that is not whitespace, even if a line can be broken there, the first
      pass removes nothing. */
  lemma NothingCollapsesAtLetters(isSpace: char -> bool, b: seq<char>, i: nat, m: int, sentence: bool)
    requires i < m <= |b| && !isSpace(b[i])
    ensures CollapseAt(isSpace, b, i, m, sentence) == (b, i, m)
  {
  }

  predicate EndsSentence(before: char, c: char)
  {
    c == '.' || c == '!' || c == '?' || (c == '"' && (before == '.' || before == '!' || before == '?'))
  }

  /** The first pass of filling from i up to m, which stops at a trailing dot. */
  function Collapse(isSpace: char -> bool, b: seq<char>, i: nat, m: int, before: char, sentence: bool): (r: (seq<char>,
                    nat, int))
    requires i <= |b| && m <= |b|
    ensures i <= r.1 <= |r.0| && r.2 <= |r.0|
    decreases m - i
  {
    if i >= m then (b, i, m)
    else if b[i..] == "\n." then (b, i, i)
    else
      var (b2, i2, m2) := if CanBreakAfter(b[i]) || b[i] == '\n' then CollapseAt(isSpace, b, i, m, sentence)
        else (b, i, m);
      Collapse(isSpace, b2, Min(i2 + 1, |b2|), m2, b[i], EndsSentence(before, b[i]))
  }

  /** The second pass from i up to m. */
  function Wrap(widths: char -> nat, fillcol: int, b: seq<char>, lock: nat, i: nat, m: int): (r: seq<char>)
    requires lock <= i <= |b| && m <= |b|
    ensures |r| >= |b|
    decreases m - i
  {
    if i >= m then b
    else
      var b2 := if ColumnAt(widths, b, lock, i) >= fillcol then BreakLine(b, lock, i) else b;
      var grown := |b2| - |b|;
      Wrap(widths, fillcol, b2, lock, i + grown + 1, m + grown)
  }

  /** Position i is not too far right, or its line cannot be broken before it, except at a
      CJK character it starts with. */
  predicate NotTooLong(widths: char -> nat, fillcol: int, b: seq<char>, lock: nat, i: nat)
    requires lock <= i <= |b|
  {
    ColumnAt(widths, b, lock, i) < fillcol || CannotBreak(b, lock, i)
  }

  predicate CannotBreak(b: seq<char>, lock: nat, i: nat)
    requires lock <= i <= |b|
  {
    var j := LastBreak(b, lock, i);
    j == -1 || b[j] == '\n' || (b[j] != ' ' && LineStart(b, lock, i) == j)
  }

  lemma {:induction false} SameUpTo(a: seq<char>, b: seq<char>, lock: nat, i: nat)
    requires lock <= i <= |a| && i <= |b| && a[..i] == b[..i]
    ensures LineStart(a, lock, i) == LineStart(b, lock, i) && LastBreak(a, lock, i) == LastBreak(b, lock, i)
    decreases i
  {
    if i <= lock {
    } else {
      assert a[..i - 1] == a[..i][..i - 1] && b[..i - 1] == b[..i][..i - 1];
      assert a[i - 1] == a[..i][i - 1] && b[i - 1] == b[..i][i - 1];
      SameUpTo(a, b, lock, i - 1);
    }
  }

  /** Being too long depends only on what is before. */
  lemma SameLength(widths: char -> nat, fillcol: int, a: seq<char>, b: seq<char>, lock: nat, i: nat)
    requires lock <= i <= |a| && i <= |b| && a[..i] == b[..i]
    ensures NotTooLong(widths, fillcol, a, lock, i) == NotTooLong(widths, fillcol, b, lock, i)
  {
    SameUpTo(a, b, lock, i);
    var s := LineStart(a, lock, i);
    assert a[s..i] == a[..i][s..] && b[s..i] == b[..i][s..];
    var j := LastBreak(a, lock, i);
    if j != -1 { assert a[j] == a[..i][j] && b[j] == b[..i][j]; }
  }

  /** After breaking the line of i, no position after the break can be broken again. */
  lemma {:induction false} BrokenLine(b: seq<char>, lock: nat, i: nat, x: nat)
    requires lock <= i <= |b| && BreakLine(b, lock, i) != b
    requires LastBreak(b, lock, i) < x <= i + (|BreakLine(b, lock, i)| - |b|)
    ensures CannotBreak(BreakLine(b, lock, i), lock, x)
    decreases x
  {
    var j, r := LastBreak(b, lock, i), BreakLine(b, lock, i);
    assert r[j] == '\n';
    if x == j + 1 {
    } else {
      var grown := |r| - |b|;
      assert r[x - 1] == b[x - 1 - grown];
      BrokenLine(b, lock, i, x - 1);
    }
  }

  /** Breaking the line of i, if it is too long, leaves no line too long up to there. */
  lemma BreakingShortens(widths: char -> nat, fillcol: int, b: seq<char>, lock: nat, i: nat, s: nat)
    requires lock <= s <= i <= |b| && forall x :: s <= x < i ==> NotTooLong(widths, fillcol, b, lock, x)
    ensures var r := if ColumnAt(widths, b, lock, i) >= fillcol then BreakLine(b, lock, i) else b;
      forall x :: s <= x <= i + (|r| - |b|) ==> NotTooLong(widths, fillcol, r, lock, x)
  {
    hide NotTooLong;
    hide BreakLine;
    hide LastBreak;
    var r := if ColumnAt(widths, b, lock, i) >= fillcol then BreakLine(b, lock, i) else b;
    forall x | s <= x <= i + (|r| - |b|) ensures NotTooLong(widths, fillcol, r, lock, x) {
      BreakingShortensAt(widths, fillcol, b, lock, i, x);
    }
  }

  lemma BreakingShortensAt(widths: char -> nat, fillcol: int, b: seq<char>, lock: nat, i: nat, x: nat)
    requires lock <= x && lock <= i <= |b| && (x < i ==> NotTooLong(widths, fillcol, b, lock, x))
    requires var r := if ColumnAt(widths, b, lock, i) >= fillcol then BreakLine(b, lock, i) else b;
      x <= i + (|r| - |b|)
    ensures var r := if ColumnAt(widths, b, lock, i) >= fillcol then BreakLine(b, lock, i) else b;
      NotTooLong(widths, fillcol, r, lock, x)
  {
    hide ColumnAt;
    var r := if ColumnAt(widths, b, lock, i) >= fillcol then BreakLine(b, lock, i) else b;
    var j := LastBreak(b, lock, i);
    if r != b {
      if x <= j {
        assert r[..x] == b[..x];
        SameLength(widths, fillcol, b, r, lock, x);
      } else {
        BrokenLine(b, lock, i, x);
      }
    }
  }

  /** After the second pass no line it went over is too long. */
  lemma {:induction false} WrapShortens(widths: char -> nat, fillcol: int, b: seq<char>, lock: nat, i: nat, m: int,
                                        s: nat)
    requires lock <= s <= i <= |b| && m <= |b| && forall x :: s <= x < i ==> NotTooLong(widths, fillcol, b, lock, x)
    ensures var r := Wrap(widths, fillcol, b, lock, i, m);
      forall x :: s <= x < |r| - (|b| - m) && x <= |r| ==> NotTooLong(widths, fillcol, r, lock, x)
    decreases m - i
  {
    hide NotTooLong;
    hide BreakLine;
    hide ColumnAt;
    if i >= m {
    } else {
      BreakingShortens(widths, fillcol, b, lock, i, s);
      var b2 := if ColumnAt(widths, b, lock, i) >= fillcol then BreakLine(b, lock, i) else b;
      var grown := |b2| - |b|;
      WrapShortens(widths, fillcol, b2, lock, i + grown + 1, m + grown, s);
      assert Wrap(widths, fillcol, b, lock, i, m) == Wrap(widths, fillcol, b2, lock, i + grown + 1, m + grown);
    }
  }

  /** The first pass leaves one blank between a CJK character and what follows. */
  lemma BlankAfterCjkStays(isSpace: char -> bool)
    requires isSpace(' ') && !isSpace('\U{5B57}') && !isSpace('a')
    ensures Collapse(isSpace, "\U{5B57}  a", 0, 4, '\0', false).0 == "\U{5B57} a"
  {
    var b, once := "\U{5B57}  a", "\U{5B57} a";
    NothingCollapsesAtLetters(isSpace, b, 0, 4, false);
    assert Collapse(isSpace, b, 0, 4, '\0', false) == Collapse(isSpace, b, 1, 4, b[0], false);
    assert b[1 := ' '] == b && b[..2] + b[3..] == once;
    assert DropBlanks(isSpace, once, 2, 3) == (once, 3);
    assert DropBlanks(isSpace, b, 2, 4) == (once, 3);
    assert CollapseAt(isSpace, b, 1, 4, false) == (once, 2, 3);
    assert Collapse(isSpace, b, 1, 4, b[0], false) == Collapse(isSpace, once, 3, 3, ' ', false);
  }

  /** A line that can only be broken before its first character, a CJK character. */
  predicate StartsUnbreakable(b: seq<char>, lock: nat, s: nat, m: int)
  {
    lock <= s < m <= |b| && (s == lock || b[s - 1] == '\n') && CanBreakAfter(b[s]) && b[s] != ' ' && b[s] != '\n' &&
    forall k :: s < k < m ==> !CanBreakAfter(b[k]) && b[k] != '\n'
  }

  /** How many positions from i up to m are too far right. */
  function TooFar(widths: char -> nat, fillcol: int, b: seq<char>, lock: nat, i: nat, m: int): nat
    requires lock <= i && m <= |b|
    decreases m - i
  {
    if i >= m then 0
    else (if ColumnAt(widths, b, lock, i) >= fillcol then 1 else 0) + TooFar(widths, fillcol, b, lock, i + 1, m)
  }

  /** In such a line the second pass adds one newline for every position it passes that is
      too far right. */
  lemma {:induction false} OneNewlineEach(widths: char -> nat, fillcol: int, b: seq<char>, lock: nat, s: nat, i: nat,
                                          m: int)
    requires StartsUnbreakable(b, lock, s, m) && s < i <= m
    ensures |Wrap(widths, fillcol, b, lock, i, m)| == |b| + TooFar(widths, fillcol, b, lock, i, m)
    decreases m - i
  {
    hide ColumnAt;
    hide BreakLine;
    hide LastBreak;
    hide CanBreakAfter;
    if i == m {
    } else {
      LastBreakIs(b, lock, s, i);
      hide StartsUnbreakable;
      if ColumnAt(widths, b, lock, i) >= fillcol {
        var b2 := BreakLine(b, lock, i);
        PushedDown(b, lock, s, i, m);
        OneNewlineEach(widths, fillcol, b2, lock, s + 1, i + 2, m + 1);
        SameTooFar(widths, fillcol, b, b2, lock, s, i + 1, m);
      } else {
        OneNewlineEach(widths, fillcol, b, lock, s, i + 1, m);
      }
    }
  }

  lemma {:induction false} LastBreakIs(b: seq<char>, lock: nat, s: nat, i: nat)
    requires lock <= s < i <= |b| && CanBreakAfter(b[s]) && forall k ::
      s < k < i ==> !CanBreakAfter(b[k]) && b[k] != '\n'
    ensures LastBreak(b, lock, i) == s
    decreases i
  {
    hide CanBreakAfter;
    if s >= i - 1 {
    } else {
      LastBreakIs(b, lock, s, i - 1);
    }
  }

  /** The broken line is the same line, one position on, after a newline. */
  lemma PushedDown(b: seq<char>, lock: nat, s: nat, i: nat, m: int)
    requires StartsUnbreakable(b, lock, s, m) && s < i < m && LastBreak(b, lock, i) == s
    ensures var b2 := BreakLine(b, lock, i);
      |b2| == |b| + 1 && StartsUnbreakable(b2, lock, s + 1, m + 1) && forall k :: s <= k < |b| ==> b2[k + 1] == b[k]
  {
    hide CanBreakAfter;
    var b2 := BreakLine(b, lock, i);
    assert b2 == b[..s] + ['\n'] + b[s..];
    assert forall k :: s <= k < |b| ==> b2[k + 1] == b[k];
    assert b2[s + 1] == b[s] && b2[s] == '\n';
    forall k | s + 1 < k < m + 1 ensures !CanBreakAfter(b2[k]) && b2[k] != '\n' {
      assert b2[(k - 1) + 1] == b[k - 1];
    }
  }

  lemma {:induction false} SameTooFar(widths: char -> nat, fillcol: int, b: seq<char>, b2: seq<char>, lock: nat,
                                      s: nat, i: nat, m: int)
    requires StartsUnbreakable(b, lock, s, m) && StartsUnbreakable(b2, lock, s + 1, m + 1) && s < i <= m
    requires |b2| == |b| + 1 && forall k :: s <= k < |b| ==> b2[k + 1] == b[k]
    ensures TooFar(widths, fillcol, b, lock, i, m) == TooFar(widths, fillcol, b2, lock, i + 1, m + 1)
    decreases m - i
  {
    hide ColumnAt;
    hide CanBreakAfter;
    if i == m {
    } else {
      SameColumn(widths, b, b2, lock, s, i, m);
      SameTooFar(widths, fillcol, b, b2, lock, s, i + 1, m);
    }
  }

  lemma SameColumn(widths: char -> nat, b: seq<char>, b2: seq<char>, lock: nat, s: nat, i: nat, m: int)
    requires StartsUnbreakable(b, lock, s, m) && StartsUnbreakable(b2, lock, s + 1, m + 1) && s < i < m
    requires |b2| == |b| + 1 && forall k :: s <= k < |b| ==> b2[k + 1] == b[k]
    ensures ColumnAt(widths, b, lock, i) == ColumnAt(widths, b2, lock, i + 1)
  {
    hide CanBreakAfter;
    hide RegionEnd;
    LineStartUnique(b, lock, i, s);
    LineStartUnique(b2, lock, i + 1, s + 1);
    var x, y := b[s..i], b2[s + 1..i + 1];
    assert forall k :: 0 <= k < |x| ==> x[k] == y[k];
    assert x == y;
  }

  /** A CJK character before a word that is too long gets two newlines in front. */
  lemma CjkBeforeLongWord(widths: char -> nat)
    requires widths('\U{5B57}') == 2 && widths('a') == 1
    ensures |Wrap(widths, 2, "\U{5B57}ab", 0, 1, 3)| == 5
  {
    var b := "\U{5B57}ab";
    assert CanBreakAfter(b[0]) && !CanBreakAfter(b[1]) && !CanBreakAfter(b[2]);
    TwoTooFar(widths, b);
  }

  /** A CJK character of two columns and two letters: both letters are too far right. */
  lemma TwoTooFar(widths: char -> nat, b: seq<char>)
    requires |b| == 3 && StartsUnbreakable(b, 0, 0, 3) && b[0] != '\t' && b[1] != '\t'
    requires widths(b[0]) == 2 && widths(b[1]) == 1
    ensures |Wrap(widths, 2, b, 0, 1, 3)| == 5
  {
    OneNewlineEach(widths, 2, b, 0, 0, 1, 3);
    ColumnsAfterTwo(widths, b);
    hide ColumnAt;
    hide Wrap;
    assert TooFar(widths, 2, b, 0, 1, 3) == 1 + TooFar(widths, 2, b, 0, 2, 3) == 2;
  }

  lemma ColumnsAfterTwo(widths: char -> nat, b: seq<char>)
    requires |b| >= 2 && b[0] != '\n' && b[1] != '\n' && b[0] != '\t' && b[1] != '\t'
    requires widths(b[0]) == 2 && widths(b[1]) == 1
    ensures ColumnAt(widths, b, 0, 1) == 2 && ColumnAt(widths, b, 0, 2) == 3
  {
    LineStartUnique(b, 0, 1, 0);
    LineStartUnique(b, 0, 2, 0);
    assert b[0..1] == [b[0]] && b[0..2] == [b[0]] + [b[1]] && b[0..2][..1] == b[0..1] && b[0..1][..0] == [];
    assert RegionEnd(widths, b[0..1], 0) == 2;
  }
}

/** The edit window of editwin.c: point, mark, locked prefix, saved excursions, the cached
    display column, and the movement and kill commands. */
module EditWindow {
  import opened Strings
  import opened Lists
  import opened EditText

  /** `oe_excursion`: a saved point and mark, moved along by every edit. */
  class Excursion {
    var valid: bool
    var index: nat
    var mark: int
    const goal_column: int
    const lock: nat
    /** How many edits and clears there had been, and where point and mark were, when this
        was saved. */
    ghost const base: nat
    ghost const clears0: nat
    ghost const index0: int
    ghost const mark0: int

    constructor (index: nat, mark: int, goal_column: int, lock: nat, ghost base: nat, ghost clears: nat)
      ensures valid && this.index == index0 == index && this.mark == mark0 == mark
      ensures this.goal_column == goal_column && this.lock == lock && this.base == base && clears0 == clears
    {
      valid := true;
      this.index, this.mark, this.goal_column, this.lock := index, mark, goal_column, lock;
      this.base, clears0, index0, mark0 := base, clears, index, mark;
    }
  }

  /** What a Perl sub may do to the edit window; `Nested` is `save_excursion` around another. */
  datatype Action =
    | Insert(s: seq<char>)
    | Move(delta: int)
    | Top
    | Mark
    | DeleteAll
    | Nested(sub: seq<Action>)

  /** The action deletes everything, at whatever depth. */
  predicate Deletes(action: Action)
  {
    match action
    case DeleteAll => true
    case Nested(sub) => exists i :: 0 <= i < |sub| && Deletes(sub[i])
    case _ => false
  }

  predicate SomeDeletes(sub: seq<Action>)
  {
    exists i :: 0 <= i < |sub| && Deletes(sub[i])
  }

  lemma SomeDeletesMore(sub: seq<Action>, i: nat)
    requires i < |sub|
    ensures SomeDeletes(sub[..i + 1]) <==> SomeDeletes(sub[..i]) || Deletes(sub[i])
    ensures !SomeDeletes(sub[..0]) && (SomeDeletes(sub[..i + 1]) ==> SomeDeletes(sub))
  {
    assert forall k :: 0 <= k < i ==> sub[..i + 1][k] == sub[..i][k];
    if Deletes(sub[i]) { assert Deletes(sub[..i + 1][i]); }
    if SomeDeletes(sub[..i + 1]) {
      var k :| 0 <= k < i + 1 && Deletes(sub[..i + 1][k]);
      assert Deletes(sub[k]);
    }
  }

  const WHITESPACE := " \n\t"

  predicate AllIn(b: seq<char>, i: int, j: int, chars: string)
    requires 0 <= i && j <= |b|
  {
    forall k :: i <= k < j ==> b[k] in chars
  }

  predicate NoneIn(b: seq<char>, i: int, j: int, chars: string)
    requires 0 <= i && j <= |b|
  {
    forall k :: i <= k < j ==> b[k] !in chars
  }

  /** `owl_editwin`. The characters that are whitespace, and the widths of characters other
      than the tab, are those of the Unicode tables. */
  class Editwin {
    const isSpace: char -> bool
    const widths: char -> nat
    var buff: seq<char>
    var index: nat
    var mark: int
    var goal_column: int
    var column: int
    var lock: nat
    var fillcol: int
    var dotsend: bool
    var excursions: seq<Excursion>
    /** Where the display starts, or -1 to have that decided anew. */
    var topindex: int
    /** The kill buffer, shared by all edit windows. */
    var killed: Option<seq<char>>
    /** Every edit since the window was made or cleared, and the locked text. */
    ghost var log: seq<Edit>
    ghost var locked: seq<char>
    /** Every excursion ever saved, and how often the window has been cleared. */
    ghost var issued: set<Excursion>
    ghost var clears: nat

    // ----------------------------------------------------------------- the invariant

    /** Point and mark are inside the unlocked text, and the locked text is as it was. */
    ghost predicate Points()
      reads this`buff, this`index, this`mark, this`lock, this`locked
    {
      lock <= index <= |buff| && (mark == -1 || lock <= mark <= |buff|) && |locked| == lock && buff[..lock] == locked
    }

    ghost predicate Logged()
      reads this`buff, this`log
    {
      Legal(log) && buff == Text(log)
    }

    /** The cached column is that of the point, unless it is unknown. */
    ghost predicate ColumnKnown()
      reads this`buff, this`index, this`lock, this`column
    {
      lock <= index <= |buff| && column != -1 ==> column == RegionColumn(widths, buff[lock..index], 0)
    }

    /** x is where the edits since it was saved have moved it. */
    ghost predicate Saved(x: Excursion)
      reads x, this`buff, this`lock, this`log
    {
      SavedIn(x, |buff|)
    }

    /** The same, for a text of length n. */
    ghost predicate SavedIn(x: Excursion, n: nat)
      reads x, this`lock, this`log
    {
      x.valid && x.base <= |log| &&
      x.index == FixAll(x.index0, log, x.base) && x.mark == FixAll(x.mark0, log, x.base) &&
      lock <= x.index <= n && (x.mark == -1 || lock <= x.mark <= n)
    }

    ghost predicate Stored(xs: seq<Excursion>)
      reads this`buff, this`lock, this`log, xs
    {
      (forall i, j :: 0 <= i < j < |xs| ==> xs[i] != xs[j]) && forall i :: 0 <= i < |xs| ==> Saved(xs[i])
    }

    /** Of the excursions ever saved and not ended, exactly those are in the list that have
        been saved since the last clear. */
    ghost predicate Tracked()
      reads this`excursions, this`issued, this`clears, issued`valid
    {
      (forall i :: 0 <= i < |excursions| ==> excursions[i] in issued) &&
      forall x :: x in issued ==> x.clears0 <= clears && (x.valid ==> (x in excursions <==> x.clears0 == clears))
    }

    ghost predicate Sound()
      reads this`buff, this`index, this`mark, this`column, this`lock, this`locked, this`log
      reads this`excursions, excursions, this`issued, this`clears, issued`valid
    {
      Points() && Logged() && ColumnKnown() && Stored(excursions) && Tracked()
    }

    /** The lock is where it was when the excursions still open were saved. */
    ghost predicate Locks()
      reads this`lock, this`excursions
    {
      forall i :: 0 <= i < |excursions| ==> excursions[i].lock == lock
    }

    ghost predicate Valid()
      reads this`buff, this`index, this`mark, this`column, this`lock, this`locked, this`log
      reads this`excursions, excursions, this`issued, this`clears, issued`valid
    {
      Sound() && Locks()
    }

    lemma Inside()
      requires Valid()
      ensures lock <= index <= |buff| && (mark == -1 || lock <= mark <= |buff|)
    {
    }

    /** What every command keeps. */
    twostate predicate Held()
      reads this
    {
      excursions == old(excursions) && lock == old(lock) && locked == old(locked) &&
      old(issued) <= issued && clears == old(clears)
    }

    constructor (isSpace: char -> bool, widths: char -> nat, fillcol: int)
      ensures Valid() && buff == [] && index == 0 && mark == -1 && lock == 0 && excursions == [] && log == []
      ensures this.isSpace == isSpace && this.widths == widths && this.fillcol == fillcol && column == -1 && !dotsend
    {
      this.isSpace, this.widths, this.fillcol := isSpace, widths, fillcol;
      buff, index, mark, goal_column, column, lock := [], 0, -1, -1, -1, 0;
      dotsend, excursions, topindex, killed := false, [], 0, None;
      log, locked, issued, clears := [], [], {}, 0;
    }

    // -------------------------------------------------------------- points and columns

    /** `oe_set_index`. */
    method SetIndex(i: nat)
      modifies this`index, this`goal_column, this`column
      ensures index == i
      ensures if i == old(index) then goal_column == old(goal_column) && column == old(column)
        else goal_column == column == -1
      ensures old(Sound()) && lock <= i <= |buff| ==> Sound()
      ensures old(Valid()) && lock <= i <= |buff| ==> Valid()
    {
      if i != index {
        goal_column, column := -1, -1;
      }
      index := i;
    }

    /** `owl_editwin_set_mark`. */
    method SetMark()
      requires Valid()
      modifies this`mark
      ensures Valid() && mark == index
    {
      mark := index;
    }

    /** `owl_editwin_get_char_at_point`. */
    function CharAtPoint(): char
      reads this`buff, this`index
    {
      if index < |buff| then buff[index] else '\0'
    }

    /** `oe_region_column`. */
    method ColumnOf(start: nat, end: nat, offset: nat) returns (col: nat)
      requires start <= end <= |buff|
      ensures col == RegionColumn(widths, buff[start..end], offset)
    {
      col := offset;
      var p := start;
      while p < end
        invariant start <= p <= end && col == RegionColumn(widths, buff[start..p], offset)
      {
        assert buff[start..p + 1] == buff[start..p] + [buff[p]];
        if buff[p] == '\n' {
          col := 0;
        } else {
          col := col + CharWidth(widths, buff[p], col);
        }
        p := p + 1;
      }
    }

    /** `oe_region_width`. */
    method WidthOf(start: nat, end: nat, offset: nat) returns (width: nat)
      requires start <= end <= |buff|
      ensures width == RegionEnd(widths, buff[start..end], offset) - offset
    {
      var reached := offset;
      var p := start;
      while p < end
        invariant start <= p <= end && reached == RegionEnd(widths, buff[start..p], offset)
      {
        assert buff[start..p + 1] == buff[start..p] + [buff[p]];
        reached := reached + CharWidth(widths, buff[p], reached);
        p := p + 1;
      }
      width := reached - offset;
    }

    // --------------------------------------------------------------------- excursions

    /** `oe_save_excursion`. */
    method SaveExcursion() returns (x: Excursion)
      requires Valid()
      modifies this`excursions, this`issued
      ensures Valid() && fresh(x) && excursions == [x] + old(excursions)
      ensures x.valid && x.index == x.index0 == index && x.mark == x.mark0 == mark
      ensures x.goal_column == goal_column && x.base == |log| && x.clears0 == clears && issued == old(issued) + {x}
    {
      hide Logged;
      hide ColumnKnown;
      x := new Excursion(index, mark, goal_column, lock, |log|, clears);
      excursions := [x] + excursions;
      issued := issued + {x};
    }

    lemma IsSaved(x: Excursion)
      requires Valid() && x in excursions
      ensures Saved(x) && x.valid && x.lock == lock && x in issued && lock <= x.index <= |buff|
      ensures (x.mark == -1 || lock <= x.mark <= |buff|)
      ensures x.base <= |log| && x.index == FixAll(x.index0, log, x.base) && x.mark == FixAll(x.mark0, log, x.base)
    {
    }

    /** `oe_release_excursion`. It aborts if x is not in the list. */
    method ReleaseExcursion(x: Excursion) returns (aborted: bool)
      modifies x`valid, this`excursions
      ensures !x.valid && (aborted <==> x !in old(excursions)) && excursions == Without(old(excursions), x)
      ensures old(Valid()) ==> Valid() && x !in excursions
    {
      hide Points;
      hide Logged;
      hide ColumnKnown;
      hide Stored;
      hide Without;
      if x in excursions && Valid() { StoredWithout(excursions, x); }
      WithoutOthers(excursions, x);
      x.valid := false;
      aborted := Unlist(x);
      forall i | 0 <= i < |excursions| ensures excursions[i] in old(excursions) {
      }
    }

    /** The search through the list. */
    method Unlist(x: Excursion) returns (missing: bool)
      modifies this`excursions
      ensures (missing <==> x !in old(excursions)) && excursions == Without(old(excursions), x)
    {
      var i := 0;
      while i < |excursions|
        invariant 0 <= i <= |excursions| && x !in excursions[..i] && excursions == old(excursions)
      {
        if excursions[i] == x {
          WithoutAt(excursions, x, i);
          excursions := excursions[..i] + excursions[i + 1..];
          return false;
        }
        i := i + 1;
      }
      assert excursions[..i] == excursions;
      return true;
    }

    lemma StoredWithout(xs: seq<Excursion>, x: Excursion)
      requires Stored(xs) && x in xs
      ensures Stored(Without(xs, x)) && x !in Without(xs, x)
    {
      hide Saved;
      hide Without;
      var i :| 0 <= i < |xs| && xs[i] == x;
      WithoutAt(xs, x, i);
      var rest := xs[..i] + xs[i + 1..];
      forall j | 0 <= j < |rest| ensures Saved(rest[j]) && rest[j] == xs[if j < i then j else j + 1] {
      }
    }

    /** `oe_restore_excursion`. Ending an excursion aborts exactly if it has been forgotten;
        of those saved here, these are the ones open when the window was cleared. */
    method RestoreExcursion(x: Excursion) returns (aborted: bool)
      requires Valid()
      modifies x`valid, this`excursions, this`index, this`goal_column, this`column, this`mark, this`lock
      ensures aborted <==> old(x.valid) && x !in old(excursions)
      ensures x in issued ==> (aborted <==> old(x.valid) && x.clears0 < clears)
      ensures !aborted ==> Valid() && lock == old(lock) && lock <= index <= |buff|
      ensures old(x.valid) && !aborted ==> index == x.index && mark == x.mark && goal_column == x.goal_column
      ensures old(x.valid) && !aborted ==> excursions == Without(old(excursions), x) && x !in excursions && !x.valid
      ensures !old(x.valid) ==> excursions == old(excursions) && index == old(index) && mark == old(mark)
    {
      hide Valid;
      hide Without;
      Inside();
      aborted := false;
      if x.valid {
        if x in issued { ForgottenIffCleared(x); }
        Adopt(x);
        aborted := ReleaseExcursion(x);
      }
    }

    /** Point, mark and lock become those saved. */
    method Adopt(x: Excursion)
      requires Valid()
      modifies this`index, this`goal_column, this`column, this`mark, this`lock
      ensures index == x.index && mark == x.mark && goal_column == x.goal_column && lock == x.lock
      ensures x in excursions ==> Valid() && lock == old(lock) && lock <= index <= |buff|
    {
      hide Logged;
      hide Stored;
      hide Saved;
      hide Tracked;
      if x in excursions { IsSaved(x); }
      SetIndex(x.index);
      goal_column := x.goal_column;
      mark := x.mark;
      lock := x.lock;
    }

    /** `oe_restore_mark_only`. */
    method RestoreMarkOnly(x: Excursion) returns (aborted: bool)
      requires Valid()
      modifies x`valid, this`excursions, this`mark
      ensures aborted <==> old(x.valid) && x !in old(excursions)
      ensures !aborted ==> Valid()
      ensures old(x.valid) && !aborted ==>
        mark == x.mark && excursions == Without(old(excursions), x) && x !in excursions && !x.valid
      ensures !old(x.valid) ==> excursions == old(excursions) && mark == old(mark)
    {
      hide Saved;
      hide Without;
      aborted := false;
      if x.valid {
        if x in excursions { IsSaved(x); }
        mark := x.mark;
        aborted := ReleaseExcursion(x);
      }
    }

    /** Over any run: an excursion not yet ended is forgotten exactly if the window has
        been cleared since it was saved. */
    lemma ForgottenIffCleared(x: Excursion)
      requires Valid() && x in issued && x.valid
      ensures x !in excursions <==> x.clears0 < clears
    {
    }

    // ------------------------------------------------------------------------- editing

    /** `owl_editwin_replace_internal`: `replace` characters after the point become s, and
        mark and saved points are fixed up. */
    method ReplaceInternal(replace: nat, s: seq<char>) returns (change: int)
      requires Valid() && index + replace <= |buff|
      modifies this`buff, this`index, this`column, this`mark, this`log, this`topindex, excursions`index, excursions`mark
      ensures Valid() && lock <= index <= |buff|
      ensures log == old(log) + [Edit(old(index), old(index) + replace, s)]
      ensures buff == Apply(old(buff), Edit(old(index), old(index) + replace, s))
      ensures index == old(index) + |s| && mark == Fixup(old(mark), Edit(old(index), old(index) + replace, s))
      ensures topindex == Recentred(old(topindex), Edit(old(index), old(index) + replace, s))
      ensures change == |s| - replace && (column == -1 <==> old(column) == -1)
    {
      hide Apply;
      hide Fixup;
      hide Sound;
      hide Recentred;
      Perform(Edit(index, index + replace, s));
      change := |s| - replace;
    }

    /** An edit at the point. */
    method Perform(e: Edit)
      requires Sound() && e.start == index && Fits(buff, e)
      modifies this`buff, this`index, this`column, this`mark, this`log, this`topindex, excursions`index, excursions`mark
      ensures Sound() && lock <= index <= |buff|
      ensures log == old(log) + [e] && buff == Apply(old(buff), e) && index == e.start + |e.text|
      ensures mark == Fixup(old(mark), e) && topindex == Recentred(old(topindex), e)
      ensures column == -1 <==> old(column) == -1
      ensures forall x :: x in excursions ==> x.index == Fixup(old(x.index), e) && x.mark == Fixup(old(x.mark), e)
    {
      hide Recentred;
      hide Stored;
      hide Legal;
      hide Text;
      hide Apply;
      hide Fixup;
      hide Points;
      hide ColumnKnown;
      hide SavedIn;
      hide Tracked;
      ghost var was := |buff|;
      StoredParts();
      ChangeText(e);
      FixExcursions(e, was);
      FixTop(e);
    }

    lemma StoredParts()
      requires Stored(excursions)
      ensures forall i, j :: 0 <= i < j < |excursions| ==> excursions[i] != excursions[j]
      ensures forall i :: 0 <= i < |excursions| ==> SavedIn(excursions[i], |buff|)
    {
    }

    method FixTop(e: Edit)
      modifies this`topindex
      ensures topindex == Recentred(old(topindex), e)
    {
      topindex := Fixup(topindex, e);
      if e.start <= topindex {
        topindex := -1;
      }
    }

    /** The text, the point after what was put in, the mark, and the column. */
    method ChangeText(e: Edit)
      requires Points() && Logged() && ColumnKnown() && e.start == index && Fits(buff, e)
      modifies this`buff, this`index, this`mark, this`column
      ensures buff == Apply(old(buff), e) && Text(log + [e]) == buff && Legal(log + [e])
      ensures |buff| == |old(buff)| - (e.end - e.start) + |e.text|
      ensures index == e.start + |e.text| && mark == Fixup(old(mark), e)
      ensures Points() && lock <= e.start && lock <= index <= |buff|
      ensures ColumnKnown() && (column == -1 <==> old(column) == -1)
    {
      hide Legal;
      hide Text;
      hide RegionColumn;
      hide Fixup;
      TextMore(log, e);
      FixupInside(|buff|, e, mark, lock);
      buff := buff[..e.start] + e.text + buff[e.end..];
      index := index + |e.text|;
      assert buff[..lock] == old(buff)[..lock] && buff[lock..e.start] == old(buff)[lock..e.start];
      UpdateColumn(e.start);
      mark := Fixup(mark, e);
    }

    /** The column follows from the one before and the text put in. */
    method UpdateColumn(start: nat)
      requires lock <= start <= index <= |buff|
      requires column != -1 ==> column == RegionColumn(widths, buff[lock..start], 0)
      modifies this`column
      ensures ColumnKnown() && (column == -1 <==> old(column) == -1)
    {
      if column != -1 {
        assert buff[lock..index] == buff[lock..start] + buff[start..index];
        ColumnAppend(widths, buff[lock..start], buff[start..index], 0);
        column := ColumnOf(start, index, column);
      }
    }

    /** The loop over the saved points; n is the length of the text before the edit. */
    method FixExcursions(e: Edit, ghost n: nat)
      requires forall i, j :: 0 <= i < j < |excursions| ==> excursions[i] != excursions[j]
      requires forall i :: 0 <= i < |excursions| ==> SavedIn(excursions[i], n)
      requires lock <= e.start <= e.end <= n && |buff| == n - (e.end - e.start) + |e.text|
      modifies excursions`index, excursions`mark, this`log
      ensures log == old(log) + [e] && Stored(excursions)
      ensures forall x :: x in excursions ==> x.index == Fixup(old(x.index), e) && x.mark == Fixup(old(x.mark), e)
    {
      hide FixAll;
      hide Fixup;
      var i := 0;
      while i < |excursions|
        invariant 0 <= i <= |excursions| && log == old(log)
        invariant forall j :: 0 <= j < i ==> excursions[j].valid && Moved(excursions[j], e)
        invariant forall j :: 0 <= j < |excursions| ==>
          (var x := excursions[j];
           x.index == (if j < i then Fixup(old(x.index), e) else old(x.index)) &&
           x.mark == (if j < i then Fixup(old(x.mark), e) else old(x.mark)))
        invariant forall j :: i <= j < |excursions| ==> SavedIn(excursions[j], n)
      {
        FixExcursion(excursions[i], e, n);
        i := i + 1;
      }
      log := log + [e];
    }

    method FixExcursion(x: Excursion, e: Edit, ghost n: nat)
      requires SavedIn(x, n) && lock <= e.start <= e.end <= n && |buff| == n - (e.end - e.start) + |e.text|
      modifies x`index, x`mark
      ensures x.valid && Moved(x, e) && x.index == Fixup(old(x.index), e) && x.mark == Fixup(old(x.mark), e)
    {
      hide FixAll;
      hide Fixup;
      FixMore(x.index0, log, x.base, e);
      FixMore(x.mark0, log, x.base, e);
      FixupInside(n, e, x.index, lock);
      FixupInside(n, e, x.mark, lock);
      x.index := Fixup(x.index, e);
      x.mark := Fixup(x.mark, e);
    }

    /** x is where it belongs after one more edit. */
    ghost predicate Moved(x: Excursion, e: Edit)
      reads x, this`lock, this`log, this`buff
    {
      x.base <= |log| &&
      x.index == FixAll(x.index0, log + [e], x.base) && x.mark == FixAll(x.mark0, log + [e], x.base) &&
      lock <= x.index <= |buff| && (x.mark == -1 || lock <= x.mark <= |buff|)
    }

    /** `owl_editwin_replace`: fewer than `replace` characters may be left. */
    method Replace(replace: int, s: seq<char>) returns (change: int)
      requires Valid()
      modifies this`buff, this`index, this`column, this`mark, this`log, this`topindex, excursions`index, excursions`mark
      ensures Valid() && lock <= index <= |buff| && old(index) <= |old(buff)|
      ensures var e := Edit(old(index), Min(Max(old(index) + replace, old(index)), |old(buff)|), s);
        log == old(log) + [e] && buff == Apply(old(buff), e) && index == old(index) + |s| &&
        mark == Fixup(old(mark), e) && topindex == Recentred(old(topindex), e) && change == |s| - (e.end - e.start)
      ensures column == -1 <==> old(column) == -1
    {
      hide Valid;
      hide Apply;
      hide Fixup;
      hide Recentred;
      Inside();
      var start := index;
      var p, i := start, 0;
      while i < replace && p < |buff|
        invariant start <= p <= |buff| && p == start + i && (i <= replace || i == 0)
      {
        p := p + 1;
        i := i + 1;
      }
      change := ReplaceInternal(p - start, s);
    }

    /** `owl_editwin_insert_string`. */
    method InsertString(s: seq<char>)
      requires Valid()
      modifies this`buff, this`index, this`column, this`mark, this`log, this`topindex, excursions`index, excursions`mark
      ensures Valid() && log == old(log) + [Edit(old(index), old(index), s)]
      ensures buff == old(buff)[..old(index)] + s + old(buff)[old(index)..] && index == old(index) + |s|
      ensures mark == Fixup(old(mark), Edit(old(index), old(index), s))
    {
      var change := Replace(0, s);
    }

    /** `owl_editwin_delete_char`. */
    method DeleteChar()
      requires Valid()
      modifies this`buff, this`index, this`column, this`mark, this`log, this`topindex, excursions`index, excursions`mark
      ensures Valid() && index == old(index)
      ensures var e := Edit(index, Min(index + 1, |old(buff)|), []);
        log == old(log) + [e] && buff == Apply(old(buff), e) && mark == Fixup(old(mark), e)
    {
      var change := Replace(1, "");
    }

    // ------------------------------------------------------------------------ movement

    /** `owl_editwin_exchange_point_and_mark`. */
    method ExchangePointAndMark()
      requires Valid()
      modifies this`index, this`goal_column, this`column, this`mark
      ensures Valid()
      ensures if old(mark) == -1 then mark == -1 && index == old(index) else index == old(mark) && mark == old(index)
    {
      if mark != -1 {
        var tmp := mark;
        SetMark();
        SetIndex(tmp);
      }
    }

    /** `owl_editwin_point_move`. The point stops at the lock and at the end of the text. */
    method PointMove(delta: int) returns (moved: int)
      requires Valid()
      modifies this`index, this`goal_column, this`column
      ensures lock <= index <= |buff|
      ensures Valid() && moved == index - old(index)
      ensures index == if delta > 0 then Min(old(index) + delta, |buff|) else Max(old(index) + delta, lock)
      ensures moved == 0 ==> goal_column == old(goal_column) && column == old(column)
    {
      hide Logged;
      hide ColumnKnown;
      hide Stored;
      var change := Max(delta, -delta);
      var d := 0;
      var stuck := false;
      while d < change && !stuck
        invariant Valid() && 0 <= d <= change
        invariant index == if delta > 0 then old(index) + d else old(index) - d
        invariant stuck ==> index == if delta > 0 then |buff| else lock
        invariant d == 0 ==> goal_column == old(goal_column) && column == old(column)
        decreases change - d, !stuck
      {
        if delta > 0 && index < |buff| {
          SetIndex(index + 1);
          d := d + 1;
        } else if delta < 0 && index > lock {
          SetIndex(index - 1);
          d := d + 1;
        } else {
          stuck := true;
        }
      }
      moved := if delta > 0 then d else -d;
    }

    /** `owl_editwin_move_if_in`. */
    method MoveIfIn(delta: int, chars: string) returns (distance: int)
      requires Valid() && '\0' !in chars
      modifies this`index, this`goal_column, this`column
      ensures lock <= index <= |buff| && lock <= old(index) <= |buff|
      ensures index == Glide(buff, lock, old(index), delta, chars, true)
      ensures Valid() && distance == index - old(index)
      ensures delta == 1 ==> index >= old(index) && AllIn(buff, old(index), index, chars) && CharAtPoint() !in chars
      ensures delta == -1 ==>
        index <= old(index) &&
        (index < old(index) ==> old(index) < |buff| && AllIn(buff, index + 1, old(index) + 1, chars))
      ensures delta == -1 ==> index == lock || CharAtPoint() !in chars
      ensures distance == 0 ==> goal_column == old(goal_column) && column == old(column)
    {
      hide Valid;
      hide Glide;
      Inside();
      distance := 0;
      while CharAtPoint() in chars
        invariant Valid() && distance == index - old(index) && lock <= index <= |buff|
        invariant Glide(buff, lock, index, delta, chars, true) == Glide(buff, lock, old(index), delta, chars, true)
        invariant delta >= 0 ==> index >= old(index)
        invariant delta <= 0 ==> index <= old(index)
        invariant delta == 1 ==> AllIn(buff, old(index), index, chars)
        invariant delta == -1 && index < old(index) ==>
          old(index) < |buff| && AllIn(buff, index + 1, old(index) + 1, chars)
        invariant distance == 0 ==> goal_column == old(goal_column) && column == old(column)
        decreases if delta > 0 then |buff| - index else index
      {
        GlideStep(buff, lock, index, delta, chars, true);
        var change := PointMove(delta);
        distance := distance + change;
        if change == 0 { break; }
      }
      GlideStep(buff, lock, index, delta, chars, true);
    }

    /** `owl_editwin_move_if_not_in`. */
    method MoveIfNotIn(delta: int, chars: string) returns (distance: int)
      requires Valid() && '\0' !in chars
      modifies this`index, this`goal_column, this`column
      ensures lock <= index <= |buff| && lock <= old(index) <= |buff|
      ensures index == Glide(buff, lock, old(index), delta, chars, false)
      ensures Valid() && distance == index - old(index)
      ensures delta == 1 ==>
        index >= old(index) && NoneIn(buff, old(index), index, chars) && (index == |buff| || buff[index] in chars)
      ensures delta == -1 ==> index <= old(index) && NoneIn(buff, index + 1, Min(old(index) + 1, |buff|), chars)
      ensures delta == -1 ==> index == lock || CharAtPoint() in chars
      ensures delta == -1 && index < old(index) && old(index) < |buff| ==> buff[old(index)] !in chars
      ensures distance == 0 ==> goal_column == old(goal_column) && column == old(column)
    {
      hide Valid;
      hide Glide;
      Inside();
      distance := 0;
      while CharAtPoint() !in chars
        invariant Valid() && distance == index - old(index) && lock <= index <= |buff|
        invariant Glide(buff, lock, index, delta, chars, false) == Glide(buff, lock, old(index), delta, chars, false)
        invariant delta >= 0 ==> index >= old(index)
        invariant delta <= 0 ==> index <= old(index)
        invariant delta == 1 ==> NoneIn(buff, old(index), index, chars)
        invariant delta == -1 ==> NoneIn(buff, index + 1, Min(old(index) + 1, |buff|), chars)
        invariant delta == -1 && index < old(index) && old(index) < |buff| ==> buff[old(index)] !in chars
        invariant distance == 0 ==> goal_column == old(goal_column) && column == old(column)
        decreases if delta > 0 then |buff| - index else index
      {
        GlideStep(buff, lock, index, delta, chars, false);
        var change := PointMove(delta);
        distance := distance + change;
        if change == 0 { break; }
      }
      GlideStep(buff, lock, index, delta, chars, false);
    }

    // --------------------------------------------------------------------------- lines

    /** `owl_editwin_at_beginning_of_line`. */
    method AtBeginningOfLine() returns (b: bool)
      requires Valid()
      modifies this`index, this`goal_column, this`column, this`mark, this`lock, this`excursions, this`issued
      ensures lock <= index <= |buff|
      ensures Valid() && Held() && index == old(index) && mark == old(mark) && goal_column == old(goal_column)
      ensures b <==> index == lock || buff[index - 1] == '\n'
    {
      hide Without;
      hide Logged;
      hide ColumnKnown;
      hide Stored;
      if index == lock { return true; }
      var x := SaveExcursion();
      WithoutFirst(x, old(excursions));
      var moved := PointMove(-1);
      b := CharAtPoint() == '\n';
      var _ := RestoreExcursion(x);
    }

    /** `owl_editwin_move_to_beginning_of_line`. */
    method MoveToBeginningOfLine() returns (distance: int)
      requires Valid()
      modifies this`index, this`goal_column, this`column, this`mark, this`lock, this`excursions, this`issued
      ensures lock <= index <= |buff|
      ensures Valid() && Held() && mark == old(mark) && goal_column == 0
      ensures index == LineStart(buff, lock, old(index)) && distance == index - old(index)
    {
      hide Glide;
      hide Valid;
      Inside();
      distance := 0;
      var at := AtBeginningOfLine();
      if !at {
        distance := PointMove(-1);
        var further := MoveIfNotIn(-1, "\n");
        distance := distance + further;
        if CharAtPoint() == '\n' {
          further := PointMove(1);
          distance := distance + further;
        }
      }
      LineStartUnique(buff, lock, old(index), index);
      goal_column := 0;
    }

    /** `owl_editwin_move_to_end_of_line`. */
    method MoveToEndOfLine() returns (distance: int)
      requires Valid()
      modifies this`index, this`goal_column, this`column
      ensures lock <= index <= |buff|
      ensures Valid() && index == LineEnd(buff, old(index)) && distance == index - old(index)
    {
      hide Logged;
      hide ColumnKnown;
      hide Stored;
      distance := MoveIfNotIn(1, "\n");
      LineEndUnique(buff, old(index), index);
    }

    /** `owl_editwin_line_move`: to the goal column of the line so many lines away, or to
        that line's end. */
    method LineMove(delta: int) returns (distance: int)
      requires Valid()
      modifies this`index, this`goal_column, this`column, this`mark, this`lock, this`excursions, this`issued
      ensures lock <= index <= |buff|
      ensures Valid() && Held() && mark == old(mark) && distance == index - old(index)
      ensures var start := LineStart(buff, lock, old(index));
        goal_column == (if old(goal_column) == -1 then old(index) - start else old(goal_column)) &&
        index == InLine(buff, lock, start, delta, goal_column) &&
        (goal_column >= 0 ==> IsLinesAway(buff, lock, start, delta, goal_column, index))
    {
      hide Glide;
      hide Valid;
      Inside();
      hide LineStart;
      hide InLine;
      hide LineEnd;
      hide IsLinesAway;
      var goal := goal_column;
      distance := MoveToBeginningOfLine();
      goal := if goal == -1 then -distance else goal;
      var further := ToLine(delta, goal);
      distance := distance + further;
      goal_column := goal;
      if goal >= 0 { InLineCounts(buff, lock, LineStart(buff, lock, old(index)), delta, goal); }
    }

    /** From the start of a line to the goal column of the line so many lines away. */
    method ToLine(delta: int, goal: int) returns (distance: int)
      requires Valid()
      modifies this`index, this`goal_column, this`column, this`mark, this`lock, this`excursions, this`issued
      ensures lock <= index <= |buff| && lock <= old(index) <= |buff|
      ensures Valid() && Held() && mark == old(mark) && distance == index - old(index)
      ensures index == InLine(buff, lock, old(index), delta, goal)
    {
      hide Glide;
      hide Valid;
      hide LineEnd;
      hide LinesDown;
      hide LinesUp;
      hide Max;
      Inside();
      distance := MoveLines(delta);
      var along := ToColumn(goal);
      distance := distance + along;
    }

    /** From the start of a line to the goal column, or to the line's end. */
    method ToColumn(goal: int) returns (distance: int)
      requires Valid()
      modifies this`index, this`goal_column, this`column
      ensures Valid() && distance == index - old(index) && lock <= index <= |buff|
      ensures index == var end := LineEnd(buff, old(index));
        if end - old(index) > goal then Max(old(index) + goal, lock) else end
    {
      hide Valid;
      hide LineEnd;
      Inside();
      distance := MoveToEndOfLine();
      if distance > goal {
        var back := PointMove(goal - distance);
        distance := distance + back;
      }
    }

    /** The loop over the lines moved. */
    method MoveLines(delta: int) returns (distance: int)
      requires Valid()
      modifies this`index, this`goal_column, this`column, this`mark, this`lock, this`excursions, this`issued
      ensures Valid() && Held() && mark == old(mark) && distance == index - old(index) && lock <= index <= |buff|
      ensures lock <= old(index) <= |buff|
      ensures index == if delta > 0 then LinesDown(buff, old(index), delta) else LinesUp(buff, lock, old(index), -delta)
    {
      hide Glide;
      hide Valid;
      hide LineStart;
      hide LineEnd;
      hide NoneIn;
      hide LinesDown;
      hide LinesUp;
      Inside();
      distance := 0;
      var count, change := 0, Max(delta, -delta);
      while count < change
        invariant Valid() && Held() && mark == old(mark) && distance == index - old(index)
        invariant 0 <= count <= change && lock <= index <= |buff|
        invariant delta > 0 ==> LinesDown(buff, old(index), change) == LinesDown(buff, index, change - count)
        invariant delta <= 0 ==> LinesUp(buff, lock, old(index), change) == LinesUp(buff, lock, index, change - count)
      {
        LineAtATime(buff, lock, index, change - count);
        var d := OneLine(delta > 0);
        distance := distance + d;
        count := count + 1;
      }
      LineAtATime(buff, lock, index, 0);
    }

    /** One line down or up. */
    method OneLine(down: bool) returns (distance: int)
      requires Valid()
      modifies this`index, this`goal_column, this`column, this`mark, this`lock, this`excursions, this`issued
      ensures Valid() && Held() && mark == old(mark) && distance == index - old(index)
      ensures lock <= index <= |buff| && lock <= old(index) <= |buff|
      ensures index == if down then Min(LineEnd(buff, old(index)) + 1, |buff|)
                       else LineStart(buff, lock, Max(old(index) - 1, lock))
    {
      hide Valid;
      hide Glide;
      hide LineStart;
      hide LineEnd;
      Inside();
      if down {
        distance := MoveIfNotIn(1, "\n");
        LineEndUnique(buff, old(index), index);
        var further := PointMove(1);
        distance := distance + further;
      } else {
        distance := PointMove(-1);
        var further := MoveToBeginningOfLine();
        distance := distance + further;
      }
    }

    /** `owl_editwin_backspace`. */
    method Backspace()
      requires Valid()
      modifies this`buff, this`index, this`goal_column, this`column, this`mark, this`log, this`topindex,
               excursions`index, excursions`mark
      ensures Valid()
      ensures if old(index) == lock then buff == old(buff) && index == old(index) && mark == old(mark)
              else buff == old(buff)[..old(index) - 1] + old(buff)[old(index)..] && index == old(index) - 1 &&
                   mark == Fixup(old(mark), Edit(index, index + 1, []))
    {
      hide Logged;
      hide ColumnKnown;
      hide Stored;
      var moved := PointMove(-1);
      if moved != 0 {
        DeleteChar();
      }
    }

    /** `owl_editwin_transpose_chars`. */
    method TransposeChars()
      requires Valid()
      modifies this`buff, this`index, this`goal_column, this`column, this`mark, this`log, this`topindex,
               excursions`index, excursions`mark
      ensures Valid()
      ensures var i := if old(index) == |old(buff)| && old(index) > lock then old(index) - 1 else old(index);
        if i == lock then buff == old(buff) && index == i && mark == old(mark)
        else buff == old(buff)[i - 1 := old(buff)[i]][i := old(buff)[i - 1]] && index == i + 1 &&
             mark == if old(mark) == i then i + 1 else old(mark)
    {
      hide Logged;
      hide ColumnKnown;
      hide Stored;
      if |buff| == 0 { return; }
      if index == |buff| {
        var moved := PointMove(-1);
      }
      if index == lock { return; }
      var middle := index;
      var tmp := [buff[middle], buff[middle - 1]];
      var moved := PointMove(-1);
      var change := Replace(2, tmp);
    }

    // --------------------------------------------------------------------------- words

    /** `owl_editwin_forward_word`. */
    method ForwardWord() returns (distance: int)
      requires Valid()
      modifies this`index, this`goal_column, this`column
      ensures lock <= index <= |buff| && old(index) <= |buff|
      ensures Valid() && distance == index - old(index) && index == WordEnd(buff, old(index))
    {
      hide Glide;
      hide Valid;
      hide SkipIn;
      hide SkipOut;
      Inside();
      distance := MoveIfIn(1, WHITESPACE);
      SkipInIs(buff, old(index), WHITESPACE, index);
      ghost var m := index;
      var further := MoveIfNotIn(1, WHITESPACE);
      SkipOutIs(buff, m, WHITESPACE, index);
      distance := distance + further;
    }

    /** `owl_editwin_backward_word`: back to the last start of a word, except that a word
        right after a single blank at the lock is passed over, unless it has one letter and
        is followed by a blank. */
    method BackwardWord() returns (distance: int)
      requires Valid()
      modifies this`index, this`goal_column, this`column, this`mark, this`lock, this`excursions, this`issued
      ensures lock <= index <= |buff|
      ensures Valid() && Held() && mark == old(mark) && distance == index - old(index)
      ensures index == if PassesOver(buff, lock, old(index)) then lock else PrevWord(buff, lock, old(index))
      decreases index, 1
    {
      hide Glide;
      hide Valid;
      hide PassesOver;
      hide PrevWord;
      hide AllIn;
      hide WHITESPACE;
      NoBlankAtEnd();
      Inside();
      if CharAtPoint() in WHITESPACE {
        ghost var i := index;
        distance := MoveIfIn(-1, WHITESPACE);
        BlanksHoldNoWord(buff, lock, index, i);
        var beginning := PrecededByBlank();
        if !beginning {
          var d := BackOverWord(i);
          distance := distance + d;
        }
      } else {
        distance := BackFromWord();
      }
    }

    /** Starting in a word, at its beginning, or at the end of the text. */
    method BackFromWord() returns (distance: int)
      requires Valid() && CharAtPoint() !in WHITESPACE
      modifies this`index, this`goal_column, this`column, this`mark, this`lock, this`excursions, this`issued
      ensures lock <= index <= |buff|
      ensures Valid() && Held() && mark == old(mark) && distance == index - old(index)
      ensures index == if PassesOver(buff, lock, old(index)) then lock else PrevWord(buff, lock, old(index))
      decreases index, 0
    {
      hide Valid;
      hide Without;
      hide PassesOver;
      hide PrevWord;
      hide WHITESPACE;
      Inside();
      ghost var i := index;
      var x := SaveExcursion();
      WithoutFirst(x, old(excursions));
      var further := PointMove(-1);
      if CharAtPoint() in WHITESPACE {
        BlankBefore(buff, lock, i);
        distance := BackwardWord();
        var _ := ReleaseExcursion(x);
        distance := distance + further;
      } else {
        var _ := RestoreExcursion(x);
        distance := BackOverWord(i);
      }
    }

    /** Is the character before the point, or at the lock, a blank? */
    method PrecededByBlank() returns (b: bool)
      requires Valid()
      modifies this`index, this`goal_column, this`column, this`mark, this`lock, this`excursions, this`issued
      ensures Valid() && Held() && mark == old(mark) && index == old(index)
      ensures b <==> Max(index - 1, lock) < |buff| && buff[Max(index - 1, lock)] in WHITESPACE
    {
      hide Without;
      hide Valid;
      Inside();
      var x := SaveExcursion();
      WithoutFirst(x, old(excursions));
      var moved := PointMove(-1);
      b := CharAtPoint() in WHITESPACE;
      var _ := RestoreExcursion(x);
    }

    /** Back over the letters of a word, and on to its first. */
    method BackOverWord(ghost i: nat) returns (distance: int)
      requires Valid() && index <= i <= |buff| && CharAtPoint() !in WHITESPACE
      requires index > lock ==> buff[index - 1] !in WHITESPACE
      requires index < i ==> i < |buff| && AllIn(buff, index + 1, i + 1, WHITESPACE)
      modifies this`index, this`goal_column, this`column
      ensures Valid() && distance == index - old(index) && lock <= index <= |buff|
      ensures index == if PassesOver(buff, lock, i) then lock else PrevWord(buff, lock, i)
    {
      hide Glide;
      hide Valid;
      hide PassesOver;
      hide PrevWord;
      Inside();
      distance := MoveIfNotIn(-1, WHITESPACE);
      StartOfWord(buff, lock, index, old(index), i);
      if index > lock {
        var d := PointMove(1);
        distance := distance + d;
      }
    }

    // -------------------------------------------------------------------- kill and yank

    /** `oe_copy_region`. */
    method CopyRegion() returns (n: int)
      requires Valid()
      modifies this`killed
      ensures n == if mark == -1 then 0 else Max(index, mark) - Min(index, mark)
      ensures killed == if mark == -1 then old(killed) else Some(buff[Min(index, mark)..Max(index, mark)])
    {
      if mark == -1 { return 0; }
      var start, end := Min(index, mark), Max(index, mark);
      killed := Some(buff[start..end]);
      n := end - start;
    }

    /** `owl_editwin_kill_region`. */
    method KillRegion()
      requires Valid()
      modifies this`buff, this`index, this`goal_column, this`column, this`mark, this`log, this`topindex, this`killed,
               excursions`index, excursions`mark
      ensures lock <= index <= |buff|
      ensures Valid()
      ensures var (start, end) := Region(old(index), old(mark));
        log == old(log) + [Edit(start, end, [])] && buff == old(buff)[..start] + old(buff)[end..] && index == start &&
        mark == (if old(mark) == -1 then -1 else start) &&
        killed == (if old(mark) == -1 then old(killed) else Some(old(buff)[start..end]))
    {
      hide Logged;
      hide ColumnKnown;
      hide Stored;
      if index > mark {
        ExchangePointAndMark();
      }
      var n := CopyRegion();
      var change := ReplaceInternal(n, "");
    }

    /** `owl_editwin_yank`. */
    method Yank()
      requires Valid()
      modifies this`buff, this`index, this`column, this`mark, this`log, this`topindex, excursions`index, excursions`mark
      ensures Valid()
      ensures var s := if killed.Some? then killed.value else [];
        buff == old(buff)[..old(index)] + s + old(buff)[old(index)..] && index == old(index) + |s| &&
        mark == Fixup(old(mark), Edit(old(index), old(index), s))
    {
      hide Logged;
      hide ColumnKnown;
      hide Stored;
      if killed.Some? {
        var change := Replace(0, killed.value);
      }
    }

    /** `owl_editwin_replace_region`. */
    method ReplaceRegion(s: seq<char>) returns (change: int)
      requires Valid()
      modifies this`buff, this`index, this`goal_column, this`column, this`mark, this`lock, this`log, this`topindex,
               this`excursions, this`issued, excursions`index, excursions`mark
      ensures Valid() && Held()
      ensures old(mark) == -1 ==>
        change == 0 && log == old(log) && buff == old(buff) && index == old(index) && mark == -1
      ensures old(mark) != -1 ==>
        var (start, end) := Region(old(index), old(mark));
        var e := Edit(start, end, s);
        log == old(log) + [e] && buff == Apply(old(buff), e) && change == |s| - (end - start) &&
        index == Fixup(old(index), e) && mark == Fixup(old(mark), e)
    {
      hide FixAll;
      hide Fixup;
      hide Apply;
      hide Saved;
      hide Without;
      hide Valid;
      Inside();
      if mark == -1 { return 0; }
      var x := SaveExcursion();
      WithoutFirst(x, old(excursions));
      if index > mark {
        ExchangePointAndMark();
      }
      change := ReplaceInternal(mark - index, s);
      OneEdit(x.index0, old(log), log);
      OneEdit(x.mark0, old(log), log);
      IsSaved(x);
      var _ := RestoreExcursion(x);
    }

    /** `owl_editwin_delete_nextword`. */
    method DeleteNextWord()
      requires Valid()
      modifies this`buff, this`index, this`goal_column, this`column, this`mark, this`lock, this`log, this`topindex,
               this`killed, this`excursions, this`issued, excursions`index, excursions`mark
      ensures Valid() && Held() && index == old(index) && index <= |old(buff)|
      ensures var end := WordEnd(old(buff), index);
        log == old(log) + [Edit(index, end, [])] && mark == Fixup(old(mark), Edit(index, end, [])) &&
        buff == old(buff)[..index] + old(buff)[end..] && killed == Some(old(buff)[index..end])
    {
      hide Without;
      hide Valid;
      hide WordEnd;
      Inside();
      var x := SaveExcursion();
      WithoutFirst(x, old(excursions));
      SetMark();
      var distance := ForwardWord();
      KillRegion();
      OneEdit(x.mark0, old(log), log);
      IsSaved(x);
      var _ := RestoreMarkOnly(x);
    }

    /** `owl_editwin_delete_previousword`. */
    method DeletePreviousWord()
      requires Valid()
      modifies this`buff, this`index, this`goal_column, this`column, this`mark, this`lock, this`log, this`topindex,
               this`killed, this`excursions, this`issued, excursions`index, excursions`mark
      ensures Valid() && Held()
      ensures index == if PassesOver(old(buff), lock, old(index)) then lock else PrevWord(old(buff), lock, old(index))
      ensures index <= old(index) && log == old(log) + [Edit(index, old(index), [])]
      ensures mark == Fixup(old(mark), Edit(index, old(index), [])) && old(index) <= |old(buff)|
      ensures buff == old(buff)[..index] + old(buff)[old(index)..] && killed == Some(old(buff)[index..old(index)])
    {
      hide Without;
      hide Valid;
      Inside();
      var x := SaveExcursion();
      WithoutFirst(x, old(excursions));
      SetMark();
      var distance := BackwardWord();
      KillRegion();
      OneEdit(x.mark0, old(log), log);
      IsSaved(x);
      var _ := RestoreMarkOnly(x);
    }

    /** The region, if there is one, or else the character at the point. */
    method CutLine(distance: int)
      requires Valid() && 0 <= mark && distance == index - mark >= 0
      modifies this`buff, this`index, this`goal_column, this`column, this`mark, this`log, this`topindex, this`killed
      modifies excursions`index, excursions`mark
      ensures Valid() && old(index) <= |old(buff)|
      ensures var e := Edit(old(mark), if distance > 0 then old(index) else Min(old(index) + 1, |old(buff)|), []);
        log == old(log) + [e] && buff == Apply(old(buff), e) &&
        killed == if distance > 0 then Some(old(buff)[old(mark)..old(index)]) else old(killed)
    {
      hide Valid;
      hide Fixup;
      hide Recentred;
      Inside();
      if distance != 0 {
        KillRegion();
      } else {
        var change := Replace(1, "");
      }
    }

    /** `owl_editwin_delete_to_endofline`. */
    method DeleteToEndOfLine()
      requires Valid()
      modifies this`buff, this`index, this`goal_column, this`column, this`mark, this`lock, this`log, this`topindex,
               this`killed, this`excursions, this`issued, excursions`index, excursions`mark
      ensures Valid() && Held() && index == old(index)
      ensures var end := LineEnd(old(buff), index);
        var e := Edit(index, if end > index then end else Min(index + 1, |old(buff)|), []);
        log == old(log) + [e] && mark == Fixup(old(mark), e) && buff == Apply(old(buff), e) &&
        killed == if end > index then Some(old(buff)[index..end]) else old(killed)
    {
      hide FixAll;
      hide Fixup;
      hide LineEnd;
      hide Without;
      hide Valid;
      Inside();
      var x := SaveExcursion();
      WithoutFirst(x, old(excursions));
      SetMark();
      var distance := MoveToEndOfLine();
      CutLine(distance);
      StaysAtStart(log[|old(log)|]);
      OneEdit(x.index0, old(log), log);
      OneEdit(x.mark0, old(log), log);
      IsSaved(x);
      var _ := RestoreExcursion(x);
    }

    // ------------------------------------------------------------------- whole buffer

    /** `owl_editwin_move_to_end`. */
    method MoveToEnd()
      requires Valid()
      modifies this`index, this`goal_column, this`column
      ensures Valid() && index == |buff|
    {
      SetIndex(|buff|);
    }

    /** `owl_editwin_move_to_top`. */
    method MoveToTop()
      requires Valid()
      modifies this`index, this`goal_column, this`column
      ensures Valid() && index == lock
    {
      SetIndex(lock);
    }

    /** `owl_editwin_current_column`. */
    method CurrentColumn() returns (col: int)
      requires Valid()
      modifies this`index, this`goal_column, this`column, this`mark, this`lock, this`excursions, this`issued
      ensures Valid() && Held() && index == old(index) && mark == old(mark) && goal_column == old(goal_column)
      ensures lock <= index <= |buff| && col == column == ColumnAt(widths, buff, lock, index)
    {
      hide Valid;
      hide RegionEnd;
      hide LineStart;
      hide Without;
      Inside();
      CachedColumn();
      if column == -1 {
        var x := SaveExcursion();
        WithoutFirst(x, old(excursions));
        var moved := MoveToBeginningOfLine();
        var lineindex := index;
        var _ := RestoreExcursion(x);
        var width := WidthOf(lineindex, index, 0);
        StoreColumn(width);
      }
      col := column;
    }

    lemma CachedColumn()
      requires Valid()
      ensures lock <= index <= |buff| && (column != -1 ==> column == ColumnAt(widths, buff, lock, index))
    {
      hide ColumnAt;
      hide RegionColumn;
      ColumnIsLineWidth(widths, buff, lock, index);
      ColumnAtMeans(widths, buff, lock, index);
    }

    method StoreColumn(width: nat)
      requires Valid() && lock <= index <= |buff| && width == ColumnAt(widths, buff, lock, index)
      modifies this`column
      ensures Valid() && column == width
    {
      hide ColumnAt;
      hide RegionColumn;
      hide Logged;
      hide Stored;
      hide Tracked;
      ColumnIsLineWidth(widths, buff, lock, index);
      ColumnAtMeans(widths, buff, lock, index);
      column := width;
    }

    /** `owl_editwin_set_locktext`: everything is replaced by locked text. A mark left at
        the very beginning ends up before the lock, a column known at the very beginning
        ends up counting the locked text, and an excursion still open has points at the
        very beginning or another lock; in all other cases all is well. */
    method SetLocktext(text: seq<char>)
      requires Valid()
      modifies this`buff, this`index, this`goal_column, this`column, this`mark, this`lock, this`locked, this`log,
               this`topindex
      modifies excursions`index, excursions`mark
      ensures buff == locked == text && index == lock == |text|
      ensures mark == if old(mark) <= 0 then old(mark) else |text|
      ensures column == -1 <==> old(index) != 0 || old(column) == -1
      ensures Valid() <==>
        !(old(mark) == 0 && text != []) &&
        !(old(index) == 0 && old(column) != -1 && RegionColumn(widths, text, 0) != 0) &&
        forall x :: x in excursions ==> old(lock) == |text| && (text == [] || (old(x.index) > 0 && old(x.mark) != 0))
    {
      hide Sound;
      hide Locks;
      hide RegionColumn;
      hide Recentred;
      LocksAre();
      Unlock();
      SoundInside();
      Perform(Edit(0, |buff|, text));
      assert buff == text;
      Lock();
    }

    lemma LocksAre()
      requires Valid()
      ensures forall x :: x in excursions ==>
        x.lock == lock && x.index <= |buff| && (x.mark == -1 || 0 <= x.mark <= |buff|)
    {
    }

    lemma SoundInside()
      requires Sound()
      ensures lock <= index <= |buff| && (mark == -1 || lock <= mark <= |buff|)
    {
    }

    /** To the beginning of the text, with nothing locked. */
    method Unlock()
      requires Sound()
      modifies this`index, this`goal_column, this`column, this`lock, this`locked
      ensures Sound() && index == lock == 0
      ensures column == if old(index) == 0 then old(column) else -1
    {
      hide Logged;
      hide RegionColumn;
      hide FixAll;
      hide Tracked;
      SetIndex(0);
      lock := 0;
      locked := [];
      assert buff[0..0] == old(buff[lock..lock]);
    }

    /** All the text, which the point is at the end of, is locked. */
    method Lock()
      requires Sound() && lock == 0 && index == |buff| && (mark <= 0 || mark == |buff|)
      modifies this`index, this`goal_column, this`column, this`lock, this`locked
      ensures locked == buff && index == lock == |buff| && column == old(column)
      ensures Valid() <==>
        (mark == 0 ==> buff == []) && (column != -1 ==> RegionColumn(widths, buff, 0) == 0) &&
        forall x :: x in excursions ==> x.lock == |buff| && |buff| <= x.index && (x.mark == -1 || |buff| <= x.mark)
    {
      hide Logged;
      hide RegionColumn;
      hide FixAll;
      hide Tracked;
      NoColumn(widths);
      assert buff[0..|buff|] == buff;
      lock := |buff|;
      locked := buff;
      SetIndex(lock);
      assert buff[lock..index] == [];
    }

    /** `owl_editwin_clear`: everything but the locked text goes. An excursion still open is
        forgotten. */
    method Clear()
      requires Valid()
      modifies this
      ensures Valid() && buff == locked == old(buff)[..old(lock)] && index == lock == old(lock) && mark == -1
      ensures excursions == [] && dotsend == old(dotsend) && fillcol == old(fillcol) && killed == old(killed)
      ensures clears == old(clears) + 1 && issued == old(issued)
      ensures forall x :: x in old(excursions) ==> x.valid && x !in excursions
    {
      hide RegionColumn;
      hide FixAll;
      hide Valid;
      Inside();
      LockedText();
      AllOpen();
      var locktext := buff[..lock];
      Reset();
      Relock(locktext);
    }

    /** The locked text is put back. */
    method Relock(locktext: seq<char>)
      requires Valid() && buff == locked == [] && index == lock == 0 && mark == column == -1 && excursions == []
      modifies this`buff, this`index, this`goal_column, this`column, this`mark, this`lock, this`locked, this`log,
               this`topindex
      ensures Valid() && buff == locked == locktext && index == lock == |locktext| && mark == -1
    {
      hide Valid;
      hide RegionColumn;
      if locktext != [] {
        SetLocktext(locktext);
      }
      SetIndex(|locktext|);
    }

    lemma AllOpen()
      requires Valid()
      ensures forall x :: x in excursions ==> x.valid
    {
      forall x | x in excursions ensures x.valid {
        IsSaved(x);
      }
    }

    /** Perl's `save_excursion` around a sub. If the sub deletes everything, itself or in a
        nested sub, the excursion, though still open, is forgotten, and ending it aborts. */
    method SaveExcursionAround(sub: seq<Action>) returns (aborted: bool)
      requires Valid()
      modifies this, excursions`index, excursions`mark
      ensures aborted <==> SomeDeletes(sub)
      ensures !aborted ==> Valid() && excursions == old(excursions) && clears == old(clears)
      ensures !aborted ==> forall x :: x in old(issued) ==> x in issued && x.valid == old(x.valid)
      decreases sub
    {
      hide Valid;
      hide Without;
      hide SomeDeletes;
      var x := SaveExcursion();
      WithoutFirst(x, old(excursions));
      aborted := RunSub(sub, x);
      if !aborted {
        aborted := RestoreExcursion(x);
      }
    }

    /** The sub, up to its end or to an abort in a nested one. */
    method RunSub(sub: seq<Action>, x: Excursion) returns (aborted: bool)
      requires Valid() && x in issued && x.valid && x.clears0 == clears
      modifies this, excursions`index, excursions`mark
      ensures aborted ==> SomeDeletes(sub)
      ensures !aborted ==> Valid() && x in issued && x.valid && (x.clears0 < clears <==> SomeDeletes(sub))
      ensures !aborted && !SomeDeletes(sub) ==> excursions == old(excursions) && clears == old(clears)
      ensures !aborted ==> forall y :: y in old(issued) ==> y in issued && y.valid == old(y.valid)
      decreases sub, 0
    {
      hide Valid;
      hide SomeDeletes;
      aborted := false;
      var i := 0;
      NoneDeletes();
      assert sub[..0] == [];
      while i < |sub|
        invariant 0 <= i <= |sub| && Valid() && x in issued && x.valid && x.clears0 <= clears
        invariant x.clears0 < clears <==> SomeDeletes(sub[..i])
        invariant !SomeDeletes(sub[..i]) ==> excursions == old(excursions) && clears == old(clears)
        invariant forall y :: y in old(issued) ==> y in issued && y.valid == old(y.valid)
        invariant excursions == old(excursions) || excursions == []
      {
        SomeDeletesMore(sub, i);
        aborted := Act(sub[i]);
        if aborted { return; }
        i := i + 1;
      }
      assert sub[..i] == sub;
    }

    lemma NoneDeletes()
      ensures !SomeDeletes([])
    {
    }

    /** One thing the sub does. */
    method Act(action: Action) returns (aborted: bool)
      requires Valid()
      modifies this, excursions`index, excursions`mark
      ensures aborted ==> Deletes(action)
      ensures !aborted ==> Valid() && clears == old(clears) + if Deletes(action) then 1 else 0
      ensures !aborted ==> excursions == if Deletes(action) then [] else old(excursions)
      ensures !aborted ==> forall y :: y in old(issued) ==> y in issued && y.valid == old(y.valid)
      decreases action
    {
      hide Valid;
      aborted := false;
      match action
      case Insert(s) => InsertString(s);
      case Move(delta) => var moved := PointMove(delta);
      case Top => MoveToTop();
      case Mark => SetMark();
      case DeleteAll => Clear();
      case Nested(sub) => aborted := SaveExcursionAround(sub);
    }

    lemma LockedText()
      requires Valid()
      ensures |locked| == lock <= |buff| && buff[..lock] == locked
    {
    }

    /** `_owl_editwin_init`. */
    method Reset()
      requires Valid()
      modifies this`buff, this`index, this`mark, this`goal_column, this`column, this`excursions, this`lock
      modifies this`topindex, this`log, this`locked, this`clears
      ensures clears == old(clears) + 1
      ensures Valid() && buff == locked == [] && index == lock == 0 && mark == column == -1 && excursions == []
    {
      ClearedBefore();
      hide Valid;
      buff, index, mark, goal_column, column, excursions, lock := [], 0, -1, -1, -1, [], 0;
      log, locked, topindex, clears := [], [], 0, clears + 1;
      EmptyIsValid();
    }

    lemma ClearedBefore()
      requires Valid()
      ensures forall x :: x in issued ==> x.clears0 <= clears
    {
    }

    lemma EmptyIsValid()
      requires buff == locked == [] && index == lock == 0 && mark == column == -1 && excursions == [] && log == []
      requires forall x :: x in issued ==> x.clears0 < clears
      ensures Valid()
    {
    }

    // --------------------------------------------------------------- ending with a dot

    /** `owl_editwin_is_at_end`: is there only whitespace from the point on? */
    method IsAtEnd() returns (b: bool)
      requires Valid()
      ensures b <==> forall k :: index <= k < |buff| ==> isSpace(buff[k])
    {
      var p := index;
      while p < |buff|
        invariant index <= p <= |buff| && forall k :: index <= k < p ==> isSpace(buff[k])
      {
        if !isSpace(buff[p]) { return false; }
        p := p + 1;
      }
      return true;
    }

    /** `owl_editwin_check_dotsend`: a line with a single dot, just before the point at the
        end of the text, is removed. */
    method CheckDotsend() returns (zdot: bool)
      requires Valid()
      modifies this`buff, this`index, this`goal_column, this`column, this`mark, this`lock, this`log, this`topindex,
               this`excursions, this`issued, excursions`index, excursions`mark
      ensures Valid() && Held()
      ensures zdot <==> (dotsend && (forall k :: old(index) <= k < |old(buff)| ==> isSpace(old(buff)[k])) &&
        DotLine(old(buff), lock, old(index)) != -1)
      ensures if zdot then Truncated(old(buff), old(index), old(mark), DotLine(old(buff), lock, old(index)))
              else log == old(log) && buff == old(buff) && index == old(index) && mark == old(mark)
    {
      zdot := false;
      if !dotsend { return; }
      var atEnd := IsAtEnd();
      if !atEnd { return; }
      hide DotLine;
      hide Valid;
      zdot := RemoveDot();
    }

    /** The text ends at j; point and mark have been moved along. */
    ghost predicate Truncated(before: seq<char>, index0: int, mark0: int, j: int)
      reads this`buff, this`index, this`mark
    {
      0 <= j <= |before| && buff == before[..j] &&
      index == Fixup(index0, Edit(j, |before|, [])) && mark == Fixup(mark0, Edit(j, |before|, []))
    }

    method RemoveDot() returns (zdot: bool)
      requires Valid()
      modifies this`buff, this`index, this`goal_column, this`column, this`mark, this`lock, this`log, this`topindex,
               this`excursions, this`issued, excursions`index, excursions`mark
      ensures Valid() && Held() && (zdot <==> DotLine(old(buff), lock, old(index)) != -1)
      ensures zdot ==> 0 <= DotLine(old(buff), lock, old(index)) <= |old(buff)|
      ensures zdot ==> Truncated(old(buff), old(index), old(mark), DotLine(old(buff), lock, old(index)))
      ensures !zdot ==> log == old(log) && buff == old(buff) && index == old(index) && mark == old(mark)
    {
      hide FixAll;
      hide Fixup;
      hide DotLine;
      hide Valid;
      hide Without;
      Inside();
      var x := SaveExcursion();
      WithoutFirst(x, old(excursions));
      zdot := FindDot();
      if zdot {
        CutOff();
        OneEdit(x.index0, old(log), log);
        OneEdit(x.mark0, old(log), log);
      }
      IsSaved(x);
      var _ := RestoreExcursion(x);
    }

    /** To the line with the single dot, if it is there. */
    method FindDot() returns (zdot: bool)
      requires Valid()
      modifies this`index, this`goal_column, this`column
      ensures Valid() && (zdot <==> DotLine(buff, lock, old(index)) != -1)
      ensures zdot ==> index == DotLine(buff, lock, old(index))
    {
      hide Valid;
      Inside();
      zdot := false;
      var moved := PointMove(-3);
      if StartsAt(buff, index, "\n.\n") {
        moved := PointMove(1);
        zdot := true;
      } else if index == lock && StartsAt(buff, index, ".\n") {
        zdot := true;
      }
    }

    /** Everything from the point on goes. */
    method CutOff()
      requires Valid()
      modifies this`buff, this`index, this`goal_column, this`column, this`mark, this`lock, this`log, this`topindex,
               this`excursions, this`issued, excursions`index, excursions`mark
      ensures Valid() && Held() && old(index) <= |old(buff)| && buff == old(buff)[..old(index)]
      ensures log == old(log) + [Edit(old(index), |old(buff)|, [])]
    {
      hide Valid;
      hide FixAll;
      hide Fixup;
      Inside();
      SetMark();
      MoveToEnd();
      var change := ReplaceRegion("");
    }

    // ------------------------------------------------------------------ paragraph fill

    /** `owl_editwin_backward_paragraph`. */
    method BackwardParagraph()
      requires Valid()
      modifies this`index, this`goal_column, this`column
      ensures Valid() && lock <= index <= |buff|
      ensures lock <= old(index) && index == ParagraphStart(buff, lock, Max(old(index) - 1, lock))
    {
      hide Logged;
      hide ColumnKnown;
      hide Stored;
      var moved := PointMove(-1);
      while index > lock && !(buff[index] == '\n' && buff[index - 1] == '\n')
        invariant Valid() && lock <= index <= |buff| && (index == |buff| ==> index == lock)
        invariant ParagraphStart(buff, lock, Max(old(index) - 1, lock)) == ParagraphStart(buff, lock, index)
        decreases index
      {
        moved := PointMove(-1);
      }
    }

    /** `owl_editwin_forward_paragraph`. */
    method ForwardParagraph()
      requires Valid()
      modifies this`index, this`goal_column, this`column
      ensures Valid() && lock <= index <= |buff|
      ensures index == ParagraphEnd(buff, Min(old(index) + 1, |buff|))
    {
      hide Logged;
      hide ColumnKnown;
      hide Stored;
      var moved := PointMove(1);
      while index < |buff| && !(buff[index - 1] == '\n' && buff[index] == '\n')
        invariant Valid() && lock <= index <= |buff| && (index == 0 ==> |buff| == 0)
        invariant ParagraphEnd(buff, Min(old(index) + 1, |buff|)) == ParagraphEnd(buff, index)
        decreases |buff| - index
      {
        moved := PointMove(1);
      }
    }

    /** `_owl_editwin_linewrap_word`: a newline before the last breakable character of the
        line, or in place of it if it is a blank. */
    method LinewrapWord()
      requires Valid()
      modifies this`buff, this`index, this`goal_column, this`column, this`mark, this`lock, this`log, this`topindex,
               this`excursions, this`issued, excursions`index, excursions`mark
      ensures Valid() && Held() && lock <= index <= |buff|
      ensures lock <= old(index) <= |old(buff)|
      ensures var j := LastBreak(old(buff), lock, old(index));
        if j == -1 || old(buff)[j] == '\n' then log == old(log) && buff == old(buff) && index == old(index) &&
          mark == old(mark)
        else
          var e := Edit(j, if old(buff)[j] == ' ' then j + 1 else j, "\n");
          log == old(log) + [e] && buff == Apply(old(buff), e) && index == Fixup(old(index), e) &&
          mark == Fixup(old(mark), e)
    {
      hide Valid;
      hide Without;
      hide FixAll;
      hide Fixup;
      hide Apply;
      hide LastBreak;
      hide CanBreakAfter;
      Inside();
      var x := SaveExcursion();
      WithoutFirst(x, old(excursions));
      var found := MoveToBreak();
      if found {
        var c := CharAtPoint();
        if c != '\n' {
          var change := Replace(if c != ' ' then 0 else 1, "\n");
          OneEdit(x.index0, old(log), log);
          OneEdit(x.mark0, old(log), log);
        }
      }
      IsSaved(x);
      var _ := RestoreExcursion(x);
    }

    /** The loop back to a character the line can be broken at, or to a newline. */
    method MoveToBreak() returns (found: bool)
      requires Valid()
      modifies this`index, this`goal_column, this`column
      ensures Valid() && lock <= old(index) <= |buff| && lock <= index <= |buff|
      ensures found <==> LastBreak(buff, lock, old(index)) != -1
      ensures found ==> index == LastBreak(buff, lock, old(index)) && index < |buff|
    {
      hide Valid;
      hide LastBreak;
      hide CanBreakAfter;
      Inside();
      NoBreak(buff, lock);
      var moved := PointMove(-1);
      while moved != 0
        invariant Valid() && lock <= index <= |buff|
        invariant moved != 0 ==> index < |buff| && LastBreak(buff, lock, old(index)) == LastBreak(buff, lock, index + 1)
        invariant moved == 0 ==> LastBreak(buff, lock, old(index)) == -1
        decreases index, moved != 0
      {
        BreakAt(buff, lock, index);
        var c := CharAtPoint();
        if CanBreakAfter(c) || c == '\n' { return true; }
        moved := PointMove(-1);
      }
      return false;
    }

    /** So far, filling has only changed whitespace of `orig` between k and q; the mark is
        not past what used to be at q. */
    ghost predicate Filling(orig: seq<char>, k: nat, q: nat)
      reads this`buff, this`mark, this`lock
    {
      OnlyRespaced(isSpace, orig, buff, k, q) && Fence(orig, lock, k) && 0 <= mark <= |buff| - (|orig| - q)
    }

    lemma OnlyFilling(orig: seq<char>, k: nat, q: nat)
      requires Filling(orig, k, q)
      ensures OnlyRespaced(isSpace, orig, buff, k, q)
    {
    }

    /** A replacement of whitespace by whitespace between point and mark. */
    method Respace(replace: nat, s: seq<char>, ghost orig: seq<char>, ghost k: nat, ghost q: nat)
      requires Valid() && Filling(orig, k, q) && k <= index <= mark - replace && mark <= |buff|
      requires (forall i :: index <= i < index + replace ==> isSpace(buff[i])) && forall i ::
        0 <= i < |s| ==> isSpace(s[i])
      modifies this`buff, this`index, this`column, this`mark, this`log, this`topindex, excursions`index, excursions`mark
      ensures Valid() && Filling(orig, k, q) && old(log) <= log
      ensures old(index) + replace <= |old(buff)| && buff == Apply(old(buff), Edit(old(index), old(index) + replace, s))
      ensures index == old(index) + |s| && |buff| == |old(buff)| + |s| - replace && index <= |buff|
      ensures mark == if replace == 0 && old(mark) == old(index) then old(mark) else old(mark) + |s| - replace
    {
      hide Valid;
      hide OnlyRespaced;
      hide NonSpace;
      Inside();
      RespacedFurther(isSpace, orig, buff, k, q, Edit(index, index + replace, s));
      var change := Replace(replace, s);
    }

    /** `owl_editwin_fill_paragraph`: the paragraph's whitespace changes and nothing else. */
    method FillParagraph()
      requires Valid() && isSpace(' ') && isSpace('\n')
      modifies this`buff, this`index, this`goal_column, this`column, this`mark, this`lock, this`log, this`topindex,
               this`excursions, this`issued, excursions`index, excursions`mark
      ensures Valid() && Held() && old(log) <= log
      ensures index == FixAll(old(index), log, |old(log)|) && mark == FixAll(old(mark), log, |old(log)|)
      ensures lock <= old(index) <= |old(buff)|
      ensures buff == if fillcol < 0 then old(buff) else Filled(isSpace, widths, fillcol, old(buff), lock, old(index))
      ensures var (p, q) := Paragraph(old(buff), lock, old(index));
        OnlyRespaced(isSpace, old(buff), buff, p, q)
    {
      hide Valid;
      hide Without;
      hide FixAll;
      hide Filling;
      hide OnlyRespaced;
      hide Collapse;
      hide Wrap;
      hide Paragraph;
      hide Filled;
      Inside();
      NothingRespaced(isSpace, buff, lock, index);
      NoEdit(index, log);
      NoEdit(mark, log);
      if fillcol < 0 { return; }
      var x := SaveExcursion();
      WithoutFirst(x, old(excursions));
      Refill();
      IsSaved(x);
      var _ := RestoreExcursion(x);
    }

    /** The two passes over the paragraph. */
    method Refill()
      requires Valid() && isSpace(' ') && isSpace('\n')
      modifies this`buff, this`index, this`goal_column, this`column, this`mark, this`lock, this`log, this`topindex,
               this`excursions, this`issued, excursions`index, excursions`mark
      ensures Valid() && Held() && old(log) <= log
      ensures lock <= old(index) <= |old(buff)|
      ensures buff == Filled(isSpace, widths, fillcol, old(buff), lock, old(index))
      ensures var (p, q) := Paragraph(old(buff), lock, old(index)); OnlyRespaced(isSpace, old(buff), buff, p, q)
    {
      hide Valid;
      hide Filling;
      hide OnlyRespaced;
      hide Collapse;
      hide Wrap;
      hide Paragraph;
      hide TextStart;
      ghost var k := ToParagraph();
      ghost var q := mark;
      FirstPass(old(buff), k, q);
      SecondPass(old(buff), k, q);
      OnlyFilling(old(buff), k, q);
      RespacedIn(isSpace, old(buff), buff, k, Paragraph(old(buff), lock, old(index)).0, q);
    }

    /** Point and mark around the paragraph; k is where it starts. */
    method ToParagraph() returns (ghost k: nat)
      requires Valid()
      modifies this`index, this`goal_column, this`column, this`mark
      ensures Valid() && lock <= old(index) <= |buff| && lock <= index <= |buff|
      ensures var (p, q) := Paragraph(buff, lock, old(index));
        mark == q && (k == p || k == p + 1) && index == TextStart(buff, p)
      ensures Filling(buff, k, mark) && k <= index
    {
      hide Valid;
      hide Filling;
      hide ParagraphStart;
      hide ParagraphEnd;
      Inside();
      ForwardParagraph();
      var moved := PointMove(-1);
      SetMark();
      BackwardParagraph();
      Inside();
      k := if index > lock then index + 1 else lock;
      StartFilling(k);
      if CharAtPoint() == '\n' {
        moved := PointMove(1);
      }
    }

    lemma StartFilling(k: nat)
      requires lock <= index <= |buff| && 0 <= mark <= |buff|
      requires if index > lock then EmptyLine(buff, index) && k == index + 1 else k == lock
      ensures Filling(buff, k, mark)
    {
    }

    /** The first pass: whitespace from a blank or newline on becomes one blank, after a
        sentence followed by the second whitespace character as it is. */
    method FirstPass(ghost orig: seq<char>, ghost k: nat, ghost q: nat)
      requires Valid() && Filling(orig, k, q) && k <= index && isSpace(' ')
      modifies this`buff, this`index, this`goal_column, this`column, this`mark, this`log, this`topindex,
               excursions`index, excursions`mark
      ensures Valid() && Filling(orig, k, q) && k <= index <= |buff| && old(log) <= log
      ensures old(index) <= |old(buff)| && old(mark) <= |old(buff)|
      ensures (buff, index, mark) == Collapse(isSpace, old(buff), old(index), old(mark), '\0', false)
    {
      hide Valid;
      hide OnlyRespaced;
      hide NonSpace;
      hide CanBreakAfter;
      hide CollapseAt;
      hide Collapse;
      hide EndsSentence;
      Inside();
      ghost var goal := Collapse(isSpace, buff, index, mark, '\0', false);
      var sentence := false;
      var ch := '\0';
      while index < mark
        invariant Valid() && Filling(orig, k, q) && k <= index <= |buff| && mark <= |buff| && old(log) <= log
        invariant goal == Collapse(isSpace, buff, index, mark, ch, sentence)
        decreases mark - index
      {
        CollapseStep(isSpace, buff, index, mark, ch, sentence);
        if buff[index..] == "\n." {
          SetMark();
          break;
        }
        var last := ch;
        ch := CharAtPoint();
        if CanBreakAfter(ch) || ch == '\n' {
          CollapseBlanks(ch, sentence, orig, k, q);
        }
        sentence := EndsSentence(last, ch);
        Inside();
        var moved := PointMove(1);
      }
      CollapseStep(isSpace, buff, index, mark, ch, sentence);
    }

    /** What the first pass does at a place where a line can be broken. */
    method CollapseBlanks(ch: char, sentence: bool, ghost orig: seq<char>, ghost k: nat, ghost q: nat)
      requires Valid() && Filling(orig, k, q) && k <= index < mark <= |buff| && ch == buff[index] && isSpace(' ')
      modifies this`buff, this`index, this`goal_column, this`column, this`mark, this`log, this`topindex,
               excursions`index, excursions`mark
      ensures Valid() && Filling(orig, k, q) && k <= index <= mark <= |buff| && old(log) <= log
      ensures mark - index <= old(mark - index) && old(index) < old(mark) <= |old(buff)|
      ensures (buff, index, mark) == CollapseAt(isSpace, old(buff), old(index), old(mark), sentence)
    {
      hide Valid;
      hide OnlyRespaced;
      hide NonSpace;
      hide DropBlanks;
      Inside();
      if isSpace(ch) {
        Respace(1, " ", orig, k, q);
        assert buff == old(buff)[old(index) := ' '];
      }
      if sentence && isSpace(CharAtPoint()) && index < mark {
        var moved := PointMove(1);
      }
      DeleteBlanks(orig, k, q);
    }

    lemma FillingMark(orig: seq<char>, k: nat, q: nat)
      requires Filling(orig, k, q)
      ensures 0 <= mark <= |buff|
    {
    }

    /** Whitespace from the point up to the mark is deleted. */
    method DeleteBlanks(ghost orig: seq<char>, ghost k: nat, ghost q: nat)
      requires Valid() && Filling(orig, k, q) && k <= index <= mark <= |buff|
      modifies this`buff, this`index, this`goal_column, this`column, this`mark, this`log, this`topindex,
               excursions`index, excursions`mark
      ensures Valid() && Filling(orig, k, q) && k <= index <= mark <= |buff| && old(log) <= log
      ensures index == old(index) <= |old(buff)| && old(mark) <= |old(buff)| && mark <= old(mark)
      ensures (buff, mark) == DropBlanks(isSpace, old(buff), index, old(mark))
    {
      hide Valid;
      hide OnlyRespaced;
      hide NonSpace;
      hide Filling;
      hide Apply;
      hide DropBlanks;
      FillingMark(orig, k, q);
      Inside();
      while isSpace(CharAtPoint()) && index < mark
        invariant Valid() && Filling(orig, k, q) && k <= index <= mark <= |buff| && old(log) <= log
        invariant index == old(index) && mark <= old(mark)
        invariant DropBlanks(isSpace, buff, index, mark) == DropBlanks(isSpace, old(buff), index, old(mark))
        decreases mark
      {
        DropOne(isSpace, buff, index, mark);
        Respace(1, "", orig, k, q);
      }
      DropNone(isSpace, buff, index, mark);
    }

    /** The second pass: lines that are too long are broken. */
    method SecondPass(ghost orig: seq<char>, ghost k: nat, ghost q: nat)
      requires Valid() && Filling(orig, k, q) && k <= index && isSpace(' ') && isSpace('\n')
      modifies this`buff, this`index, this`goal_column, this`column, this`mark, this`lock, this`log, this`topindex,
               this`excursions, this`issued, excursions`index, excursions`mark
      ensures Valid() && Held() && Filling(orig, k, q) && old(log) <= log
      ensures lock <= old(index) <= |old(buff)| && old(mark) <= |old(buff)|
      ensures var start := ParagraphStart(old(buff), lock, Max(old(index) - 1, lock));
        buff == Wrap(widths, fillcol, old(buff), lock, start, old(mark))
    {
      hide ParagraphStart;
      hide Valid;
      hide OnlyRespaced;
      hide Wrap;
      Inside();
      StartsAfterFence(isSpace, orig, buff, k, q, lock, index);
      BackwardParagraph();
      WrapLines(orig, k, q);
    }

    /** The loop that breaks lines. */
    method WrapLines(ghost orig: seq<char>, ghost k: nat, ghost q: nat)
      requires Valid() && Filling(orig, k, q) && k <= index + 1 && isSpace(' ') && isSpace('\n')
      modifies this`buff, this`index, this`goal_column, this`column, this`mark, this`lock, this`log, this`topindex,
               this`excursions, this`issued, excursions`index, excursions`mark
      ensures Valid() && Held() && Filling(orig, k, q) && old(log) <= log
      ensures lock <= old(index) <= |old(buff)| && old(mark) <= |old(buff)|
      ensures buff == Wrap(widths, fillcol, old(buff), lock, old(index), old(mark))
    {
      hide Valid;
      hide Filling;
      hide ColumnAt;
      hide BreakLine;
      hide Wrap;
      Inside();
      FillingMark(orig, k, q);
      ghost var goal := Wrap(widths, fillcol, buff, lock, index, mark);
      while index < mark
        invariant Valid() && Held() && Filling(orig, k, q) && lock <= index <= |buff| && k <= index + 1
        invariant old(log) <= log
        invariant mark <= |buff| && goal == Wrap(widths, fillcol, buff, lock, index, mark)
        decreases mark - index
      {
        WrapStep(widths, fillcol, buff, lock, index, mark);
        WrapIfLong(orig, k, q);
        FillingMark(orig, k, q);
        var moved := PointMove(1);
      }
      WrapStep(widths, fillcol, buff, lock, index, mark);
    }

    method WrapIfLong(ghost orig: seq<char>, ghost k: nat, ghost q: nat)
      requires Valid() && Filling(orig, k, q) && k <= index + 1 && index < mark && isSpace(' ') && isSpace('\n')
      modifies this`buff, this`index, this`goal_column, this`column, this`mark, this`lock, this`log, this`topindex,
               this`excursions, this`issued, excursions`index, excursions`mark
      ensures Valid() && Held() && Filling(orig, k, q) && old(log) <= log
      ensures lock <= old(index) <= |old(buff)| && lock <= index < mark && index < |buff|
      ensures buff ==
        if ColumnAt(widths, old(buff), lock, old(index)) >= fillcol then BreakLine(old(buff), lock, old(index))
        else old(buff)
      ensures index == old(index) + (|buff| - |old(buff)|) && mark == old(mark) + (|buff| - |old(buff)|)
    {
      hide Valid;
      hide Filling;
      hide ColumnAt;
      hide BreakLine;
      Inside();
      FillingMark(orig, k, q);
      var col := CurrentColumn();
      if col >= fillcol {
        BreakThere(orig, k, q);
      }
    }

    /** The line of the point is broken, if it can be. */
    method BreakThere(ghost orig: seq<char>, ghost k: nat, ghost q: nat)
      requires Valid() && Filling(orig, k, q) && k <= index + 1 && index < mark && isSpace(' ') && isSpace('\n')
      modifies this`buff, this`index, this`goal_column, this`column, this`mark, this`lock, this`log, this`topindex,
               this`excursions, this`issued, excursions`index, excursions`mark
      ensures Valid() && Held() && Filling(orig, k, q) && old(log) <= log
      ensures lock <= old(index) <= |old(buff)| && lock <= index < mark && index < |buff|
      ensures buff == BreakLine(old(buff), lock, old(index))
      ensures index == old(index) + (|buff| - |old(buff)|) && mark == old(mark) + (|buff| - |old(buff)|)
    {
      hide Valid;
      hide OnlyRespaced;
      hide NonSpace;
      hide CanBreakAfter;
      Inside();
      BreaksAfterFence(isSpace, orig, buff, k, q, lock, index);
      hide Fixup;
      ghost var j := LastBreak(buff, lock, index);
      if j != -1 && buff[j] != '\n' {
        ghost var e := Edit(j, if buff[j] == ' ' then j + 1 else j, "\n");
        ShiftedBy(index, e);
        ShiftedBy(mark, e);
      }
      LinewrapWord();
    }
  }

  /** k is the lock, or right after an empty line. */
  predicate Fence(b: seq<char>, lock: nat, k: nat)
  {
    k == lock || (lock + 2 <= k <= |b| && b[k - 1] == '\n' && b[k - 2] == '\n')
  }

  /** Where the paragraph of position i starts and ends. */
  function Paragraph(b: seq<char>, lock: nat, i: nat): (r: (nat, nat))
    requires lock <= i <= |b|
    ensures lock <= r.0 <= r.1 <= |b|
  {
    var q := Max(ParagraphEnd(b, Min(i + 1, |b|)) - 1, lock);
    (ParagraphStart(b, lock, Max(q - 1, lock)), q)
  }

  lemma DropOne(isSpace: char -> bool, b: seq<char>, i: nat, m: int)
    requires i < m <= |b| && isSpace(b[i])
    ensures DropBlanks(isSpace, b, i, m) == DropBlanks(isSpace, Apply(b, Edit(i, i + 1, [])), i, m - 1)
  {
    assert Apply(b, Edit(i, i + 1, [])) == b[..i] + b[i + 1..];
  }

  lemma DropNone(isSpace: char -> bool, b: seq<char>, i: nat, m: int)
    requires i <= |b| && m <= |b| && !(i < m && isSpace(b[i]))
    ensures DropBlanks(isSpace, b, i, m) == (b, m)
  {
  }

  lemma ShiftedBy(t: int, e: Edit)
    requires e.start < t && e.end <= t
    ensures Fixup(t, e) == t + |e.text| - (e.end - e.start)
  {
  }

  lemma CollapseStep(isSpace: char -> bool, b: seq<char>, i: nat, m: int, before: char, sentence: bool)
    requires i <= |b| && m <= |b|
    ensures Collapse(isSpace, b, i, m, before, sentence) ==
      (if i >= m then (b, i, m)
       else if b[i..] == "\n." then (b, i, i)
       else
         var (b2, i2, m2) := if CanBreakAfter(b[i]) || b[i] == '\n' then CollapseAt(isSpace, b, i, m, sentence)
           else (b, i, m);
         Collapse(isSpace, b2, Min(i2 + 1, |b2|), m2, b[i], EndsSentence(before, b[i])))
    ensures i < m && b[i..] == "\n." ==> Collapse(isSpace, b, i, i, before, sentence) == (b, i, i)
  {
  }

  lemma WrapStep(widths: char -> nat, fillcol: int, b: seq<char>, lock: nat, i: nat, m: int)
    requires lock <= i <= |b| && m <= |b|
    ensures Wrap(widths, fillcol, b, lock, i, m) ==
      (if i >= m then b else
       var b2 := if ColumnAt(widths, b, lock, i) >= fillcol then BreakLine(b, lock, i) else b;
       Wrap(widths, fillcol, b2, lock, i + (|b2| - |b|) + 1, m + (|b2| - |b|)))
  {
  }

  /** The paragraph of a position is around it, has no empty line inside, and lies between two
      empty lines, the lock, or the end. */
  lemma ParagraphIsAround(b: seq<char>, lock: nat, i: nat)
    requires lock <= i <= |b|
    ensures var (p, q) := Paragraph(b, lock, i);
      p <= i && i <= q + 1 && (p == lock || EmptyLine(b, p)) &&
      (q + 1 == |b| || q == |b| == lock || EmptyLine(b, q + 1)) &&
      forall k :: p < k < q ==> !EmptyLine(b, k)
  {
  }

  /** Where the text of a paragraph starts: an empty line is left alone. */
  function TextStart(b: seq<char>, p: nat): nat
  {
    if p < |b| && b[p] == '\n' then p + 1 else p
  }

  /** The text after filling the paragraph of position i. */
  function Filled(isSpace: char -> bool, widths: char -> nat, fillcol: int, b: seq<char>, lock: nat, i: nat): seq<char>
    requires lock <= i <= |b|
  {
    var (p, q) := Paragraph(b, lock, i);
    var (b1, i1, m1) := Collapse(isSpace, b, TextStart(b, p), q, '\0', false);
    Wrap(widths, fillcol, b1, lock, ParagraphStart(b1, lock, Max(i1 - 1, lock)), m1)
  }

  lemma NoEdit(t: int, log: seq<Edit>)
    ensures FixAll(t, log, |log|) == t
  {
  }

  lemma NothingRespaced(isSpace: char -> bool, b: seq<char>, lock: nat, i: nat)
    requires lock <= i <= |b|
    ensures var (p, q) := Paragraph(b, lock, i); OnlyRespaced(isSpace, b, b, p, q)
  {
  }

  lemma RespacedIn(isSpace: char -> bool, orig: seq<char>, b: seq<char>, k: nat, p: nat, q: nat)
    requires OnlyRespaced(isSpace, orig, b, k, q) && p <= k
    ensures OnlyRespaced(isSpace, orig, b, p, q)
  {
  }

  lemma StartsAfterFence(isSpace: char -> bool, orig: seq<char>, b: seq<char>, k: nat, q: nat, lock: nat, i: nat)
    requires OnlyRespaced(isSpace, orig, b, k, q) && Fence(orig, lock, k) && lock <= k <= i <= |b|
    ensures k <= ParagraphStart(b, lock, Max(i - 1, lock)) + 1
  {
    hide NonSpace;
    if k > lock {
      assert b[..k][k - 1] == '\n' && b[..k][k - 2] == '\n';
      assert EmptyLine(b, k - 1);
    }
  }

  lemma BreaksAfterFence(isSpace: char -> bool, orig: seq<char>, b: seq<char>, k: nat, q: nat, lock: nat, i: nat)
    requires OnlyRespaced(isSpace, orig, b, k, q) && Fence(orig, lock, k) && lock <= i <= |b| && k <= i + 1
    ensures var j := LastBreak(b, lock, i); j == -1 || b[j] == '\n' || k <= j
    ensures var j := LastBreak(b, lock, i);
      !(j == -1 || b[j] == '\n') && isSpace(' ') && isSpace('\n') && i <= |b| - (|orig| - q) ==>
        OnlyRespaced(isSpace, orig, Apply(b, Edit(j, if b[j] == ' ' then j + 1 else j, "\n")), k, q)
  {
    hide OnlyRespaced;
    hide CanBreakAfter;
    hide Apply;
    BreakAfterFence(isSpace, orig, b, k, q, lock, i);
    hide Fence;
    RespacedLength(isSpace, orig, b, k, q);
    var j := LastBreak(b, lock, i);
    if !(j == -1 || b[j] == '\n') && isSpace(' ') && isSpace('\n') && i <= |b| - (|orig| - q) {
      RespacedFurther(isSpace, orig, b, k, q, Edit(j, if b[j] == ' ' then j + 1 else j, "\n"));
    }
  }

  lemma RespacedLength(isSpace: char -> bool, orig: seq<char>, b: seq<char>, k: nat, q: nat)
    requires OnlyRespaced(isSpace, orig, b, k, q)
    ensures k <= |b| && k <= |orig| && q <= |orig| && |orig| - q <= |b| && b[..k] == orig[..k]
  {
    hide NonSpace;
  }

  lemma BreakAfterFence(isSpace: char -> bool, orig: seq<char>, b: seq<char>, k: nat, q: nat, lock: nat, i: nat)
    requires OnlyRespaced(isSpace, orig, b, k, q) && Fence(orig, lock, k) && lock <= i <= |b| && k <= i + 1
    ensures var j := LastBreak(b, lock, i); j == -1 || b[j] == '\n' || k <= j
  {
    hide OnlyRespaced;
    hide CanBreakAfter;
    RespacedLength(isSpace, orig, b, k, q);
    if k > lock {
      assert b[..k][k - 1] == '\n' && b[..k][k - 2] == '\n';
    }
  }

  lemma ColumnAtMeans(widths: char -> nat, b: seq<char>, lock: nat, i: nat)
    requires lock <= i <= |b|
    ensures ColumnAt(widths, b, lock, i) == RegionEnd(widths, b[LineStart(b, lock, i)..i], 0)
  {
  }

  lemma NoColumn(widths: char -> nat)
    ensures RegionColumn(widths, [], 0) == 0
  {
  }

  /** The text t is at position i of b. */
  predicate StartsAt(b: seq<char>, i: nat, t: string)
  {
    i + |t| <= |b| && b[i..i + |t|] == t
  }

  /** Where the line with the single dot before i starts, or -1. */
  function DotLine(b: seq<char>, lock: nat, i: nat): int
  {
    var j := Max(i - 3, lock);
    if StartsAt(b, j, "\n.\n") then j + 1 else if j == lock && StartsAt(b, j, ".\n") then j else -1
  }

  /** The single dot is in a line of its own that ends right before i; or i is within three
      characters of the lock, and it is in the first line there, or in the second after an
      empty first one. */
  lemma DotLineIs(b: seq<char>, lock: nat, i: nat)
    requires lock <= i <= |b|
    ensures var j := DotLine(b, lock, i);
      if i > lock + 3 then
        if b[i - 3..i] == "\n.\n" then j == i - 2 else j == -1
      else if lock + 3 <= |b| && b[lock..lock + 3] == "\n.\n" then j == lock + 1
      else if lock + 2 <= |b| && b[lock..lock + 2] == ".\n" then j == lock
      else j == -1
  {
  }

  lemma NoBreak(b: seq<char>, lock: nat)
    requires lock <= |b|
    ensures LastBreak(b, lock, lock) == -1
  {
  }

  lemma BreakAt(b: seq<char>, lock: nat, i: nat)
    requires lock <= i < |b|
    ensures LastBreak(b, lock, i + 1) == if CanBreakAfter(b[i]) || b[i] == '\n' then i else LastBreak(b, lock, i)
  {
  }

  /** The part of the text between point and mark. */
  function Region(index: nat, mark: int): (r: (nat, nat))
    requires mark >= -1
    ensures r.0 <= r.1 && (mark == -1 ==> r == (index, index))
    ensures mark >= index ==> r == (index, mark)
    ensures 0 <= mark < index ==> r == (mark, index)
  {
    if mark == -1 then (index, index) else (Min(index, mark), Max(index, mark))
  }

  lemma StaysAtStart(e: Edit)
    ensures Fixup(e.start, e) == e.start
  {
  }

  lemma OneEdit(t: int, before: seq<Edit>, log: seq<Edit>)
    requires |log| == |before| + 1 && log[..|before|] == before
    ensures FixAll(t, log, |before|) == Fixup(t, log[|before|])
  {
  }

  function LineEnd(b: seq<char>, i: nat): (r: nat)
    requires i <= |b|
    ensures i <= r <= |b| && NoNewline(b, i, r) && (r == |b| || b[r] == '\n')
    decreases |b| - i
  {
    if i == |b| || b[i] == '\n' then i else LineEnd(b, i + 1)
  }

  lemma {:induction false} LineEndUnique(b: seq<char>, i: nat, r: nat)
    requires i <= r <= |b| && NoneIn(b, i, r, "\n") && (r == |b| || b[r] in "\n")
    ensures r == LineEnd(b, i)
    decreases r - i
  {
  }

  function LinesDown(b: seq<char>, i: nat, n: nat): (r: nat)
    requires i <= |b|
    ensures i <= r <= |b|
    decreases n
  {
    if n == 0 then i else LinesDown(b, Min(LineEnd(b, i) + 1, |b|), n - 1)
  }

  /** The goal column of the line `delta` lines down or up from the one that starts at i, or
      its end. */
  function InLine(b: seq<char>, lock: nat, i: nat, delta: int, goal: int): int
    requires lock <= i <= |b|
  {
    var line := if delta > 0 then LinesDown(b, i, delta) else LinesUp(b, lock, i, -delta);
    if LineEnd(b, line) - line > goal then Max(line + goal, lock) else LineEnd(b, line)
  }

  lemma LineAtATime(b: seq<char>, lock: nat, i: nat, n: nat)
    requires lock <= i <= |b|
    ensures LinesDown(b, i, n) == (if n == 0 then i else LinesDown(b, Min(LineEnd(b, i) + 1, |b|), n - 1))
    ensures LinesUp(b, lock, i, n) == (if n == 0 then i
      else LinesUp(b, lock, LineStart(b, lock, Max(i - 1, lock)), n - 1))
  {
  }

  function LinesUp(b: seq<char>, lock: nat, i: nat, n: nat): (r: nat)
    requires lock <= i <= |b|
    ensures lock <= r <= i
    decreases n
  {
    if n == 0 then i else LinesUp(b, lock, LineStart(b, lock, Max(i - 1, lock)), n - 1)
  }

  /** Going up crosses one newline a line, as long as there are any above the lock. */
  lemma {:induction false} UpCounts(b: seq<char>, lock: nat, i: nat, n: nat)
    requires lock <= i <= |b| && (i == lock || b[i - 1] == '\n')
    ensures var r := LinesUp(b, lock, i, n);
      (r == lock || b[r - 1] == '\n') && Newlines(b[r..i]) == Min(n, Newlines(b[lock..i]))
    decreases n
  {
    hide LineStart;
    hide Newlines;
    if n == 0 || i == lock {
      NoNewlines(b, i, i);
      if i == lock { UpFromLock(b, lock, n); }
    } else {
      var p := LineStart(b, lock, i - 1);
      assert LinesUp(b, lock, i, n) == LinesUp(b, lock, p, n - 1);
      UpCounts(b, lock, p, n - 1);
      hide LinesUp;
      OneNewline(b, p, i);
      NewlinesSplit(b, lock, p, i);
      NewlinesSplit(b, LinesUp(b, lock, i, n), p, i);
    }
  }

  lemma {:induction false} UpFromLock(b: seq<char>, lock: nat, n: nat)
    requires lock <= |b|
    ensures LinesUp(b, lock, lock, n) == lock
    decreases n
  {
    if n == 0 {
    } else {
      UpFromLock(b, lock, n - 1);
    }
  }

  /** Going down crosses one newline a line; with too few below it ends at the end. */
  lemma {:induction false} DownCounts(b: seq<char>, i: nat, n: nat)
    requires i <= |b|
    ensures var r := LinesDown(b, i, n);
      if Newlines(b[i..|b|]) < n then r == |b|
      else i <= r && Newlines(b[i..r]) == n && (n > 0 ==> r > i && b[r - 1] == '\n')
    decreases n
  {
    hide LineEnd;
    hide Newlines;
    if n == 0 {
      NoNewlines(b, i, i);
    } else {
      var end := LineEnd(b, i);
      if end == |b| {
        NoNewlines(b, i, |b|);
        LinesAtEnd(b, n - 1);
      } else {
        assert LinesDown(b, i, n) == LinesDown(b, end + 1, n - 1);
        DownCounts(b, end + 1, n - 1);
        hide LinesDown;
        OneNewline(b, i, end + 1);
        NewlinesSplit(b, i, end + 1, |b|);
        if Newlines(b[i..|b|]) >= n { NewlinesSplit(b, i, end + 1, LinesDown(b, i, n)); }
      }
    }
  }

  lemma {:induction false} LinesAtEnd(b: seq<char>, n: nat)
    ensures LinesDown(b, |b|, n) == |b|
    decreases n
  {
    if n == 0 {
    } else {
      LinesAtEnd(b, n - 1);
    }
  }

  /** `to` is the goal column of the line that is so many newlines above or below the line
      that starts at i, or that line's end: the first line at most, and the end of the text
      when there are too few lines below. Going up, it is before i unless i is at the lock. */
  ghost predicate IsLinesAway(b: seq<char>, lock: nat, i: nat, delta: int, goal: nat, to: nat)
    requires lock <= i <= |b|
  {
    lock <= to <= |b| && (delta < 0 && i > lock ==> to < i) &&
    var line := LineStart(b, lock, to);
    if delta > 0 && Newlines(b[i..|b|]) < delta then to == |b|
    else
      to == Min(line + goal, LineEnd(b, line)) &&
      if delta > 0 then i < line && Newlines(b[i..line]) == delta
      else line <= i && Newlines(b[line..i]) == Min(-delta, Newlines(b[lock..i]))
  }

  lemma InLineCounts(b: seq<char>, lock: nat, i: nat, delta: int, goal: nat)
    requires lock <= i <= |b| && (i == lock || b[i - 1] == '\n')
    ensures IsLinesAway(b, lock, i, delta, goal, InLine(b, lock, i, delta, goal))
  {
    hide LineEnd;
    hide Newlines;
    hide LineStart;
    hide LinesUp;
    hide LinesDown;
    var to: nat := InLine(b, lock, i, delta, goal);
    if delta > 0 {
      var line := LinesDown(b, i, delta);
      DownCounts(b, i, delta);
      if Newlines(b[i..|b|]) >= delta { LineStartUnique(b, lock, to, line); }
    } else {
      var line := LinesUp(b, lock, i, -delta);
      UpCounts(b, lock, i, -delta);
      LineStartUnique(b, lock, to, line);
      if delta < 0 && i > lock { BeforeLine(b, lock, line, i); }
    }
  }

  lemma BeforeLine(b: seq<char>, lock: nat, line: nat, i: nat)
    requires lock < i <= |b| && b[i - 1] == '\n' && lock <= line <= i
    requires Newlines(b[line..i]) > 0 || Newlines(b[lock..i]) == 0
    ensures LineEnd(b, line) < i
  {
    hide LineEnd;
    NoNewlines(b, i - 1, i - 1);
    NewlinesSplit(b, lock, i - 1, i);
    OneNewline(b, i - 1, i);
    if LineEnd(b, line) >= i { NoNewlines(b, line, i); }
  }

  lemma NoBlankAtEnd()
    ensures '\0' !in WHITESPACE
  {
  }

  /** The first position from i on with a character not of the set, or the end. */
  function SkipIn(b: seq<char>, i: nat, chars: string): (r: nat)
    requires i <= |b|
    ensures i <= r <= |b| && AllIn(b, i, r, chars) && (r == |b| || b[r] !in chars)
    decreases |b| - i
  {
    if i == |b| || b[i] !in chars then i else SkipIn(b, i + 1, chars)
  }

  /** The first position from i on with a character of the set, or the end. */
  function SkipOut(b: seq<char>, i: nat, chars: string): (r: nat)
    requires i <= |b|
    ensures i <= r <= |b| && NoneIn(b, i, r, chars) && (r == |b| || b[r] in chars)
    decreases |b| - i
  {
    if i == |b| || b[i] in chars then i else SkipOut(b, i + 1, chars)
  }

  lemma {:induction false} SkipInIs(b: seq<char>, i: nat, chars: string, r: nat)
    requires i <= r <= |b| && AllIn(b, i, r, chars) && (r == |b| || b[r] !in chars)
    ensures r == SkipIn(b, i, chars)
    decreases r - i
  {
    if i >= r {
    } else {
      SkipInIs(b, i + 1, chars, r);
    }
  }

  lemma {:induction false} SkipOutIs(b: seq<char>, i: nat, chars: string, r: nat)
    requires i <= r <= |b| && NoneIn(b, i, r, chars) && (r == |b| || b[r] in chars)
    ensures r == SkipOut(b, i, chars)
    decreases r - i
  {
    if i >= r {
    } else {
      SkipOutIs(b, i + 1, chars, r);
    }
  }

  /** The end of the next word: over blanks, then over everything else. */
  function WordEnd(b: seq<char>, i: nat): (r: nat)
    requires i <= |b|
    ensures i <= r <= |b| && (r == |b| || b[r] in WHITESPACE)
  {
    SkipOut(b, SkipIn(b, i, WHITESPACE), WHITESPACE)
  }

  /** From i the next word ends after all blanks, tabs and newlines there are, and then all
      other characters up to the next of these. */
  lemma WordEndIs(b: seq<char>, i: nat) returns (w: nat)
    requires i <= |b|
    ensures var r := WordEnd(b, i);
      i <= w <= r <= |b| && (w == r ==> r == |b|) &&
      (forall k :: i <= k < w ==> b[k] == ' ' || b[k] == '\t' || b[k] == '\n') &&
      (forall k :: w <= k < r ==> b[k] != ' ' && b[k] != '\t' && b[k] != '\n') &&
      (r < |b| ==> b[r] == ' ' || b[r] == '\t' || b[r] == '\n')
  {
    w := SkipIn(b, i, WHITESPACE);
  }

  /** One step of delta characters, as far as it goes. */
  function Stepped(b: seq<char>, lock: nat, i: nat, delta: int): (r: nat)
    requires lock <= i <= |b|
    ensures lock <= r <= |b|
  {
    if delta > 0 then Min(i + delta, |b|) else Max(i + delta, lock)
  }

  /** Where steps of delta lead while the character at the point is in the set, or is not. */
  function Glide(b: seq<char>, lock: nat, i: nat, delta: int, chars: string, within: bool): (r: nat)
    requires lock <= i <= |b|
    decreases if delta > 0 then |b| - i else i
  {
    var next := Stepped(b, lock, i, delta);
    if ((if i < |b| then b[i] else '\0') in chars) == within && next != i
    then Glide(b, lock, next, delta, chars, within)
    else i
  }

  lemma GlideStep(b: seq<char>, lock: nat, i: nat, delta: int, chars: string, within: bool)
    requires lock <= i <= |b|
    ensures Glide(b, lock, i, delta, chars, within) ==
      (var next := Stepped(b, lock, i, delta);
       if ((if i < |b| then b[i] else '\0') in chars) == within && next != i
       then Glide(b, lock, next, delta, chars, within)
       else i)
  {
  }

  predicate WordStart(b: seq<char>, lock: nat, q: nat)
  {
    lock <= q < |b| && b[q] !in WHITESPACE && (q == lock || b[q - 1] in WHITESPACE)
  }

  /** The last start of a word before i, or the lock. */
  function PrevWord(b: seq<char>, lock: nat, i: nat): (q: nat)
    requires lock <= i
    ensures lock <= q <= i && (q == lock || WordStart(b, lock, q))
    ensures forall k :: q < k < i ==> !WordStart(b, lock, k)
    decreases i
  {
    if i == lock then lock else if WordStart(b, lock, i - 1) then i - 1 else PrevWord(b, lock, i - 1)
  }

  /** The word before i starts right after a single blank at the lock, and does not consist
      of one letter before a blank. */
  predicate PassesOver(b: seq<char>, lock: nat, i: nat)
    requires lock <= i
  {
    PrevWord(b, lock, i) == lock + 1 && !(lock + 2 < |b| && b[lock + 2] in WHITESPACE)
  }

  /** From the end of " ab" the word is passed over; from the end of " a b", or of "ab",
      it is not. */
  lemma PassesOverSome()
    ensures PassesOver(" ab", 0, 3) && !PassesOver(" a b", 0, 4) && !PassesOver("ab", 0, 2)
    ensures PrevWord(" ab", 0, 3) == 1
  {
    var over, letter, first := " ab", " a b", "ab";
    PrevWordIs(over, 0, 3, 1);
    PrevWordIs(letter, 0, 4, 3);
    PrevWordIs(first, 0, 2, 0);
    assert !WordStart(over, 0, 2) && !WordStart(first, 0, 1);
  }

  /** A mark set at the very beginning is left before the locked text. */
  method MarkLeftBehind(isSpace: char -> bool, widths: char -> nat) returns (e: Editwin)
    ensures fresh(e) && !e.Valid() && e.mark == 0 && e.lock == 1
  {
    e := new Editwin(isSpace, widths, 0);
    e.SetMark();
    e.SetLocktext("x");
  }

  /** A column asked for at the very beginning is wrong after the text is locked. */
  method ColumnLeftBehind(isSpace: char -> bool, widths: char -> nat) returns (e: Editwin)
    requires widths('x') > 0
    ensures fresh(e) && !e.Valid() && e.mark == -1 && e.index == e.lock == 1 && e.column != -1
  {
    e := new Editwin(isSpace, widths, 0);
    var col := e.CurrentColumn();
    var x := "x";
    assert x[..0] == "" && x[|x| - 1] == 'x';
    assert RegionColumn(widths, x, 0) == widths('x');
    e.SetLocktext(x);
  }

  lemma BlankBefore(b: seq<char>, lock: nat, i: nat)
    requires lock < i <= |b| && b[i - 1] in WHITESPACE
    ensures PrevWord(b, lock, i) == PrevWord(b, lock, i - 1) && PassesOver(b, lock, i) == PassesOver(b, lock, i - 1)
  {
  }

  lemma {:induction false} PrevWordIs(b: seq<char>, lock: nat, i: nat, q: nat)
    requires lock <= q < i && WordStart(b, lock, q)
    requires forall k :: q < k < i ==> !WordStart(b, lock, k)
    ensures PrevWord(b, lock, i) == q
    decreases i
  {
  }

  lemma {:induction false} NoPrevWord(b: seq<char>, lock: nat, i: nat)
    requires lock <= i && forall k :: lock < k < i ==> !WordStart(b, lock, k)
    ensures PrevWord(b, lock, i) == lock
    decreases i
  {
  }

  /** Going back over blanks from i to j. */
  lemma BlanksHoldNoWord(b: seq<char>, lock: nat, j: nat, i: nat)
    requires lock <= j <= i < |b| && b[i] in WHITESPACE && AllIn(b, j + 1, i + 1, WHITESPACE)
    requires j == lock || b[j] !in WHITESPACE
    ensures b[j] in WHITESPACE ==> j == lock && PrevWord(b, lock, i) == lock
    ensures WordStart(b, lock, j) ==> PrevWord(b, lock, i) == j && !PassesOver(b, lock, i)
  {
  }

  /** Going back over a word, from f, which is i or the end of the word before i, to m. */
  lemma StartOfWord(b: seq<char>, lock: nat, m: nat, f: nat, i: nat)
    requires lock <= m <= f <= i <= |b|
    requires NoneIn(b, m + 1, Min(f + 1, |b|), WHITESPACE) && (f < |b| ==> b[f] !in WHITESPACE)
    requires m == lock || (m < f && b[m] in WHITESPACE)
    requires if f == i then f > lock ==> b[f - 1] !in WHITESPACE
             else i < |b| && AllIn(b, f + 1, i + 1, WHITESPACE) && (f > lock ==> b[f - 1] !in WHITESPACE)
    ensures m > lock ==> PrevWord(b, lock, i) == m + 1 && !PassesOver(b, lock, i)
    ensures m == lock ==> PassesOver(b, lock, i) || PrevWord(b, lock, i) == lock
  {
    if m > lock {
      PrevWordIs(b, lock, i, m + 1);
    } else if i > lock && lock < |b| && b[lock] in WHITESPACE && f > lock + 1 {
      assert WordStart(b, lock, lock + 1);
      PrevWordIs(b, lock, i, lock + 1);
    } else {
      NoPrevWord(b, lock, i);
    }
  }

  /** An edit after the lock keeps a point between the lock and the end. */
  lemma FixupInside(n: nat, e: Edit, t: int, lock: nat)
    requires lock <= e.start <= e.end <= n && (t == -1 || lock <= t <= n)
    ensures t == -1 ==> Fixup(t, e) == -1
    ensures t != -1 ==> lock <= Fixup(t, e) <= n - (e.end - e.start) + |e.text|
  {
  }

  /** Where an edit leaves the start of the display: it is decided anew if the edit is not
      after it. */
  function Recentred(topindex: int, e: Edit): int {
    if e.start <= Fixup(topindex, e) then -1 else Fixup(topindex, e)
  }

  /** So it stays exactly if all the edit changes is after it. */
  lemma RecentredIs(topindex: int, e: Edit)
    requires topindex >= -1 && e.start <= e.end
    ensures Recentred(topindex, e) == if topindex < e.start then topindex else -1
  {
  }
}

/** The window tree of window.c: lazy realization, dirty flags and scheduled redraws.
    Drawing itself is not modelled; a curses window is a flag, `win`. */
module WindowTree {

  datatype Geometry = Geometry(nlines: int, ncols: int, begin_y: int, begin_x: int)

  /** How what a realized window shows relates to the requests to redraw it: its handler has
      not run since it became dirty; it has, but another redraw was asked for during the run;
      or nothing has been asked for since the run began. */
  datatype Painting = Stale | Overtaken | Fresh

  /** What an accepted request to redraw does to that. */
  function Asked(dirty: bool, painted: Painting): Painting {
    if !dirty || painted.Stale? then Stale else Overtaken
  }

  /** What a resize handler does: put a window somewhere else, or dirty one. */
  datatype Response = Place(window: Window, geometry: Geometry) | Repaint(window: Window)

  /** `owl_window`. The handlers connected to a window's two signals are given by what
      they do: the windows a redraw handler dirties, and the responses of a resize handler. */
  class Window {
    var parent: Window?
    var child: Window?
    var next: Window?
    var prev: Window?
    var dirty: bool
    var dirty_subtree: bool
    var shown: bool
    var win: bool
    var geometry: Geometry
    const is_screen: bool
    var redraws: seq<Window>
    var resizes: seq<Response>
    ghost var painted: Painting
    /** The children in order, and the window with everything below it. */
    ghost var kids: seq<Window>
    ghost var sub: set<Window>

    constructor (is_screen: bool, geometry: Geometry)
      ensures parent == null && child == null && next == null && prev == null
      ensures !dirty && !dirty_subtree && !shown && !win && this.is_screen == is_screen && this.geometry == geometry
      ensures redraws == [] && resizes == [] && kids == [] && sub == {this}
    {
      parent, child, next, prev := null, null, null, null;
      dirty, dirty_subtree, shown, win := false, false, false, false;
      this.is_screen, this.geometry := is_screen, geometry;
      redraws, resizes, kids, sub, painted := [], [], [], {this}, Stale;
    }

    predicate Sized()
      reads this`geometry
    {
      geometry.nlines > 0 && geometry.ncols > 0
    }

    /** `_owl_window_should_realize`. */
    predicate ShouldRealize()
      reads this`shown, this`parent, ParentOf(this)`win
    {
      shown && (parent == null || parent.win)
    }
  }

  function ParentOf(w: Window): (s: set<Window>)
    reads w`parent
  {
    if w.parent == null then {} else {w.parent}
  }

  // ---------------------------------------------------------------- the structure

  /** The links of one window: parent, sibling list, and the sets of descendants. */
  ghost predicate Linked(w: Window, S: set<Window>)
    reads S`parent, S`child, S`next, S`prev, S`kids, S`sub
  {
    w in S && w in w.sub && w.sub <= S &&
    (w.parent != null ==> w.parent in S && w in w.parent.kids && !w.is_screen) &&
    w.child == (if w.kids == [] then null else w.kids[0]) &&
    (forall i :: 0 <= i < |w.kids| ==> Kid(w, i, S)) &&
    (forall i, j :: 0 <= i < j < |w.kids| ==> Apart(w.kids[i], w.kids[j], S)) &&
    (forall y :: y in w.sub ==> y.sub <= w.sub) &&
    (forall y :: y in w.sub && y != w ==> y.parent != null && y.parent in w.sub)
  }

  ghost predicate Apart(a: Window, b: Window, S: set<Window>)
    reads S`sub
  {
    a in S && b in S && a.sub !! b.sub
  }

  ghost predicate Kid(w: Window, i: nat, S: set<Window>)
    requires w in S && i < |w.kids|
    reads S`parent, S`child, S`next, S`prev, S`kids, S`sub
  {
    var k := w.kids[i];
    k in S && k in k.sub && k.parent == w && k.sub <= w.sub && w !in k.sub &&
    k.next == (if i + 1 < |w.kids| then w.kids[i + 1] else null) &&
    k.prev == (if i > 0 then w.kids[i - 1] else null)
  }

  ghost predicate Tree(S: set<Window>, screen: Window)
    reads S`parent, S`child, S`next, S`prev, S`kids, S`sub
  {
    screen in S && screen.is_screen && screen.parent == null &&
    (forall w :: w in S && w.is_screen ==> w == screen) &&
    (forall w :: w in S ==> Linked(w, S))
  }

  // -------------------------------------------------------------------- the flags

  predicate Fits(w: Window)
    reads w`win, w`shown, w`geometry
  {
    w.win ==> w.shown && w.Sized()
  }

  /** A realized window is shown and has a size, and all its ancestors are realized, up to
      the screen. */
  ghost predicate Realized(S: set<Window>)
    reads S`win, S`shown, S`geometry, S`parent, S`sub
  {
    (forall w :: w in S ==> Fits(w) && (w.win ==> w.parent != null || w.is_screen)) &&
    (forall a, w :: a in S && w in S && w in a.sub && w.win ==> a.win)
  }

  /** A dirty window marks its own subtree. */
  ghost predicate SelfMarked(S: set<Window>)
    reads S`dirty, S`dirty_subtree
  {
    forall w :: w in S && w.dirty ==> w.dirty_subtree
  }

  /** Below a realized parent, a marked subtree marks the parent's. */
  predicate Marks(w: Window)
    reads w`parent, w`dirty_subtree, ParentOf(w)`win, ParentOf(w)`dirty_subtree
  {
    w.parent != null && w.parent.win && w.dirty_subtree ==> w.parent.dirty_subtree
  }

  /** Repainted since a redraw was last asked for by anything but the window's own redraw
      handler. That one asks while the window is still dirty, and nothing comes of it. */
  ghost predicate Repainted(w: Window)
    reads w`painted, w`redraws
  {
    w.painted.Fresh? || (w.painted.Overtaken? && w in w.redraws)
  }

  /** A window that could be realized and is not, or is and has not been repainted, is dirty. */
  ghost predicate Waits(w: Window)
    reads w`parent, w`shown, w`geometry, w`win, w`dirty, w`painted, w`redraws, ParentOf(w)`win
  {
    w.dirty ||
    (if w.win then w.is_screen || Repainted(w)
     else !(w.shown && w.Sized() && (w.is_screen || (w.parent != null && w.parent.win))))
  }

  /** The dirty flags are right, but for windows in `exc` that may not wait yet. */
  ghost predicate Flags(S: set<Window>, exc: set<Window>)
    reads S`parent, S`shown, S`geometry, S`win, S`dirty, S`dirty_subtree, S`painted, S`redraws
    reads (set w | w in S && w.parent != null :: w.parent)`win
    reads (set w | w in S && w.parent != null :: w.parent)`dirty_subtree
  {
    SelfMarked(S) && (forall w :: w in S ==> Marks(w)) && (forall w :: w in S && w !in exc ==> Waits(w))
  }

  /** The invariant of the window tree, but for windows in `exc` that may not wait yet. */
  ghost predicate Inv(S: set<Window>, screen: Window, exc: set<Window>)
    reads S
  {
    Tree(S, screen) && Realized(S) && Flags(S, exc) && screen.shown
  }

  // --------------------------------------------------- what a finished redraw means

  /** w with all its ancestors is shown and has a size. */
  ghost predicate Displayable(w: Window, S: set<Window>)
    reads S
  {
    forall a :: a in S && w in a.sub ==> a.shown && a.Sized()
  }

  /** Exactly the displayable windows of `part` are realized, all of them repainted, and
      none with a realized parent is dirty. */
  ghost predicate UpToDate(part: set<Window>, S: set<Window>, screen: Window)
    requires part <= S
    reads S
  {
    forall w :: w in part ==>
      (w.win <==> Displayable(w, S)) && (w.win && w != screen ==> Repainted(w)) &&
      (w.parent != null && w.parent in S && w.parent.win ==> !w.dirty && !w.dirty_subtree)
  }

  lemma NothingLeft(S: set<Window>, screen: Window)
    requires Inv(S, screen, {}) && !screen.dirty_subtree && screen.sub <= S
    ensures UpToDate(screen.sub, S, screen)
  {
    hide Tree;
    hide Realized;
    hide Flags;
    hide Displayable;
    TreeFacts(S, screen);
    forall w | w in screen.sub
      ensures (w.win <==> Displayable(w, S)) && (w.win && w != screen ==> Repainted(w))
      ensures w.parent != null && w.parent in S && w.parent.win ==> !w.dirty && !w.dirty_subtree
    {
      if w.win { OnlyShown(S, screen, w); }
      if Displayable(w, S) { AllShown(S, screen, w); }
      if w.parent != null && w.parent in S && w.parent.win { CleanBelow(S, screen, w); }
    }
  }

  lemma MarksReachScreen(S: set<Window>, screen: Window)
    requires Inv(S, screen, {})
    ensures forall w ::
      w in S && w.dirty && (w.is_screen || (w.parent != null && w.parent.win)) ==> screen.dirty_subtree
  {
    forall w | w in S && w.dirty && (w.is_screen || (w.parent != null && w.parent.win)) ensures screen.dirty_subtree {
      hide Tree;
      hide Realized;
      ScreenMarked(S, screen, w);
    }
  }

  lemma {:induction false} CleanBelow(S: set<Window>, screen: Window, w: Window)
    requires Inv(S, screen, {}) && !screen.dirty_subtree && w in screen.sub
    requires w == screen || w.parent.win
    ensures !w.dirty_subtree && !w.dirty
    decreases S - w.sub
  {
    if w == screen {
    } else {
      var p := w.parent;
      assert p in screen.sub;
      ParentLarger(S, screen, w);
      if p != screen { assert p.parent != null && p.parent.win by { ParentRealized(S, screen, p); } }
      CleanBelow(S, screen, p);
      assert Marks(w);
    }
  }

  /** A marked window with realized ancestors has its marks all the way up. */
  lemma {:induction false} ScreenMarked(S: set<Window>, screen: Window, w: Window)
    requires Tree(S, screen) && Realized(S) && Flags(S, {}) && w in S
    ensures w.dirty_subtree && (w.is_screen || (w.parent != null && w.parent.win)) ==> screen.dirty_subtree
    decreases S - w.sub
  {
    if w.dirty_subtree && w.parent != null && w.parent.win {
      ParentLarger(S, screen, w);
      assert Marks(w);
      if w.parent != screen { ParentRealized(S, screen, w.parent); }
      ScreenMarked(S, screen, w.parent);
    }
  }

  lemma ParentRealized(S: set<Window>, screen: Window, p: Window)
    requires Tree(S, screen) && Realized(S) && p in S && p != screen && p.win
    ensures p.parent != null && p.parent.win
  {
    assert Linked(p, S);
    assert Linked(p.parent, S);
    var i :| 0 <= i < |p.parent.kids| && p.parent.kids[i] == p;
    assert Kid(p.parent, i, S);
    assert p in p.parent.sub;
  }

  lemma ParentLarger(S: set<Window>, screen: Window, w: Window)
    requires Tree(S, screen) && w in S && w.parent != null
    ensures w.sub <= w.parent.sub <= S && w.parent in w.parent.sub && w.parent !in w.sub && w in w.parent.sub
    ensures S - w.parent.sub < S - w.sub
  {
    assert Linked(w, S);
    assert Linked(w.parent, S);
    var i :| 0 <= i < |w.parent.kids| && w.parent.kids[i] == w;
    assert Kid(w.parent, i, S);
    assert w.parent in S - w.sub && w.parent !in S - w.parent.sub;
  }

  /** Once the screen's mark is clear, no window with a realized parent is dirty, and every
      attached window that can be displayed is realized. */
  lemma {:induction false} AllShown(S: set<Window>, screen: Window, w: Window)
    requires Inv(S, screen, {}) && !screen.dirty_subtree && w in screen.sub && Displayable(w, S)
    ensures w.win && (w.is_screen || Repainted(w))
    decreases S - w.sub
  {
    assert Linked(w, S);
    assert Linked(screen, S);
    if w == screen {
      assert Waits(w);
    } else {
      var p := w.parent;
      ParentLarger(S, screen, w);
      forall a | a in S && p in a.sub ensures a.shown && a.Sized() {
        AncestorOfParent(S, screen, w, a);
      }
      AllShown(S, screen, p);
      CleanBelow(S, screen, w);
      assert Waits(w);
    }
  }

  lemma OnlyShown(S: set<Window>, screen: Window, w: Window)
    requires Inv(S, screen, {}) && w in S && w.win
    ensures Displayable(w, S)
  {
  }

  lemma AncestorOfParent(S: set<Window>, screen: Window, w: Window, a: Window)
    requires Tree(S, screen) && w in S && a in S && w.parent != null && w.parent in a.sub
    ensures w in a.sub
  {
    assert Linked(a, S);
    ParentLarger(S, screen, w);
  }

  /** Two windows neither of which is below the other have nothing below them in common. */
  lemma {:induction false} NothingInCommon(S: set<Window>, screen: Window, a: Window, b: Window, z: Window)
    requires Tree(S, screen) && a in S && b in S && a !in b.sub && b !in a.sub && z in a.sub
    ensures z !in b.sub
    decreases S - z.sub
  {
    if z !in b.sub {
    } else {
      assert Linked(a, S) && Linked(b, S);
      ParentLarger(S, screen, z);
      NothingInCommon(S, screen, a, b, z.parent);
    }
  }

  // ------------------------------------------------------------------- operations

  /** Nothing outside `part` has changed its flags. */
  twostate predicate FlagsKept(S: set<Window>, part: set<Window>)
    reads S
  {
    forall y :: y in S && y !in part ==>
      y.win == old(y.win) && y.dirty == old(y.dirty) && y.dirty_subtree == old(y.dirty_subtree) &&
      y.painted == old(y.painted)
  }

  /** Marks are only added, and windows only become dirty among `dirtied`. */
  twostate predicate OnlyDirties(S: set<Window>, dirtied: set<Window>)
    reads S
  {
    (forall y :: y in S && y !in dirtied ==> y.dirty == old(y.dirty) && y.painted == old(y.painted)) &&
    (forall y :: y in S && old(y.dirty) ==> y.dirty) &&
    (forall y :: y in S && old(y.dirty_subtree) ==> y.dirty_subtree)
  }

  /** Outside `part`, the same windows are realized, and what was dirty still is. */
  twostate predicate WinKept(S: set<Window>, part: set<Window>)
    reads S
  {
    forall y :: y in S && y !in part ==> y.win == old(y.win) && (old(y.dirty) ==> y.dirty)
  }

  /** Outside `part`, the same windows are realized, and dirty flags and marks only grow. */
  twostate predicate Outside(S: set<Window>, part: set<Window>)
    reads S
  {
    forall y :: y in S && y !in part ==>
      y.win == old(y.win) && (old(y.dirty) ==> y.dirty) && (old(y.dirty_subtree) ==> y.dirty_subtree)
  }

  class Display {
    var screen: Window
    ghost var windows: set<Window>

    ghost predicate Valid()
      reads this, windows
    {
      Inv(windows, screen, {})
    }

    /** `owl_window_get_screen`. */
    constructor (lines: int, cols: int)
      ensures Valid() && fresh(windows) && windows == {screen} && screen.kids == []
      ensures screen.shown && screen.geometry == Geometry(lines, cols, 0, 0) && (screen.win <==> screen.Sized())
    {
      var s := new Window(true, Geometry(lines, cols, 0, 0));
      screen := s;
      windows := {s};
      new;
      Start(s);
    }

    /** Showing the screen for the first time. */
    method Start(s: Window)
      requires screen == s && windows == {s}
      requires s.is_screen && s.parent == null && s.child == null && s.kids == [] && s.sub == {s}
      requires !s.shown && !s.win && !s.dirty && !s.dirty_subtree
      modifies s`shown, s`win, s`dirty, s`painted, s`dirty_subtree
      ensures Valid() && s.shown && (s.win <==> s.Sized())
    {
      hide *;
      s.shown := true;
      OneWindow(s);
      Realize(s);
      ScreenRealized(windows, s);
      Validate();
    }

    lemma Validate()
      requires Inv(windows, screen, {})
      ensures Valid()
    {
    }

    lemma ValidIs()
      ensures Valid() <==> Inv(windows, screen, {})
    {
    }

    lemma Validated()
      requires Valid()
      ensures Tree(windows, screen) && Realized(windows) && Flags(windows, {}) && screen.shown
    {
    }

    /** `owl_window_dirty`. The upward loop stops at the first ancestor already marked.
        `top`, if given, is a marked window with w below it: then nothing outside top's
        subtree changes. */
    method MarkDirty(w: Window, ghost top: Window?)
      requires Tree(windows, screen) && SelfMarked(windows) && w in windows
      requires forall y :: y in windows && y.parent != w ==> Marks(y)
      requires top != null ==> top in windows && top.dirty_subtree && w in top.sub
      modifies windows`dirty, windows`painted, windows`dirty_subtree
      ensures Tree(windows, screen) && SelfMarked(windows)
      ensures forall y :: y in windows && y.parent != w ==> Marks(y)
      ensures w.ShouldRealize() ==> w.dirty && w.dirty_subtree
      ensures (forall y :: y in windows ==> old(Marks(y))) ==> forall y :: y in windows ==> Marks(y)
      ensures forall y :: y in windows && old(Waits(y)) ==> Waits(y)
      ensures OnlyDirties(windows, if w.ShouldRealize() then {w} else {})
      ensures w.ShouldRealize() ==> w.painted == Asked(old(w.dirty), old(w.painted))
      ensures !w.ShouldRealize() ==> FlagsKept(windows, {})
      ensures old(w.dirty) ==> FlagsKept(windows, {w}) && w.dirty && w.dirty_subtree == old(w.dirty_subtree)
      ensures top != null ==> FlagsKept(windows, top.sub)
    {
      hide Tree;
      if !w.ShouldRealize() { return; }
      w.painted := Asked(w.dirty, w.painted);
      if !w.dirty {
        w.dirty := true;
        MarkUp(w, top);
      }
    }

    /** The upward loop. */
    method MarkUp(w: Window, ghost top: Window?)
      requires Tree(windows, screen) && w in windows && w.dirty
      requires forall y :: y in windows && y != w && y.dirty ==> y.dirty_subtree
      requires forall y :: y in windows && y.parent != w ==> Marks(y)
      requires top != null ==> top in windows && top.dirty_subtree && w in top.sub
      modifies windows`dirty_subtree
      ensures SelfMarked(windows)
      ensures forall y :: y in windows && y.parent != w ==> Marks(y)
      ensures forall y :: y in windows && old(y.dirty_subtree) ==> y.dirty_subtree
      ensures top != null ==> forall y :: y in windows && y !in top.sub ==> y.dirty_subtree == old(y.dirty_subtree)
    {
      hide Tree;
      var x: Window? := w;
      while x != null && !x.dirty_subtree
        invariant x != null ==> x in windows
        invariant w.dirty_subtree || x == w
        invariant forall y :: y in windows && old(y.dirty_subtree) ==> y.dirty_subtree
        invariant forall y :: y in windows && y.parent != w && (y.parent == null || y.parent != x) ==> Marks(y)
        invariant top != null ==> x != null && x in top.sub
        invariant top != null ==> forall y :: y in windows && y !in top.sub ==> y.dirty_subtree == old(y.dirty_subtree)
        decreases x != null, if x == null then {} else windows - x.sub
      {
        Above(windows, screen, x, top);
        x.dirty_subtree := true;
        if x.parent != null {
          ParentLarger(windows, screen, x);
        }
        x := x.parent;
      }
    }

    /** `_owl_window_unrealize`: w and everything below it loses its curses window; only w
        is left without a mark to be realized again. */
    method Unrealize(w: Window, ghost exc: set<Window>)
      requires Tree(windows, screen) && RealParents(windows) && w in windows && Flags(windows, exc + w.sub)
      modifies windows`win, windows`dirty, windows`painted, windows`dirty_subtree
      ensures RealParents(windows) && Flags(windows, exc + {w})
      ensures forall y :: y in w.sub ==> !y.win
      ensures WinKept(windows, w.sub)
      ensures !old(w.win) ==> FlagsKept(windows, {})
      ensures old(w.win) && w.parent != null && w.parent.ShouldRealize() ==> w.parent.dirty
      ensures old(w.win) ==> !w.dirty
      decreases w.sub, 1
    {
      hide Tree;
      hide Flags;
      hide RealParents;
      if !w.win {
        NoneRealizedBelow(windows, screen, w, exc);
        return;
      }
      KidList(windows, screen, w);
      UnrealizeKids(w, exc);
      Destroy(w, exc);
    }

    /** Unmapping all the children. */
    method UnrealizeKids(w: Window, ghost exc: set<Window>)
      requires Tree(windows, screen) && RealParents(windows) && w in windows && Flags(windows, exc + w.sub) && w.win
      modifies windows`win, windows`dirty, windows`painted, windows`dirty_subtree
      ensures RealParents(windows) && Flags(windows, exc + w.sub) && w.win
      ensures forall y :: y in w.sub && y != w ==> !y.win
      ensures WinKept(windows, w.sub)
      decreases w.sub, 0, 1
    {
      hide Window.ShouldRealize;
      hide Tree;
      hide Flags;
      hide RealParents;
      var c := w.child;
      ghost var i := 0;
      KidList(windows, screen, w);
      while c != null
        invariant 0 <= i <= |w.kids|
        invariant c == (if i < |w.kids| then w.kids[i] else null)
        invariant w.win && RealParents(windows) && Flags(windows, exc + w.sub)
        invariant forall j, y :: 0 <= j < i && y in w.kids[j].sub ==> !y.win
        invariant WinKept(windows, w.sub)
        decreases |w.kids| - i
      {
        c := UnrealizeKid(w, c, i, exc);
        i := i + 1;
      }
      SubIsKids(windows, screen, w);
    }

    /** Unmapping one child, and on to the next. */
    method UnrealizeKid(w: Window, c: Window, ghost i: nat, ghost exc: set<Window>) returns (next: Window?)
      requires Tree(windows, screen) && RealParents(windows) && w in windows && Flags(windows, exc + w.sub) && w.win
      requires i < |w.kids| && c == w.kids[i]
      requires forall j, y :: 0 <= j < i && y in w.kids[j].sub ==> !y.win
      modifies windows`win, windows`dirty, windows`painted, windows`dirty_subtree
      ensures RealParents(windows) && Flags(windows, exc + w.sub) && w.win
      ensures forall j, y :: 0 <= j <= i && y in w.kids[j].sub ==> !y.win
      ensures WinKept(windows, w.sub)
      ensures next == (if i + 1 < |w.kids| then w.kids[i + 1] else null)
      decreases w.sub, 0, 0
    {
      hide Window.ShouldRealize;
      hide Tree;
      hide Flags;
      hide RealParents;
      KidFacts(windows, screen, w, i);
      FlagsWeaken(windows, exc + w.sub, exc + w.sub + c.sub);
      Unrealize(c, exc + w.sub);
      assert exc + w.sub + {c} == exc + w.sub;
      next := c.next;
    }

    /** The rest of unrealizing: w's own window and marks go, the parent is repainted. */
    method Destroy(w: Window, ghost exc: set<Window>)
      requires Tree(windows, screen) && RealParents(windows) && w in windows && Flags(windows, exc + w.sub)
      requires forall y :: y in w.sub && y != w ==> !y.win
      modifies windows`win, windows`dirty, windows`painted, windows`dirty_subtree
      ensures RealParents(windows) && Flags(windows, exc + {w})
      ensures forall y :: y in w.sub ==> !y.win
      ensures WinKept(windows, {w}) && !w.dirty
      ensures w.parent != null && w.parent.ShouldRealize() ==> w.parent.dirty
    {
      hide Tree;
      hide Flags;
      hide RealParents;
      ClearOwn(w, exc);
      NoneRealizedBelow(windows, screen, w, exc);
      Above(windows, screen, w, null);
      if w.parent != null {
        ParentLarger(windows, screen, w);
        DirtyWithin(w.parent, exc + {w});
      }
    }

    /** w's own window and marks. */
    method ClearOwn(w: Window, ghost exc: set<Window>)
      requires Tree(windows, screen) && RealParents(windows) && w in windows && Flags(windows, exc + w.sub)
      requires forall y :: y in w.sub && y != w ==> !y.win
      modifies w`win, w`dirty, w`dirty_subtree
      ensures RealParents(windows) && Flags(windows, exc + w.sub)
      ensures !w.win && !w.dirty
    {
      hide Tree;
      KidsAreAll(windows, screen, w);
      KidList(windows, screen, w);
      w.win := false;
      w.dirty, w.dirty_subtree := false, false;
      forall y | y in windows && y !in exc + w.sub ensures Waits(y) {
        assert y.parent != w;
      }
      forall y | y in windows ensures Marks(y) {
      }
    }

    /** Dirtying a window keeps the flags right. */
    method DirtyWithin(w: Window, ghost exc: set<Window>)
      requires Tree(windows, screen) && w in windows && Flags(windows, exc)
      modifies windows`dirty, windows`painted, windows`dirty_subtree
      ensures Flags(windows, exc) && (w.ShouldRealize() ==> w.dirty)
      ensures OnlyDirties(windows, {w})
    {
      hide Tree;
      MarkDirty(w, null);
    }

    /** `_owl_window_create_curses`: a non-root window needs a realized parent. */
    method CreateCurses(w: Window)
      requires Inv(windows, screen, {w}) && w in windows && !w.win && w.shown && w.Sized()
      modifies w`win, w`painted
      ensures w.win == (w.is_screen || (w.parent != null && w.parent.win))
      ensures Realized(windows) && SelfMarked(windows)
      ensures forall y :: y in windows && y.parent != w ==> Marks(y)
      ensures forall y :: y in windows && y != w && y.parent != w ==> Waits(y)
      ensures forall i :: 0 <= i < |w.kids| ==> !w.kids[i].win
      ensures !w.win ==> Inv(windows, screen, {w})
    {
      hide Tree;
      NoKidRealized(windows, screen, w);
      if w.is_screen || (w.parent != null && w.parent.win) {
        w.win := true;
        w.painted := Stale;
        NowRealized(windows, screen, w);
      }
    }

    /** `_owl_window_realize_later`: w now waits to be realized. */
    method RealizeLater(w: Window, ghost top: Window?, ghost exc: set<Window>)
      requires Tree(windows, screen) && w in windows && Flags(windows, exc + {w}) && (w.win ==> Waits(w))
      requires top != null ==> top in windows && top.dirty_subtree && w in top.sub
      modifies windows`dirty, windows`painted, windows`dirty_subtree
      ensures Flags(windows, exc) && OnlyDirties(windows, {w})
      ensures top != null ==> FlagsKept(windows, top.sub)
    {
      hide Tree;
      KidList(windows, screen, w);
      if !w.win && w.ShouldRealize() {
        MarkDirty(w, top);
      }
      assert Waits(w);
    }

    /** `_owl_window_realize`. A marked window is realized without touching anything
        outside its subtree. */
    method Realize(w: Window)
      requires Inv(windows, screen, {w}) && w in windows
      modifies windows`win, windows`dirty, windows`painted, windows`dirty_subtree
      ensures Inv(windows, screen, {w})
      ensures !w.win ==> Unrealizable(w)
      ensures !old(w.win) || old(Waits(w)) ==> Waits(w)
      ensures old(w.dirty_subtree) ==> w.dirty_subtree && FlagsKept(windows, w.sub)
      ensures old(w.dirty) ==> w.dirty
    {
      hide Inv;
      hide Tree;
      hide Realized;
      hide Waits;
      hide Marks;
      hide SelfMarked;
      hide Flags;
      Parts(windows, screen, {w});
      KidList(windows, screen, w);
      NotWaiting(w);
      if w.win || !w.ShouldRealize() { return; }
      if w.geometry.nlines <= 0 || w.geometry.ncols <= 0 { return; }
      CreateCurses(w);
      NotWaiting(w);
      if !w.win { return; }
      Map(w);
      NotWaiting(w);
    }

    /** A window just realized is marked for repainting, and its children are mapped. */
    method Map(w: Window)
      requires Tree(windows, screen) && Realized(windows) && SelfMarked(windows) && screen.shown
      requires w in windows && w.win && w.shown && w.ShouldRealize()
      requires forall y :: y in windows && y.parent != w ==> Marks(y)
      requires forall y :: y in windows && y != w && y.parent != w ==> Waits(y)
      requires forall i :: 0 <= i < |w.kids| ==> !w.kids[i].win
      modifies windows`dirty, windows`painted, windows`dirty_subtree
      ensures Inv(windows, screen, {w}) && w.dirty && w.dirty_subtree
      ensures old(w.dirty_subtree) ==> FlagsKept(windows, w.sub)
    {
      hide Inv;
      hide Tree;
      hide Realized;
      hide Waits;
      hide Marks;
      hide SelfMarked;
      hide Flags;
      KidList(windows, screen, w);
      MarkDirty(w, if w.dirty_subtree then w else null);
      Mapped(windows, screen, w);
      RealizeKids(w);
      Whole(windows, screen, {w});
    }

    /** Mapping the children of a window just realized. */
    method RealizeKids(w: Window)
      requires Tree(windows, screen) && w in windows && w.dirty_subtree
      requires Flags(windows, {w} + Rest(w.kids, 0))
      requires forall i :: 0 <= i < |w.kids| ==> !w.kids[i].win
      modifies windows`dirty, windows`painted, windows`dirty_subtree
      ensures Flags(windows, {w})
      ensures FlagsKept(windows, w.sub) && w.dirty_subtree && (old(w.dirty) ==> w.dirty)
    {
      hide Tree;
      hide Flags;
      var c := w.child;
      ghost var i := 0;
      KidList(windows, screen, w);
      while c != null
        invariant 0 <= i <= |w.kids|
        invariant c == (if i < |w.kids| then w.kids[i] else null)
        invariant Flags(windows, {w} + Rest(w.kids, i)) && w.dirty_subtree
        invariant FlagsKept(windows, w.sub) && (old(w.dirty) ==> w.dirty)
        decreases |w.kids| - i
      {
        KidFacts(windows, screen, w, i);
        assert {w} + Rest(w.kids, i) == {w} + Rest(w.kids, i + 1) + {c};
        RealizeLater(c, w, {w} + Rest(w.kids, i + 1));
        c := c.next;
        i := i + 1;
      }
      assert {w} + Rest(w.kids, i) == {w};
    }

    /** `owl_window_dirty`, called from outside. A window that does not wait as it should,
        such as the screen once unlinked, waits again. */
    method Dirty(w: Window)
      requires Inv(windows, screen, {w}) && w in windows
      modifies windows`dirty, windows`painted, windows`dirty_subtree
      ensures Valid() && (w.ShouldRealize() ==> w.dirty)
      ensures w.ShouldRealize() && (w.is_screen || w.parent != null) ==> screen.dirty_subtree
    {
      hide Tree;
      hide Realized;
      hide Flags;
      KidList(windows, screen, w);
      DirtyWithin(w, {w});
      WaitsOnceDirty(windows, screen, w);
      ScreenMarked(windows, screen, w);
    }

    /** `owl_window_show`. It also realizes a screen that was unlinked. */
    method Show(w: Window)
      requires Inv(windows, screen, {w}) && w in windows && (w.win ==> Waits(w))
      modifies windows`win, windows`dirty, windows`painted, windows`dirty_subtree, w`shown
      ensures Valid() && w.shown
      ensures w.win <==> w.Sized() && (w.is_screen || (w.parent != null && w.parent.win))
    {
      Unhide(w);
      Realize(w);
      NoneLeft(windows, screen, w);
      ShownIfItCan(windows, screen, w);
    }

    method Unhide(w: Window)
      requires Inv(windows, screen, {w}) && w in windows && (w.win ==> Waits(w))
      modifies w`shown
      ensures Inv(windows, screen, {w}) && w.shown && (w.win ==> Waits(w))
    {
      hide Tree;
      w.shown := true;
      forall y | y in windows && y != w ensures Waits(y) {
      }
    }

    /** `owl_window_hide`. */
    method Hide(w: Window)
      requires Valid() && w in windows
      modifies windows`win, windows`dirty, windows`painted, windows`dirty_subtree, w`shown
      ensures Valid() && w.shown == (w.is_screen && old(w.shown))
      ensures (!w.is_screen ==> forall y :: y in w.sub ==> !y.win)
      ensures !w.is_screen && old(w.win) && w.parent != null && w.parent.ShouldRealize() ==> w.parent.dirty
    {
      hide Tree;
      hide Flags;
      hide Realized;
      hide RealParents;
      hide Inv;
      if w.is_screen { return; }
      Validated();
      KidList(windows, screen, w);
      Unshow(w);
      Unrealize(w, {w});
      assert {w} + {w} == {w};
      HiddenDone(windows, screen, w);
      Validate();
    }

    /** Taking `shown` away from w breaks nothing outside w's subtree. */
    method Unshow(w: Window)
      requires Valid() && w in windows
      modifies w`shown
      ensures RealParents(windows) && Flags(windows, {w} + w.sub) && !w.shown
      ensures forall y :: y in windows && y != w ==> Fits(y)
    {
      hide Tree;
      w.shown := false;
      forall y | y in windows && y != w ensures Waits(y) {
      }
      forall y | y in windows ensures Marks(y) {
      }
    }

    /** `owl_window_set_position`, the resize handler of w included. Whatever was realized
        in w's subtree is unrealized; w waits to be realized at its new place. */
    method SetPosition(w: Window, g: Geometry, ghost exc: set<Window>)
      requires Tree(windows, screen) && Realized(windows) && Flags(windows, exc) && w in windows
      requires forall y :: y in w.sub ==> ResizesBelow(y, windows)
      modifies windows`win, windows`dirty, windows`painted, windows`dirty_subtree, windows`geometry
      ensures Realized(windows) && Flags(windows, exc)
      ensures w.geometry == g && forall y :: y in windows && y !in w.sub ==> y.geometry == old(y.geometry)
      ensures forall y :: y in windows && y.win ==> old(y.win)
      ensures old(w.geometry) != g ==> !w.win
      decreases w.sub, 1
    {
      hide Tree;
      hide Flags;
      hide Realized;
      hide RealParents;
      if w.geometry == g { return; }
      var resized := w.geometry.nlines != g.nlines || w.geometry.ncols != g.ncols;
      KidList(windows, screen, w);
      RealizedParts(windows);
      FlagsWeaken(windows, exc, exc + w.sub);
      Unrealize(w, exc);
      RealizedAgain(windows);
      Place(w, g, exc);
      if resized {
        EmitResized(w, exc + {w});
      }
      if w.shown {
        WaitAgain(w, exc);
      } else {
        HiddenNeedNotWait(windows, w, exc);
      }
    }

    /** `owl_window_move`. */
    method Move(w: Window, begin_y: int, begin_x: int)
      requires Valid() && w in windows && forall y :: y in w.sub ==> ResizesBelow(y, windows)
      modifies windows`win, windows`dirty, windows`painted, windows`dirty_subtree, windows`geometry
      ensures Valid() && w.geometry == old(w.geometry).(begin_y := begin_y, begin_x := begin_x)
      ensures forall y :: y in windows && y !in w.sub ==> y.geometry == old(y.geometry)
    {
      hide Tree;
      SetPosition(w, Geometry(w.geometry.nlines, w.geometry.ncols, begin_y, begin_x), {});
    }

    /** `owl_window_resize`. */
    method Resize(w: Window, nlines: int, ncols: int)
      requires Valid() && w in windows && forall y :: y in w.sub ==> ResizesBelow(y, windows)
      modifies windows`win, windows`dirty, windows`painted, windows`dirty_subtree, windows`geometry
      ensures Valid() && w.geometry == old(w.geometry).(nlines := nlines, ncols := ncols)
      ensures forall y :: y in windows && y !in w.sub ==> y.geometry == old(y.geometry)
    {
      hide Tree;
      SetPosition(w, Geometry(nlines, ncols, w.geometry.begin_y, w.geometry.begin_x), {});
    }

    /** Connecting handlers to the two signals, and disconnecting those there were. A window
        whose request for another redraw was lost is missed if its handler is taken away;
        dirtying it, as its owner does, puts that right. */
    method Connect(w: Window, redraws: seq<Window>, resizes: seq<Response>)
      requires Valid() && w in windows
      modifies w`redraws, w`resizes
      ensures Inv(windows, screen, {w}) && w.redraws == redraws && w.resizes == resizes
      ensures Valid() <==> w.dirty || !w.win || w.is_screen || w.painted.Fresh? || w in redraws
    {
      hide Tree;
      hide Realized;
      w.redraws, w.resizes := redraws, resizes;
    }

    method Place(w: Window, g: Geometry, ghost exc: set<Window>)
      requires w in windows && Flags(windows, exc + {w}) && Realized(windows) && !w.win
      modifies w`geometry
      ensures Flags(windows, exc + {w}) && Realized(windows) && w.geometry == g
    {
      w.geometry := g;
      forall y | y in windows && y !in exc + {w} ensures Waits(y) {
      }
    }

    method WaitAgain(w: Window, ghost exc: set<Window>)
      requires Tree(windows, screen) && Flags(windows, exc + {w}) && w in windows && !w.win
      modifies windows`dirty, windows`painted, windows`dirty_subtree
      ensures Flags(windows, exc)
    {
      hide Tree;
      KidList(windows, screen, w);
      RealizeLater(w, null, exc);
    }

    /** The `resized` signal: the handler moves windows below w about, and dirties windows. */
    method EmitResized(w: Window, ghost exc: set<Window>)
      requires Tree(windows, screen) && Realized(windows) && Flags(windows, exc) && w in windows
      requires forall y :: y in w.sub ==> ResizesBelow(y, windows)
      modifies windows`win, windows`dirty, windows`painted, windows`dirty_subtree, windows`geometry
      ensures Realized(windows) && Flags(windows, exc)
      ensures w.geometry == old(w.geometry)
      ensures forall y :: y in windows && y !in w.sub ==> y.geometry == old(y.geometry)
      ensures forall y :: y in windows && y.win ==> old(y.win)
      decreases w.sub, 0
    {
      hide Tree;
      hide Flags;
      hide Realized;
      KidList(windows, screen, w);
      var i := 0;
      while i < |w.resizes|
        invariant 0 <= i <= |w.resizes|
        invariant Realized(windows) && Flags(windows, exc)
        invariant w.geometry == old(w.geometry)
        invariant forall y :: y in windows && y !in w.sub ==> y.geometry == old(y.geometry)
        invariant forall y :: y in windows && y.win ==> old(y.win)
      {
        assert ResizesBelow(w, windows);
        match w.resizes[i] {
          case Place(d, g) =>
            Below(windows, screen, w, d);
            SetPosition(d, g, exc);
          case Repaint(d) =>
            DirtyWithin(d, exc);
        }
        i := i + 1;
      }
    }

    /** `_owl_window_redraw`: realize, repaint, and no longer dirty. A redraw the handler
        asks for its own window is not pending afterwards. If it only dirties w and windows
        below, nothing outside w's subtree is touched. */
    method Redraw(w: Window)
      requires Valid() && w in windows && w.dirty_subtree && Connected(w, windows)
      modifies windows`win, windows`dirty, windows`painted, windows`dirty_subtree
      ensures Valid() && !w.dirty && w.dirty_subtree && Outside(windows, w.sub)
      ensures RedrawsBelow(w) ==> FlagsKept(windows, w.sub)
      ensures old(w.dirty) && w.win && !w.is_screen ==> w.painted == if w in w.redraws then Overtaken else Fresh
    {
      hide Tree;
      hide Realized;
      hide Flags;
      hide Connected;
      hide RedrawsBelow;
      KidList(windows, screen, w);
      if !w.dirty { return; }
      Excuse(windows, screen, w);
      Realize(w);
      if w.win && !w.is_screen {
        RealizedShould(windows, screen, w);
        EmitRedraw(w);
      }
      NotDirty(w);
    }

    method NotDirty(w: Window)
      requires Inv(windows, screen, {w}) && w in windows
      requires if w.win then w.is_screen || Repainted(w) else Unrealizable(w)
      modifies w`dirty
      ensures Valid() && !w.dirty
    {
      hide Tree;
      hide Realized;
      w.dirty := false;
      forall y | y in windows ensures Waits(y) {
      }
    }

    /** The `redraw` signal: the handler dirties windows. */
    method EmitRedraw(w: Window)
      requires Inv(windows, screen, {w}) && w in windows && w.dirty && w.dirty_subtree && Connected(w, windows)
      requires w.ShouldRealize()
      modifies windows`dirty, windows`painted, windows`dirty_subtree
      ensures Inv(windows, screen, {w}) && w.dirty && w.dirty_subtree && Outside(windows, {})
      ensures w.painted == if w in w.redraws then Overtaken else Fresh
      ensures RedrawsBelow(w) ==> FlagsKept(windows, w.sub)
    {
      hide Tree;
      hide Flags;
      hide Realized;
      hide RedrawsBelow;
      hide Connected;
      KidList(windows, screen, w);
      Paint(w);
      var i := 0;
      while i < |w.redraws|
        invariant 0 <= i <= |w.redraws|
        invariant Flags(windows, {w}) && w.dirty && w.dirty_subtree && Outside(windows, {})
        invariant w.painted == if w in w.redraws[..i] then Overtaken else Fresh
        invariant RedrawsBelow(w) ==> FlagsKept(windows, w.sub)
      {
        EmitTurn(w, i);
        i := i + 1;
      }
    }

    /** One window that the handler dirties. */
    method EmitTurn(w: Window, i: nat)
      requires Tree(windows, screen) && Flags(windows, {w}) && w in windows && w.dirty && w.dirty_subtree
      requires i < |w.redraws| && Connected(w, windows) && w.ShouldRealize()
      requires w.painted == if w in w.redraws[..i] then Overtaken else Fresh
      modifies windows`dirty, windows`painted, windows`dirty_subtree
      ensures Flags(windows, {w}) && w.dirty && w.dirty_subtree && Outside(windows, {})
      ensures w.painted == if w in w.redraws[..i + 1] then Overtaken else Fresh
      ensures RedrawsBelow(w) ==> FlagsKept(windows, w.sub)
    {
      hide Tree;
      hide Flags;
      hide Window.ShouldRealize;
      assert w.redraws[..i + 1] == w.redraws[..i] + [w.redraws[i]];
      DirtyFrom(w, w.redraws[i]);
    }

    method Paint(w: Window)
      requires Flags(windows, {w}) && w in windows && w.dirty
      modifies w`painted
      ensures Flags(windows, {w}) && w.painted == Fresh
    {
      w.painted := Fresh;
    }

    /** While w is being redrawn, d becomes dirty. */
    method DirtyFrom(w: Window, d: Window)
      requires Tree(windows, screen) && Flags(windows, {w}) && w in windows && d in windows
      requires w.dirty && w.dirty_subtree && w.ShouldRealize() && !w.painted.Stale?
      modifies windows`dirty, windows`painted, windows`dirty_subtree
      ensures Flags(windows, {w}) && w.dirty && w.dirty_subtree && Outside(windows, {})
      ensures w.painted == if d == w then Overtaken else old(w.painted)
      ensures d in w.sub ==> FlagsKept(windows, w.sub)
    {
      hide Tree;
      MarkDirty(d, if d in w.sub then w else null);
    }

    /** `_owl_window_is_subtree_dirty`. */
    method IsSubtreeDirty(w: Window) returns (b: bool)
      requires Tree(windows, screen) && w in windows
      ensures b <==> w.dirty || exists i :: 0 <= i < |w.kids| && w.kids[i].dirty_subtree
    {
      hide Tree;
      hide Linked;
      hide Kid;
      if w.dirty { return true; }
      KidList(windows, screen, w);
      var c := w.child;
      ghost var i := 0;
      while c != null
        invariant 0 <= i <= |w.kids|
        invariant c == (if i < |w.kids| then w.kids[i] else null)
        invariant forall j :: 0 <= j < i ==> !w.kids[j].dirty_subtree
        decreases |w.kids| - i
      {
        KidFacts(windows, screen, w, i);
        if c.dirty_subtree { return true; }
        c := c.next;
        i := i + 1;
      }
      return false;
    }

    /** `_owl_window_redraw_subtree`. If the handlers only dirty their own window and those
        below it, w's mark is cleared, and nothing outside w's subtree is touched. */
    method RedrawSubtree(w: Window)
      requires Valid() && w in windows && AllConnected(w.sub, windows)
      modifies windows`win, windows`dirty, windows`painted, windows`dirty_subtree
      ensures Valid() && Outside(windows, w.sub)
      ensures AllBelow(w.sub) ==> !w.dirty && !w.dirty_subtree && FlagsKept(windows, w.sub)
      decreases w.sub, 1
    {
      hide Valid;
      hide Tree;
      hide RedrawsBelow;
      hide AllBelow;
      hide AllConnected;
      Validated();
      KidList(windows, screen, w);
      if !w.dirty_subtree {
        Unmarked(windows, screen, w);
        return;
      }
      RedrawBoth(w);
      Settle(w);
    }

    /** w itself and then its children. */
    method RedrawBoth(w: Window)
      requires Valid() && w in windows && w.dirty_subtree && AllConnected(w.sub, windows)
      modifies windows`win, windows`dirty, windows`painted, windows`dirty_subtree
      ensures Valid() && w.dirty_subtree && Outside(windows, w.sub)
      ensures AllBelow(w.sub) ==> !w.dirty && FlagsKept(windows, w.sub)
      ensures AllBelow(w.sub) ==> forall i :: 0 <= i < |w.kids| ==> !w.kids[i].dirty_subtree
      decreases w.sub, 0, 1
    {
      hide Valid;
      hide Tree;
      hide RedrawsBelow;
      hide AllBelow;
      hide AllConnected;
      hide Connected;
      Validated();
      KidList(windows, screen, w);
      OwnHandler(w, windows);
      Redraw(w);
      Validated();
      RedrawKids(w);
    }

    /** The end of a redraw: w's mark goes if it has no reason left. */
    method Settle(w: Window)
      requires Valid() && w in windows
      modifies w`dirty_subtree
      ensures Valid()
      ensures !w.dirty && (forall i :: 0 <= i < |w.kids| ==> !w.kids[i].dirty_subtree) ==> !w.dirty_subtree
    {
      hide Tree;
      Validated();
      var still := IsSubtreeDirty(w);
      if !still {
        ClearMark(w);
      }
    }

    method RedrawKids(w: Window)
      requires Tree(windows, screen) && Valid() && w in windows && !w.dirty && w.dirty_subtree
      requires AllConnected(w.sub, windows)
      modifies windows`win, windows`dirty, windows`painted, windows`dirty_subtree
      ensures Valid() && w.dirty_subtree && Outside(windows, w.sub)
      ensures AllBelow(w.sub) ==> !w.dirty && FlagsKept(windows, w.sub)
      ensures AllBelow(w.sub) ==> forall i :: 0 <= i < |w.kids| ==> !w.kids[i].dirty_subtree
      decreases w.sub, 0, 0
    {
      hide Inv;
      hide Tree;
      hide RedrawsBelow;
      KidList(windows, screen, w);
      var c := w.child;
      ghost var i := 0;
      while c != null
        invariant 0 <= i <= |w.kids|
        invariant c == (if i < |w.kids| then w.kids[i] else null)
        invariant Valid() && w.dirty_subtree && Outside(windows, w.sub)
        invariant AllBelow(w.sub) ==> !w.dirty && FlagsKept(windows, w.sub)
        invariant AllBelow(w.sub) ==> forall j :: 0 <= j < i ==> !w.kids[j].dirty_subtree
        decreases |w.kids| - i
      {
        KidFacts(windows, screen, w, i);
        label before:
        RedrawSubtree(c);
        assert AllBelow(w.sub) ==>
          forall j :: 0 <= j < i ==> w.kids[j].dirty_subtree == old@before(w.kids[j].dirty_subtree);
        c := c.next;
        i := i + 1;
      }
    }

    method ClearMark(w: Window)
      requires Valid() && w in windows && !w.dirty && forall i :: 0 <= i < |w.kids| ==> !w.kids[i].dirty_subtree
      modifies w`dirty_subtree
      ensures Valid() && !w.dirty_subtree
    {
      hide Tree;
      hide Realized;
      KidsAreAll(windows, screen, w);
      w.dirty_subtree := false;
      forall y | y in windows ensures Marks(y) {
      }
      forall y | y in windows ensures Waits(y) {
      }
    }

    /** `owl_window_redraw_scheduled`. Whatever windows the handlers dirty, the invariant is
        kept, and a window still dirty under realized ancestors leaves the screen marked.
        If no mark is left on the screen, of the windows attached to it exactly those that
        are shown and sized, with ancestors that are, are realized; these have been
        repainted since a redraw was last asked for by anything but their own handler, and
        no window with a realized parent is dirty. If the handlers only dirty their own
        window and those below it, no mark is left. */
    method RedrawScheduled()
      requires Valid() && AllConnected(screen.sub, windows)
      modifies windows`win, windows`dirty, windows`painted, windows`dirty_subtree
      ensures Valid() && Outside(windows, screen.sub)
      ensures forall w ::
        w in windows && w.dirty && (w.is_screen || (w.parent != null && w.parent.win)) ==> screen.dirty_subtree
      ensures !screen.dirty_subtree ==> UpToDate(screen.sub, windows, screen)
      ensures AllBelow(screen.sub) ==> !screen.dirty_subtree && FlagsKept(windows, screen.sub)
    {
      hide Tree;
      hide Realized;
      hide Flags;
      hide Displayable;
      hide AllBelow;
      hide AllConnected;
      ScreenInside(windows, screen);
      if screen.dirty_subtree {
        RedrawSubtree(screen);
      }
      MarksReachScreen(windows, screen);
      if !screen.dirty_subtree { NothingLeft(windows, screen); }
    }

    /** `owl_window_new` and `_owl_window_link`: a hidden window without a size, put first
        among its parent's children. */
    method New(parent: Window) returns (w: Window)
      requires Valid() && parent in windows
      modifies this`windows, parent`child, parent`kids, windows`prev, windows`sub
      ensures Valid() && fresh(w) && windows == old(windows) + {w}
      ensures w.parent == parent && parent.kids == [w] + old(parent.kids) && w.kids == []
      ensures !w.shown && !w.win && !w.dirty && w.geometry == Geometry(0, 0, 0, 0)
      ensures forall a :: a in old(windows) ==> a.sub == old(a.sub) + (if parent in old(a.sub) then {w} else {})
    {
      hide Inv;
      hide Tree;
      hide Flags;
      hide Realized;
      hide Waits;
      hide Marks;
      ghost var S := windows;
      Parts(S, screen, {});
      RealizedParts(S);
      w := new Window(false, Geometry(0, 0, 0, 0));
      Attach(w, parent);
      Newcomer(S, screen, w);
    }

    /** `_owl_window_link`, for a window with no children and no parent. */
    method Attach(w: Window, parent: Window)
      requires Tree(windows, screen) && parent in windows && w !in windows && !w.is_screen
      requires w.parent == null && w.prev == null && w.child == null && w.kids == [] && w.sub == {w}
      modifies this`windows, w`parent, w`next, parent`child, parent`kids, windows`prev, windows`sub
      ensures Tree(windows, screen) && windows == old(windows) + {w} && Attached(old(windows), w, parent)
    {
      hide *;
      ghost var S := windows;
      TreeFacts(S, screen);
      Graft(w, parent);
      forall y | y in S ensures Linked(y, S + {w}) {
        StaysLinked(S, w, parent, y);
      }
      NewLinked(S, w, parent);
      windows := windows + {w};
      TreeOf(windows, screen);
    }

    /** The links, and the ancestors' sets of descendants. */
    method Graft(w: Window, parent: Window)
      requires Tree(windows, screen) && parent in windows && w !in windows
      requires w.parent == null && w.prev == null && w.sub == {w}
      modifies w`parent, w`next, parent`child, parent`kids, windows`prev, windows`sub
      ensures Attached(windows, w, parent) && w.parent == parent && w in parent.kids
      ensures w.sub == {w} && parent.kids == [w] + old(parent.kids)
    {
      hide Tree;
      Splice(w, parent);
      forall a | a in windows && parent in a.sub {
        a.sub := a.sub + {w};
      }
    }

    /** The list surgery of `_owl_window_link`. */
    method Splice(w: Window, parent: Window)
      requires Tree(windows, screen) && parent in windows && w !in windows
      modifies w`parent, w`next, parent`child, parent`kids, windows`prev
      ensures w.parent == parent && w.next == old(parent.child)
      ensures parent.child == w && parent.kids == [w] + old(parent.kids)
      ensures forall y :: y in windows ==> y.prev == (if y == old(parent.child) then w else old(y.prev))
    {
      hide Tree;
      hide Linked;
      hide Kid;
      KidList(windows, screen, parent);
      if parent.child != null { KidFacts(windows, screen, parent, 0); }
      w.parent := parent;
      w.next := parent.child;
      if w.next != null {
        w.next.prev := w;
      }
      parent.child := w;
      parent.kids := [w] + parent.kids;
    }

    /** `owl_window_unlink`: unrealized, and taken out of its parent's list with everything
        below it. Only unlinking the realized screen breaks the invariant: it is left unrealized
        and unmarked, until it is shown or dirtied again. */
    method Unlink(w: Window)
      requires Valid() && w in windows
      modifies windows`win, windows`dirty, windows`painted, windows`dirty_subtree
      modifies w`parent, windows`child, windows`next, windows`prev, windows`kids, windows`sub
      ensures Inv(windows, screen, if w.is_screen then {w} else {}) && w.parent == null
      ensures Valid() <==> !(w.is_screen && old(w.win))
      ensures forall y :: y in w.sub ==> !y.win
      ensures forall y :: y in windows && y !in w.sub ==> y.win == old(y.win)
      ensures forall y :: y in windows && y != w ==> y.parent == old(y.parent)
      ensures w.sub == old(w.sub)
      ensures old(w.win) && old(w.parent) != null && old(w.parent).ShouldRealize() ==> old(w.parent).dirty
      ensures old(w.parent) != null ==> Removed(old(w.parent.kids), w, old(w.parent).kids)
      ensures forall y :: y in windows && y != old(w.parent) ==> y.kids == old(y.kids)
    {
      hide Inv;
      hide Tree;
      hide Flags;
      hide Realized;
      hide RealParents;
      hide Removed;
      hide Valid;
      Validated();
      KidList(windows, screen, w);
      if w.parent != null { ParentLarger(windows, screen, w); }
      Unmap(w);
      if w.is_screen {
        Whole(windows, screen, {w});
        ScreenLeft(windows, screen);
      } else {
        Take(w);
      }
      ValidIs();
    }

    /** Unlinking, so far as w and the windows below it are unrealized. */
    method Unmap(w: Window)
      requires Valid() && w in windows
      modifies windows`win, windows`dirty, windows`painted, windows`dirty_subtree
      ensures Tree(windows, screen) && RealParents(windows) && Realized(windows) && Flags(windows, {w})
      ensures forall y :: y in w.sub ==> !y.win
      ensures forall y :: y in windows && y !in w.sub ==> y.win == old(y.win)
      ensures old(w.win) && w.parent != null && w.parent.ShouldRealize() ==> w.parent.dirty
      ensures w.is_screen ==> w.shown && (Waits(w) <==> !old(w.win))
    {
      hide Tree;
      hide Flags;
      hide Realized;
      hide RealParents;
      Validated();
      RealizedParts(windows);
      KidList(windows, screen, w);
      FlagsWeaken(windows, {}, {} + w.sub);
      assert w !in {} ==> Waits(w) by { Parts(windows, screen, {}); }
      Unrealize(w, {});
      assert {} + {w} == {w};
      RealizedAgain(windows);
    }

    /** Unlinking, so far as an unrealized window leaves its parent. */
    method Take(w: Window)
      requires Tree(windows, screen) && RealParents(windows) && Realized(windows) && Flags(windows, {w}) && screen.shown
      requires w in windows && !w.is_screen && !w.win
      modifies w`parent, windows`child, windows`next, windows`prev, windows`kids, windows`sub
      ensures Inv(windows, screen, {}) && w.parent == null && w.sub == old(w.sub)
      ensures forall y :: y in windows && y != w ==> y.parent == old(y.parent)
      ensures old(w.parent) != null ==> Removed(old(w.parent.kids), w, old(w.parent).kids)
      ensures forall y :: y in windows && y != old(w.parent) ==> y.kids == old(y.kids)
    {
      hide Inv;
      hide Tree;
      hide Flags;
      hide Realized;
      hide RealParents;
      hide Removed;
      RealizedParts(windows);
      KidList(windows, screen, w);
      if w.parent != null {
        ParentLarger(windows, screen, w);
        Detach(w);
      }
      Unlinked(windows, screen, w);
    }

    /** The list surgery of `owl_window_unlink`. */
    method Detach(w: Window)
      requires Tree(windows, screen) && w in windows && w.parent != null
      requires Flags(windows, {w}) && RealParents(windows) && !w.win
      modifies w`parent, windows`child, windows`next, windows`prev, windows`kids, windows`sub
      ensures Tree(windows, screen) && Detached(windows, w, old(w.parent))
      ensures Flags(windows, {w}) && RealParents(windows)
    {
      hide *;
      ghost var S := windows;
      ghost var p := w.parent;
      Cuttable(S, screen, w);
      CutOut(w);
      forall y | y in S ensures Linked(y, S) {
        assert old(CutReady(S, w, p, y)) && old(CutReady(S, w, p, p));
        StillLinked(S, w, p, y);
      }
      TreeOf(windows, screen);
      ParentsInside(windows, screen);
      DetachedFlags(S, w, p);
    }

    method CutOut(w: Window)
      requires Tree(windows, screen) && w in windows && w.parent != null
      modifies w`parent, windows`child, windows`next, windows`prev, windows`kids, windows`sub
      ensures Detached(windows, w, old(w.parent))
    {
      hide Tree;
      hide Linked;
      hide Kid;
      hide Removed;
      ghost var p := w.parent;
      ParentLarger(windows, screen, w);
      KidList(windows, screen, p);
      Close(w);
      ghost var gone := w.sub;
      forall a | a in windows && p in a.sub {
        a.sub := a.sub - gone;
      }
    }

    /** The two neighbours of w, and the parent, no longer point to it. */
    method Close(w: Window)
      requires Tree(windows, screen) && w in windows && w.parent != null && w.parent in windows
      modifies w`parent, w.parent`child, windows`next, windows`prev, w.parent`kids
      ensures w.parent == null && Removed(old(w.parent.kids), w, old(w.parent).kids)
      ensures old(w.parent).child == (if old(w.parent.child) == w then old(w.next) else old(w.parent.child))
      ensures forall y :: y in windows ==> y.next == (if y == old(w.prev) then old(w.next) else old(y.next))
      ensures forall y :: y in windows ==> y.prev == (if y == old(w.next) then old(w.prev) else old(y.prev))
    {
      hide Tree;
      hide Linked;
      hide Kid;
      ghost var p := w.parent;
      ghost var i := KidIndex(windows, screen, w);
      if w.prev != null {
        KidFacts(windows, screen, p, i - 1);
        w.prev.next := w.next;
      }
      if w.next != null {
        w.next.prev := w.prev;
      }
      if w.parent.child == w {
        w.parent.child := w.next;
      }
      w.parent := null;
      p.kids := p.kids[..i] + p.kids[i + 1..];
    }
  }

  /** w's place among its parent's children. */
  lemma KidIndex(S: set<Window>, screen: Window, w: Window) returns (i: nat)
    requires Tree(S, screen) && w in S && w.parent != null
    ensures w.parent in S && i < |w.parent.kids| && w.parent.kids[i] == w
    ensures forall j :: 0 <= j < |w.parent.kids| && j != i ==> w.parent.kids[j] in S && w.parent.kids[j] != w
    ensures w.next == (if i + 1 < |w.parent.kids| then w.parent.kids[i + 1] else null)
    ensures w.prev == (if i > 0 then w.parent.kids[i - 1] else null)
  {
    hide Kid;
    assert Linked(w, S);
    i :| 0 <= i < |w.parent.kids| && w.parent.kids[i] == w;
    KidFacts(S, screen, w.parent, i);
  }

  lemma NewLinked(S: set<Window>, w: Window, parent: Window)
    requires parent in S && w.parent == parent && !w.is_screen && w.child == null && w.kids == [] && w.sub == {w}
    requires w in parent.kids
    ensures Linked(w, S + {w})
  {
  }

  /** The windows of S, before and after w becomes parent's first child. */
  twostate predicate Attached(new S: set<Window>, new w: Window, new parent: Window)
    requires old(allocated(S))
    reads S, w
  {
    w !in S && parent in S && w.parent == parent && w.next == old(parent.child) && w.sub == {w} && w.prev == null &&
    parent.child == w && parent.kids == [w] + old(parent.kids) &&
    (forall y :: y in S ==> y.parent == old(y.parent) && y.next == old(y.next)) &&
    (forall y :: y in S && y != parent ==> y.child == old(y.child) && y.kids == old(y.kids)) &&
    (forall y :: y in S ==> y.prev == (if y == old(parent.child) then w else old(y.prev))) &&
    (forall y :: y in S ==> y.sub == old(y.sub) + (if parent in old(y.sub) then {w} else {}))
  }

  /** A window that is not shown changes none of the flags' invariants. */
  lemma Newcomer(S: set<Window>, screen: Window, w: Window)
    requires Tree(S + {w}, screen) && Flags(S, {}) && screen.shown && w !in S
    requires !w.shown && !w.win && !w.dirty && !w.dirty_subtree && w.sub == {w} && !w.is_screen
    requires forall y :: y in S ==> Fits(y) && (y.win ==> y.parent != null || y.is_screen)
    requires forall a, y :: a in S && y in S && y in a.sub && y.win ==> a.win
    ensures Inv(S + {w}, screen, {})
  {
  }

  twostate lemma KidAttached(new S: set<Window>, new w: Window, new parent: Window, new y: Window, new i: nat)
    requires old(allocated(S)) && y in S && Attached(S, w, parent) && old(Linked(y, S)) && old(Linked(parent, S))
    requires i < |y.kids|
    ensures Kid(y, i, S + {w})
  {
    if y == parent {
      if i > 0 { assert old(Kid(y, i - 1, S)); }
    } else {
      assert old(Kid(y, i, S));
      if old(parent.child) != null { assert old(Kid(parent, 0, S)); }
    }
  }

  twostate lemma KidsAttached(new S: set<Window>, new w: Window, new parent: Window, new y: Window)
    requires old(allocated(S)) && y in S && Attached(S, w, parent) && old(Linked(y, S)) && old(Linked(parent, S))
    ensures forall i :: 0 <= i < |y.kids| ==> Kid(y, i, S + {w})
  {
    hide *;
    forall i | 0 <= i < |y.kids| ensures Kid(y, i, S + {w}) {
      KidAttached(S, w, parent, y, i);
    }
  }

  twostate lemma ApartAttached(new S: set<Window>, new w: Window, new parent: Window, new y: Window)
    requires old(allocated(S)) && y in S && Attached(S, w, parent) && old(Linked(y, S))
    ensures forall i, j :: 0 <= i < j < |y.kids| ==> Apart(y.kids[i], y.kids[j], S + {w})
  {
    forall i, j | 0 <= i < j < |y.kids| ensures Apart(y.kids[i], y.kids[j], S + {w}) {
      if y == parent {
        assert old(Kid(y, j - 1, S));
        if i > 0 { assert old(Kid(y, i - 1, S)) && old(Apart(y.kids[i - 1], y.kids[j - 1], S)); }
      } else {
        assert old(Kid(y, i, S)) && old(Kid(y, j, S)) && old(Apart(y.kids[i], y.kids[j], S));
      }
    }
  }

  twostate lemma OwnAttached(new S: set<Window>, new w: Window, new parent: Window, new y: Window)
    requires old(allocated(S)) && y in S && Attached(S, w, parent) && old(Linked(y, S)) && old(Linked(parent, S))
    ensures y in y.sub && y.sub <= S + {w} && (y.parent != null ==> y.parent in S && y in y.parent.kids && !y.is_screen)
    ensures y.child == (if y.kids == [] then null else y.kids[0])
    ensures forall z :: z in y.sub ==> z.sub <= y.sub && (z != y ==> z.parent != null && z.parent in y.sub)
  {
  }

  twostate lemma StaysLinked(new S: set<Window>, new w: Window, new parent: Window, new y: Window)
    requires old(allocated(S)) && y in S && Attached(S, w, parent) && old(Linked(y, S)) && old(Linked(parent, S))
    ensures Linked(y, S + {w})
  {
    hide Kid;
    hide Apart;
    hide Attached;
    OwnAttached(S, w, parent, y);
    KidsAttached(S, w, parent, y);
    ApartAttached(S, w, parent, y);
  }

  /** Every window is below w, above w's parent, or has nothing below it in common with w. */
  ghost predicate Sides(S: set<Window>, w: Window)
    reads S`parent, S`sub
  {
    w in S && (forall z :: z in S && z !in w.sub && w.parent !in z.sub ==> z.sub !! w.sub) &&
    (forall z :: z in S && z.parent != null && z.parent in w.sub ==> z in w.sub)
  }

  lemma ParentsInside(S: set<Window>, screen: Window)
    requires Tree(S, screen)
    ensures forall y :: y in S && y.parent != null ==> y.parent in S
  {
  }

  lemma Cuttable(S: set<Window>, screen: Window, w: Window)
    requires Tree(S, screen) && w in S && w.parent != null
    ensures w.parent in S && forall y :: y in S ==> CutReady(S, w, w.parent, y)
    ensures screen in S && screen.is_screen && screen.parent == null
    ensures forall w :: w in S && w.is_screen ==> w == screen
  {
    OnTheSide(S, screen, w);
    ParentLarger(S, screen, w);
    KidList(S, screen, w);
    assert Linked(w, S);
  }

  lemma OnTheSide(S: set<Window>, screen: Window, w: Window)
    requires Tree(S, screen) && w in S
    ensures Sides(S, w)
  {
    assert Linked(w, S);
    forall z | z in S && z !in w.sub && w.parent !in z.sub ensures z.sub !! w.sub {
      assert Linked(z, S);
      forall x | x in z.sub ensures x !in w.sub {
        NothingInCommon(S, screen, z, w, x);
      }
    }
    forall z | z in S && z.parent != null && z.parent in w.sub ensures z in w.sub {
      AncestorOfParent(S, screen, z, w);
    }
  }

  /** The list `after` is `before` without w, which was in it once. */
  ghost predicate Removed(before: seq<Window>, w: Window, after: seq<Window>)
  {
    w !in after && exists i :: 0 <= i < |before| && before[i] == w && after == before[..i] + before[i + 1..]
  }

  lemma RemovedKeeps(before: seq<Window>, w: Window, after: seq<Window>, y: Window)
    requires Removed(before, w, after) && y in before && y != w
    ensures y in after
  {
  }

  /** The windows of S, before and after w is taken away from p. */
  twostate predicate Detached(new S: set<Window>, new w: Window, new p: Window)
    requires old(allocated(S))
    reads S
  {
    w in S && p in S && p == old(w.parent) && w.parent == null && Removed(old(p.kids), w, p.kids) &&
    p.child == (if old(p.child) == w then old(w.next) else old(p.child)) &&
    (forall y :: y in S && y != w ==> y.parent == old(y.parent)) &&
    (forall y :: y in S && y != p ==> y.child == old(y.child) && y.kids == old(y.kids)) &&
    (forall y :: y in S ==> y.next == (if y == old(w.prev) then old(w.next) else old(y.next))) &&
    (forall y :: y in S ==> y.prev == (if y == old(w.next) then old(w.prev) else old(y.prev))) &&
    (forall y :: y in S ==> y.sub == old(y.sub) - (if p in old(y.sub) then old(w.sub) else {}))
  }

  /** What held of the links of y, of p and of w before the cut. */
  ghost predicate CutReady(S: set<Window>, w: Window, p: Window, y: Window)
    reads S
  {
    y in S && w in S && w.parent == p && Linked(y, S) && Linked(p, S) && Linked(w, S) && Sides(S, w) && p !in w.sub
  }

  /** The children p keeps. */
  twostate lemma KeptKids(new S: set<Window>, new w: Window, new p: Window)
    requires old(allocated(S)) && w in S && p in S && Detached(S, w, p) && old(CutReady(S, w, p, p))
    requires Removed(old(p.kids), w, p.kids)
    ensures forall i :: 0 <= i < |p.kids| ==> Kid(p, i, S)
  {
    hide Detached;
    hide CutReady;
    hide Kid;
    var c :| 0 <= c < |old(p.kids)| && old(p.kids)[c] == w && p.kids == old(p.kids)[..c] + old(p.kids)[c + 1..];
    forall i | 0 <= i < |p.kids| ensures Kid(p, i, S) {
      KeptKid(S, w, p, c, i);
    }
  }

  twostate lemma KeptKid(new S: set<Window>, new w: Window, new p: Window, new c: nat, new i: nat)
    requires old(allocated(S)) && Detached(S, w, p) && old(CutReady(S, w, p, p)) && i < |p.kids|
    requires c < |old(p.kids)| && old(p.kids)[c] == w && p.kids == old(p.kids)[..c] + old(p.kids)[c + 1..]
    ensures Kid(p, i, S)
  {
    hide Removed;
    hide Sides;
    KeptKidBelow(S, w, p, c, i);
    assert old(Kid(p, c, S)) && old(Kid(p, if i < c then i else i + 1, S));
    if c > 0 { assert old(Kid(p, c - 1, S)); }
    if c + 1 < |old(p.kids)| { assert old(Kid(p, c + 1, S)); }
  }

  twostate lemma KeptKidBelow(new S: set<Window>, new w: Window, new p: Window, new c: nat, new i: nat)
    requires old(allocated(S)) && Detached(S, w, p) && old(CutReady(S, w, p, p)) && i < |p.kids|
    requires c < |old(p.kids)| && old(p.kids)[c] == w && p.kids == old(p.kids)[..c] + old(p.kids)[c + 1..]
    ensures var k := p.kids[i]; k in S && k in k.sub && k.parent == p && k.sub <= p.sub && p !in k.sub
  {
    hide Removed;
    var b := if i < c then i else i + 1;
    assert old(Kid(p, c, S)) && old(Kid(p, b, S));
    if b < c { assert old(Apart(p.kids[b], p.kids[c], S)); } else { assert old(Apart(p.kids[c], p.kids[b], S)); }
  }

  twostate lemma KeptApart(new S: set<Window>, new w: Window, new p: Window)
    requires old(allocated(S)) && Detached(S, w, p) && old(CutReady(S, w, p, p))
    ensures forall i, j :: 0 <= i < j < |p.kids| ==> Apart(p.kids[i], p.kids[j], S)
  {
    var c :| 0 <= c < |old(p.kids)| && old(p.kids)[c] == w && p.kids == old(p.kids)[..c] + old(p.kids)[c + 1..];
    forall i, j | 0 <= i < j < |p.kids| ensures Apart(p.kids[i], p.kids[j], S) {
      assert old(Apart(p.kids[if i < c then i else i + 1], p.kids[if j < c then j else j + 1], S));
    }
  }

  /** The children of any other window. */
  twostate lemma OtherKids(new S: set<Window>, new w: Window, new p: Window, new y: Window)
    requires old(allocated(S)) && y in S && y != p && Detached(S, w, p) && old(CutReady(S, w, p, y))
    ensures forall i :: 0 <= i < |y.kids| ==> Kid(y, i, S)
    ensures forall i, j :: 0 <= i < j < |y.kids| ==> Apart(y.kids[i], y.kids[j], S)
  {
    var c :| 0 <= c < |old(p.kids)| && old(p.kids)[c] == w;
    assert old(Kid(p, c, S));
    if c > 0 { assert old(Kid(p, c - 1, S)); }
    if c + 1 < |old(p.kids)| { assert old(Kid(p, c + 1, S)); }
    forall i | 0 <= i < |y.kids| ensures Kid(y, i, S) {
      assert old(Kid(y, i, S));
      assert y.kids[i] in old(w.sub) ==> y in old(w.sub);
    }
    forall i, j | 0 <= i < j < |y.kids| ensures Apart(y.kids[i], y.kids[j], S) {
      assert old(Apart(y.kids[i], y.kids[j], S));
    }
  }

  twostate lemma OwnDetached(new S: set<Window>, new w: Window, new p: Window, new y: Window)
    requires old(allocated(S)) && y in S && Detached(S, w, p) && old(CutReady(S, w, p, y)) && old(CutReady(S, w, p, p))
    ensures y in y.sub && y.sub <= S && (y.parent != null ==> y.parent in S && y in y.parent.kids && !y.is_screen)
    ensures y.child == (if y.kids == [] then null else y.kids[0])
    ensures Removed(old(p.kids), w, p.kids) && w in S && p in S
    ensures forall z :: z in y.sub ==> z.sub <= y.sub && (z != y ==> z.parent != null && z.parent in y.sub)
  {
    hide Kid;
    hide Apart;
    if y.parent == p { RemovedKeeps(old(p.kids), w, p.kids, y); }
    if y == p {
      var c :| 0 <= c < |old(p.kids)| && old(p.kids)[c] == w && p.kids == old(p.kids)[..c] + old(p.kids)[c + 1..];
      FirstAfterCut(S, w, p, c);
    }
    forall z | z in y.sub ensures z.sub <= y.sub && (z != y ==> z.parent != null && z.parent in y.sub) {
      assert z in old(y.sub) && old(z.sub) <= old(y.sub);
    }
  }

  twostate lemma FirstAfterCut(new S: set<Window>, new w: Window, new p: Window, new c: nat)
    requires old(allocated(S)) && w in S && p in S && old(Linked(p, S))
    requires p.child == (if old(p.child) == w then old(w.next) else old(p.child))
    requires c < |old(p.kids)| && old(p.kids)[c] == w && p.kids == old(p.kids)[..c] + old(p.kids)[c + 1..]
    ensures p.child == (if p.kids == [] then null else p.kids[0])
  {
    assert old(Kid(p, c, S));
    if c > 0 { assert old(Apart(p.kids[0], p.kids[c], S)) && old(Kid(p, 0, S)); }
  }

  twostate lemma StillLinked(new S: set<Window>, new w: Window, new p: Window, new y: Window)
    requires old(allocated(S)) && y in S && Detached(S, w, p) && old(CutReady(S, w, p, y)) && old(CutReady(S, w, p, p))
    ensures Linked(y, S)
  {
    hide Kid;
    hide Apart;
    hide Removed;
    hide Detached;
    hide CutReady;
    OwnDetached(S, w, p, y);
    if y == p {
      KeptKids(S, w, p);
      KeptApart(S, w, p);
    } else {
      OtherKids(S, w, p, y);
    }
  }

  twostate lemma DetachedFlags(new S: set<Window>, new w: Window, new p: Window)
    requires old(allocated(S)) && Detached(S, w, p) && old(Flags(S, {w})) && old(RealParents(S)) && !w.win
    requires forall y :: y in S && y.parent != null ==> y.parent in S
    requires forall y :: y in S ==>
      y.win == old(y.win) && y.dirty == old(y.dirty) && y.dirty_subtree == old(y.dirty_subtree) &&
      y.shown == old(y.shown) &&
      y.geometry == old(y.geometry) && y.painted == old(y.painted) && y.redraws == old(y.redraws)
    ensures Flags(S, {w}) && RealParents(S)
  {
    forall y | y in S ensures Marks(y) {
      assert old(Marks(y));
    }
    forall y | y in S && y != w ensures Waits(y) {
      assert old(Waits(y));
    }
  }

  /** Without its parent, w need not wait. */
  lemma Unlinked(S: set<Window>, screen: Window, w: Window)
    requires Tree(S, screen) && w in S && w.parent == null && Flags(S, {w}) && RealParents(S) && screen.shown
    requires !w.is_screen && forall y :: y in S ==> Fits(y)
    ensures Inv(S, screen, {})
  {
  }

  lemma WaitsOnceDirty(S: set<Window>, screen: Window, w: Window)
    requires Tree(S, screen) && Realized(S) && Flags(S, {w}) && w in S && (w.ShouldRealize() ==> w.dirty)
    ensures Flags(S, {}) && (w.dirty ==> w.dirty_subtree)
  {
    KidList(S, screen, w);
    assert w.win ==> w.ShouldRealize() by { if w.win && w != screen { ParentRealized(S, screen, w); } }
    hide Tree;
  }

  lemma ScreenLeft(S: set<Window>, screen: Window)
    requires Inv(S, screen, {screen})
    ensures Inv(S, screen, {}) <==> Waits(screen)
  {
  }

  lemma TreeFacts(S: set<Window>, screen: Window)
    requires Tree(S, screen)
    ensures screen in S && screen.is_screen && screen.parent == null
    ensures forall w :: w in S ==> Linked(w, S)
    ensures forall w :: w in S && w.is_screen ==> w == screen
  {
  }

  lemma TreeOf(S: set<Window>, screen: Window)
    requires screen in S && screen.is_screen && screen.parent == null
    requires forall w :: w in S && w.is_screen ==> w == screen
    requires forall w :: w in S ==> Linked(w, S)
    ensures Tree(S, screen)
  {
  }

  lemma ScreenInside(S: set<Window>, screen: Window)
    requires Tree(S, screen)
    ensures screen in S && screen.sub <= S
  {
  }

  /** The resize handler of w moves only windows below it, and dirties windows of S. */
  ghost predicate ResizesBelow(w: Window, S: set<Window>)
    reads w`resizes, w`sub
  {
    forall i :: 0 <= i < |w.resizes| ==>
      match w.resizes[i]
      case Place(d, _) => d in w.sub && d != w
      case Repaint(d) => d in S
  }

  /** The redraw handler of w dirties windows of S. */
  ghost predicate Connected(w: Window, S: set<Window>)
    reads w`redraws
  {
    forall i :: 0 <= i < |w.redraws| ==> w.redraws[i] in S
  }

  ghost predicate AllConnected(part: set<Window>, S: set<Window>)
    reads part`redraws
  {
    forall y :: y in part ==> Connected(y, S)
  }

  ghost predicate AllBelow(part: set<Window>)
    reads part`redraws, part`sub
  {
    forall y :: y in part ==> RedrawsBelow(y)
  }

  lemma OwnHandler(w: Window, S: set<Window>)
    requires w in w.sub
    ensures AllConnected(w.sub, S) ==> Connected(w, S)
    ensures AllBelow(w.sub) ==> RedrawsBelow(w)
  {
  }

  lemma Unmarked(S: set<Window>, screen: Window, w: Window)
    requires Flags(S, {}) && w in S && !w.dirty_subtree
    ensures !w.dirty
  {
  }

  lemma Excuse(S: set<Window>, screen: Window, w: Window)
    requires Inv(S, screen, {})
    ensures Inv(S, screen, {w})
  {
    hide Tree;
    hide Realized;
  }

  /** The redraw handler of w dirties only w and windows below it. */
  ghost predicate RedrawsBelow(w: Window)
    reads w`redraws, w`sub
  {
    forall i :: 0 <= i < |w.redraws| ==> w.redraws[i] in w.sub
  }

  /** A window strictly below w has a smaller subtree. */
  lemma Below(S: set<Window>, screen: Window, w: Window, d: Window)
    requires Tree(S, screen) && w in S && d in w.sub && d != w
    ensures d in S && d.sub < w.sub && w !in d.sub && d.parent != w.parent
  {
    assert Linked(w, S);
    ParentLarger(S, screen, d);
    assert Linked(d, S);
    assert d.parent in w.sub && d.parent !in d.sub;
  }

  lemma RealizedParts(S: set<Window>)
    requires Realized(S)
    ensures RealParents(S) && forall y :: y in S ==> Fits(y)
  {
  }

  lemma RealizedAgain(S: set<Window>)
    requires RealParents(S) && forall y :: y in S ==> Fits(y)
    ensures Realized(S)
  {
  }

  lemma HiddenNeedNotWait(S: set<Window>, w: Window, exc: set<Window>)
    requires w in S && Flags(S, exc + {w}) && !w.shown && !w.win
    ensures Flags(S, exc)
  {
  }

  /** The screen on its own, shown but not yet realized. */
  lemma OneWindow(s: Window)
    requires s.is_screen && s.parent == null && s.child == null && s.kids == [] && s.sub == {s}
    requires s.shown && !s.win && !s.dirty && !s.dirty_subtree
    ensures Inv({s}, s, {s})
  {
  }

  lemma ScreenRealized(S: set<Window>, s: Window)
    requires Inv(S, s, {s}) && s in S && Waits(s) && (!s.win ==> Unrealizable(s))
    ensures Inv(S, s, {}) && (s.win <==> s.Sized())
  {
  }

  lemma NoneLeft(S: set<Window>, screen: Window, w: Window)
    requires Inv(S, screen, {w}) && w in S && Waits(w)
    ensures Inv(S, screen, {})
  {
  }

  lemma ShownIfItCan(S: set<Window>, screen: Window, w: Window)
    requires Inv(S, screen, {}) && w in S && w.shown && (!w.win ==> Unrealizable(w))
    ensures w.win <==> w.Sized() && (w.is_screen || (w.parent != null && w.parent.win))
  {
    if w.win && w != screen { ParentRealized(S, screen, w); }
  }

  lemma RealizedShould(S: set<Window>, screen: Window, w: Window)
    requires Inv(S, screen, {w}) && w in S && w.win
    ensures w.ShouldRealize()
  {
    if w != screen { ParentRealized(S, screen, w); }
  }

  lemma HiddenDone(S: set<Window>, screen: Window, w: Window)
    requires Tree(S, screen) && RealParents(S) && Flags(S, {w}) && screen.shown && !w.shown && !w.win
    requires forall y :: y in S ==> Fits(y)
    ensures Inv(S, screen, {})
  {
  }

  /** Nothing stops this window from being realized but its own state. */
  ghost predicate Unrealizable(w: Window)
    reads w, w.parent
  {
    !w.shown || !w.Sized() || (!w.is_screen && (w.parent == null || !w.parent.win))
  }

  /** Realizing a window under a realized parent keeps all ancestors realized. */
  lemma NowRealized(S: set<Window>, screen: Window, w: Window)
    requires Tree(S, screen) && w in S && w.win && w.shown && (w.is_screen || (w.parent != null && w.parent.win))
    requires Fits(w) && forall y :: y in S && y != w ==> Fits(y) && (y.win ==> y.parent != null || y.is_screen)
    requires forall a, y :: a in S && y in S && y in a.sub && y != w && y.win ==> a.win
    ensures Realized(S)
  {
    forall a | a in S && w in a.sub ensures a.win {
      assert Linked(a, S) && Linked(w, S);
      if a != w { ParentLarger(S, screen, w); }
    }
  }

  /** The children from position i on. */
  ghost function Rest(kids: seq<Window>, i: nat): (s: set<Window>)
  {
    set j | i <= j < |kids| :: kids[j]
  }

  lemma Parts(S: set<Window>, screen: Window, exc: set<Window>)
    requires Inv(S, screen, exc)
    ensures Tree(S, screen) && Realized(S) && Flags(S, exc) && screen.shown && SelfMarked(S)
    ensures forall y :: y in S ==> Marks(y)
    ensures forall y :: y in S && y !in exc ==> Waits(y)
    ensures forall y :: y in S ==> Fits(y)
  {
  }

  lemma Whole(S: set<Window>, screen: Window, exc: set<Window>)
    requires Tree(S, screen) && Realized(S) && Flags(S, exc) && screen.shown
    ensures Inv(S, screen, exc)
  {
  }

  lemma NotWaiting(w: Window)
    requires w.is_screen ==> w.parent == null
    ensures w.dirty || (!w.win && Unrealizable(w)) ==> Waits(w)
    ensures !w.win && (!w.ShouldRealize() || w.geometry.nlines <= 0 || w.geometry.ncols <= 0) ==> Unrealizable(w)
    ensures !w.win && !w.is_screen && (w.parent == null || !w.parent.win) ==> Unrealizable(w)
  {
  }

  /** w has just been realized and marked: only its children may not wait yet. */
  lemma Mapped(S: set<Window>, screen: Window, w: Window)
    requires Tree(S, screen) && w in S && SelfMarked(S) && w.dirty_subtree
    requires forall y :: y in S && y.parent != w ==> Marks(y)
    requires forall y :: y in S && y != w && y.parent != w ==> Waits(y)
    ensures Flags(S, {w} + Rest(w.kids, 0))
  {
  }

  lemma NoKidRealized(S: set<Window>, screen: Window, w: Window)
    requires Tree(S, screen) && Realized(S) && w in S && !w.win
    ensures forall i :: 0 <= i < |w.kids| ==> !w.kids[i].win && w.kids[i] != w
  {
    forall i | 0 <= i < |w.kids| ensures !w.kids[i].win && w.kids[i] != w {
      KidFacts(S, screen, w, i);
    }
  }

  lemma KidsAreAll(S: set<Window>, screen: Window, w: Window)
    requires Tree(S, screen) && w in S
    ensures forall y :: y in S && y.parent == w ==> y in w.kids && y in w.sub
  {
    forall y | y in S && y.parent == w ensures y in w.kids && y in w.sub {
      assert Linked(y, S);
      ParentLarger(S, screen, y);
    }
  }

  /** The ancestors of a realized window are realized, and it hangs from the screen. */
  ghost predicate RealParents(S: set<Window>)
    reads S`win, S`parent, S`sub
  {
    (forall w :: w in S && w.win ==> w.parent != null || w.is_screen) &&
    (forall a, w :: a in S && w in S && w in a.sub && w.win ==> a.win)
  }

  lemma NoneRealizedBelow(S: set<Window>, screen: Window, w: Window, exc: set<Window>)
    requires Tree(S, screen) && RealParents(S) && w in S && !w.win && Flags(S, exc + w.sub)
    ensures forall y :: y in w.sub ==> !y.win
    ensures Flags(S, exc + {w})
  {
  }

  lemma FlagsWeaken(S: set<Window>, exc: set<Window>, more: set<Window>)
    requires Flags(S, exc) && exc <= more
    ensures Flags(S, more)
  {
  }

  lemma KidList(S: set<Window>, screen: Window, w: Window)
    requires Tree(S, screen) && w in S
    ensures w.sub <= S && w in w.sub && (w.is_screen ==> w == screen && w.parent == null)
    ensures w.child == (if w.kids == [] then null else w.kids[0])
  {
  }

  /** One child in its place in the list. */
  lemma KidFacts(S: set<Window>, screen: Window, w: Window, i: nat)
    requires Tree(S, screen) && w in S && i < |w.kids|
    ensures var k := w.kids[i];
      k in S && k in k.sub && k.parent == w && k.sub < w.sub && w !in k.sub &&
      k.next == (if i + 1 < |w.kids| then w.kids[i + 1] else null) &&
      k.prev == (if i > 0 then w.kids[i - 1] else null) &&
      forall j :: 0 <= j < |w.kids| && j != i ==> w.kids[j] in S && w.kids[j] in w.kids[j].sub && w.kids[j].sub !! k.sub
  {
    assert Linked(w, S);
    assert Kid(w, i, S);
    forall j | 0 <= j < |w.kids| && j != i
      ensures w.kids[j] in S && w.kids[j] in w.kids[j].sub && w.kids[j].sub !! w.kids[i].sub
    {
      assert Kid(w, j, S);
      if j < i { assert Apart(w.kids[j], w.kids[i], S); } else { assert Apart(w.kids[i], w.kids[j], S); }
    }
  }

  /** Everything below w is w or below one of its children. */
  lemma {:induction false} BelowSomeKid(S: set<Window>, screen: Window, w: Window, y: Window) returns (i: nat)
    requires Tree(S, screen) && w in S && y in w.sub && y != w
    ensures i < |w.kids| && y in w.kids[i].sub
    decreases S - y.sub
  {
    assert Linked(w, S);
    assert Linked(y, S);
    ParentLarger(S, screen, y);
    if y.parent == w {
      i :| 0 <= i < |w.kids| && w.kids[i] == y;
      assert Kid(w, i, S);
    } else {
      i := BelowSomeKid(S, screen, w, y.parent);
      assert Kid(w, i, S);
      assert Linked(w.kids[i], S);
    }
  }

  lemma SubIsKids(S: set<Window>, screen: Window, w: Window)
    requires Tree(S, screen) && w in S
    requires forall j, y :: 0 <= j < |w.kids| && y in w.kids[j].sub ==> !y.win
    ensures forall y :: y in w.sub && y != w ==> !y.win
  {
    forall y | y in w.sub && y != w ensures !y.win {
      var i := BelowSomeKid(S, screen, w, y);
    }
  }

  /** Climbing from a window below `top`, other than top itself, stays below top. */
  lemma Above(S: set<Window>, screen: Window, x: Window, top: Window?)
    requires Tree(S, screen) && x in S
    ensures x.parent != null ==> x.parent in S
    ensures top != null && top in S && x in top.sub && x != top ==> x.parent != null && x.parent in top.sub
  {
  }
}

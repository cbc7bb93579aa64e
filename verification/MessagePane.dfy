/** Which message is shown at the top of the pane (functions.c), and which message of a
    view is nearest to an id (view.c). */
module MessagePane {

  datatype ScrollMode = Normal | Top | NearTop | Center | Paged | PagedCenter

  datatype Direction = NoDirection | Downwards | Upwards

  /** Lines taken by messages i up to, not including, j. */
  function Lines(numlines: seq<nat>, i: nat, j: nat): nat
    requires i <= j <= |numlines|
    decreases j - i
  {
    if i == j then 0 else numlines[i] + Lines(numlines, i + 1, j)
  }

  lemma {:induction false} LinesSplit(numlines: seq<nat>, i: nat, m: nat, j: nat)
    requires i <= m <= j <= |numlines|
    ensures Lines(numlines, i, j) == Lines(numlines, i, m) + Lines(numlines, m, j)
    decreases m - i
  {
    if i >= m {
    } else {
      LinesSplit(numlines, i + 1, m, j);
    }
  }

  lemma OneMessage(numlines: seq<nat>, i: nat)
    requires i < |numlines|
    ensures Lines(numlines, i, i + 1) == numlines[i] && Lines(numlines, i, i) == 0
  {
  }

  lemma {:induction false} LinesAtLeastCount(numlines: seq<nat>, i: nat, j: nat)
    requires i <= j <= |numlines| && forall m :: 0 <= m < |numlines| ==> numlines[m] >= 1
    ensures Lines(numlines, i, j) >= j - i
    decreases j - i
  {
    if i >= j {
    } else {
      LinesAtLeastCount(numlines, i + 1, j);
    }
  }

  /** Message t is the first one from which the messages before cur fit in `room`. */
  ghost predicate IsFirstFitting(numlines: seq<nat>, t: int, cur: nat, room: int)
    requires cur < |numlines|
  {
    0 <= t <= cur && (t < cur ==> Lines(numlines, t, cur) <= room) &&
    (t > 0 ==> Lines(numlines, t - 1, cur) > room)
  }

  /** With message t at the top, the current message starts on the pane. */
  ghost predicate OnScreen(numlines: seq<nat>, t: int, cur: nat, height: int)
    requires cur < |numlines|
  {
    0 <= t <= cur && Lines(numlines, t, cur) < height
  }

  /** ... and, if it fits at all, ends on it too. */
  ghost predicate WhollyVisible(numlines: seq<nat>, t: int, cur: nat, height: int)
    requires cur < |numlines|
  {
    0 <= t <= cur && (numlines[cur] <= height ==> Lines(numlines, t, cur + 1) <= height)
  }

  /** The message pane: the lengths of the messages of the view, and the scroll state. */
  class Pane {
    var numlines: seq<nat>
    var curmsg: int
    var topmsg: int
    var recwinlines: int
    var scrollmode: ScrollMode

    constructor (numlines: seq<nat>, curmsg: int, topmsg: int, recwinlines: int, scrollmode: ScrollMode)
      ensures this.numlines == numlines && this.curmsg == curmsg && this.topmsg == topmsg
      ensures this.recwinlines == recwinlines && this.scrollmode == scrollmode
    {
      this.numlines, this.curmsg, this.topmsg := numlines, curmsg, topmsg;
      this.recwinlines, this.scrollmode := recwinlines, scrollmode;
    }

    predicate Valid()
      reads this
    {
      0 <= curmsg < |numlines| && topmsg >= 0 && recwinlines >= 1 &&
      forall i :: 0 <= i < |numlines| ==> numlines[i] >= 1
    }

    /** `owl_function_calculate_topmsg`: in every scroll mode the current message stays on
        the pane; in normal and paged mode it is wholly visible whenever it fits. */
    method CalculateTopmsg(direction: Direction)
      requires Valid()
      modifies this`topmsg
      ensures Valid() && OnScreen(numlines, topmsg, curmsg, recwinlines)
      ensures scrollmode == Normal || scrollmode == Paged ==> WhollyVisible(numlines, topmsg, curmsg, recwinlines)
      ensures scrollmode == Top ==> topmsg == curmsg
      ensures scrollmode == NearTop ==>
        topmsg == if curmsg > 0 && numlines[curmsg - 1] < recwinlines / 2 then curmsg - 1 else curmsg
      ensures scrollmode == Center ==> IsFirstFitting(numlines, topmsg, curmsg, recwinlines / 2)
      ensures scrollmode == Paged || scrollmode == PagedCenter ==>
        PagedSpec(numlines, old(topmsg), curmsg, recwinlines, scrollmode == PagedCenter, topmsg)
      ensures scrollmode == Normal ==>
        NormalSpec(numlines, old(topmsg), curmsg, recwinlines, direction, topmsg)
    {
      var t := topmsg;
      match scrollmode {
        case Top => t := curmsg;
        case NearTop => t := TopmsgNearTop();
        case Center => t := TopmsgCenter();
        case Paged => t := TopmsgPaged(false);
        case PagedCenter => t := TopmsgPaged(true);
        case Normal => t := TopmsgNormal(direction);
      }
      topmsg := t;
    }

    method TopmsgNearTop() returns (t: int)
      requires Valid()
      ensures t == if curmsg > 0 && numlines[curmsg - 1] < recwinlines / 2 then curmsg - 1 else curmsg
      ensures OnScreen(numlines, t, curmsg, recwinlines)
    {
      if curmsg > 0 && numlines[curmsg - 1] < recwinlines / 2 {
        assert Lines(numlines, curmsg - 1, curmsg) == numlines[curmsg - 1] + Lines(numlines, curmsg, curmsg);
        return curmsg - 1;
      }
      return curmsg;
    }

    /** The current message ends up in the middle: as many messages above it as half the
        pane holds. */
    method TopmsgCenter() returns (last: int)
      requires Valid()
      ensures IsFirstFitting(numlines, last, curmsg, recwinlines / 2)
      ensures OnScreen(numlines, last, curmsg, recwinlines)
    {
      last := curmsg;
      var lines, i := 0, curmsg - 1;
      while i >= 0
        invariant -1 <= i < curmsg && last == i + 1
        invariant lines == Lines(numlines, last, curmsg) <= recwinlines / 2
      {
        lines := lines + numlines[i];
        if lines > recwinlines / 2 { break; }
        last := i;
        i := i - 1;
      }
    }

    method TopmsgPaged(center_on_page: bool) returns (t: int)
      requires Valid()
      ensures OnScreen(numlines, t, curmsg, recwinlines)
      ensures !center_on_page ==> WhollyVisible(numlines, t, curmsg, recwinlines)
      ensures PagedSpec(numlines, topmsg, curmsg, recwinlines, center_on_page, t)
    {
      if curmsg < topmsg {
        var last := BottomFill();
        if center_on_page {
          t := TopmsgCenter();
          return;
        }
        return last;
      }
      var savey := LinesFrom(topmsg);
      LinesSplit(numlines, topmsg, curmsg, curmsg + 1);
      if savey > recwinlines {
        if center_on_page {
          t := TopmsgCenter();
          return;
        }
        return curmsg;
      }
      return topmsg;
    }

    /** Scroll up so that the current message is at the bottom of a full page. */
    method BottomFill() returns (last: int)
      requires Valid()
      ensures IsFirstFilling(numlines, last, curmsg, recwinlines)
      ensures OnScreen(numlines, last, curmsg, recwinlines)
      ensures WhollyVisible(numlines, last, curmsg, recwinlines)
    {
      last := curmsg;
      var lines, i := 0, curmsg;
      while i >= 0
        invariant -1 <= i <= curmsg
        invariant last == if i == curmsg then curmsg else i + 1
        invariant lines == Lines(numlines, i + 1, curmsg + 1) <= recwinlines
      {
        lines := lines + numlines[i];
        if lines > recwinlines { break; }
        last := i;
        i := i - 1;
      }
      LinesSplit(numlines, last, curmsg, curmsg + 1);
    }

    /** Lines from the message t down to the end of the current message. */
    method LinesFrom(t: int) returns (savey: int)
      requires Valid() && 0 <= t <= curmsg
      ensures savey == Lines(numlines, t, curmsg + 1)
    {
      savey := 0;
      var i := t;
      while i <= curmsg
        invariant t <= i <= curmsg + 1
        invariant savey + Lines(numlines, i, curmsg + 1) == Lines(numlines, t, curmsg + 1)
      {
        savey := savey + numlines[i];
        i := i + 1;
      }
    }

    /** Without a current message nothing is scrolled. */
    method TopmsgNormal(direction: Direction) returns (t: int)
      requires curmsg >= 0 ==> Valid()
      ensures curmsg < 0 ==> t == topmsg
      ensures curmsg >= 0 ==> OnScreen(numlines, t, curmsg, recwinlines)
      ensures curmsg >= 0 ==> WhollyVisible(numlines, t, curmsg, recwinlines)
      ensures curmsg >= 0 ==> NormalSpec(numlines, topmsg, curmsg, recwinlines, direction, t)
    {
      if curmsg < 0 { return topmsg; }
      var top := topmsg;
      if curmsg < topmsg {
        top := TopmsgCenter();
      }
      t := Settle(top, direction);
      assert Start(numlines, topmsg, curmsg, recwinlines, top);
    }

    /** The rest of normal mode, once the top message is not below the current one. */
    method Settle(start: int, dir: Direction) returns (t: int)
      requires Valid() && 0 <= start <= curmsg
      ensures OnScreen(numlines, t, curmsg, recwinlines)
      ensures WhollyVisible(numlines, t, curmsg, recwinlines)
      ensures Settled(numlines, start, curmsg, recwinlines, dir, t)
    {
      hide Lines;
      hide ScrolledUp;
      hide ScrolledDown;
      var top, direction := start, dir;
      var savey := curmsg - top;
      OneMessage(numlines, curmsg);
      LinesAtLeastCount(numlines, top, curmsg + 1);
      if savey <= recwinlines {
        savey := LinesFrom(top);
      }
      if savey > recwinlines {
        top, savey, direction := curmsg, numlines[curmsg], Upwards;
      }
      assert savey == Lines(numlines, top, curmsg + 1);
      LinesSplit(numlines, top, curmsg, curmsg + 1);
      if direction != Downwards && savey < recwinlines / 4 {
        t := ScrollUp();
      } else if direction != Upwards && savey > recwinlines * 3 / 4 {
        t := ScrollDown(top);
      } else {
        t := top;
      }
    }

    /** Scroll up until more than half the pane lies above the end of the current message,
        or no further message fits. */
    method ScrollUp() returns (i: int)
      requires Valid() && numlines[curmsg] < recwinlines / 4
      ensures ScrolledUp(numlines, i, curmsg, recwinlines)
      ensures OnScreen(numlines, i, curmsg, recwinlines) && WhollyVisible(numlines, i, curmsg, recwinlines)
    {
      OneMessage(numlines, curmsg);
      var y := 0;
      i := curmsg;
      while i >= 0
        invariant -1 <= i <= curmsg
        invariant y == Lines(numlines, i + 1, curmsg + 1) <= recwinlines / 2
      {
        var foo := numlines[i];
        if foo + y >= recwinlines {
          i := i + 1;
          if i > curmsg { i := curmsg; }
          break;
        }
        y := y + foo;
        if y > recwinlines / 2 { break; }
        i := i - 1;
      }
      if i < 0 { i := 0; }
      LinesSplit(numlines, i, curmsg, curmsg + 1);
    }

    /** Scroll down until more than half the pane has gone off the top. */
    method ScrollDown(top: int) returns (t: int)
      requires Valid() && 0 <= top <= curmsg && Lines(numlines, top, curmsg + 1) <= recwinlines
      ensures ScrolledDown(numlines, top, t, curmsg, recwinlines)
      ensures WhollyVisible(numlines, t, curmsg, recwinlines) && OnScreen(numlines, t, curmsg, recwinlines)
    {
      hide Lines;
      OneMessage(numlines, top);
      var y, i := 0, top;
      while i < curmsg
        invariant top <= i <= curmsg
        invariant y == Lines(numlines, top, i) <= recwinlines / 2
      {
        LinesSplit(numlines, top, i, i + 1);
        OneMessage(numlines, i);
        y := y + numlines[i];
        if y > recwinlines / 2 { break; }
        i := i + 1;
      }
      if i == curmsg { i := i - 1; }
      t := i + 1;
      OneMessage(numlines, curmsg);
      if top < t { LinesSplit(numlines, top, t - 1, t); }
      LinesSplit(numlines, top, t, curmsg + 1);
      LinesSplit(numlines, t, curmsg, curmsg + 1);
    }
  }

  /** From t on, the messages up to and including cur fill at most the pane, and one more
      would not fit; a current message that is itself too long stands alone. */
  ghost predicate IsFirstFilling(numlines: seq<nat>, t: int, cur: nat, height: int)
    requires cur < |numlines|
  {
    0 <= t <= cur && (t < cur ==> Lines(numlines, t, cur + 1) <= height) &&
    (t > 0 ==> Lines(numlines, t - 1, cur + 1) > height || Lines(numlines, t, cur + 1) > height)
  }

  ghost predicate PagedSpec(numlines: seq<nat>, top: int, cur: nat, height: int, center: bool, t: int)
    requires cur < |numlines| && top >= 0
  {
    if cur >= top && Lines(numlines, top, cur + 1) <= height then t == top
    else if center then IsFirstFitting(numlines, t, cur, height / 2)
    else if cur < top then IsFirstFilling(numlines, t, cur, height)
    else t == cur
  }

  ghost predicate ScrolledUp(numlines: seq<nat>, t: int, cur: nat, height: int)
    requires cur < |numlines|
  {
    OnScreen(numlines, t, cur, height) && Lines(numlines, t, cur + 1) < height &&
    Lines(numlines, t + 1, cur + 1) <= height / 2 &&
    (t == 0 || Lines(numlines, t, cur + 1) > height / 2 || numlines[t - 1] + Lines(numlines, t, cur + 1) >= height)
  }

  ghost predicate ScrolledDown(numlines: seq<nat>, top: int, t: int, cur: nat, height: int)
    requires cur < |numlines| && 0 <= top <= cur
  {
    top <= t <= cur && (t < cur ==> Lines(numlines, top, t) > height / 2) &&
    (top < t ==> Lines(numlines, top, t - 1) <= height / 2)
  }

  /** Normal mode: from the old top (or the centred one, when the current message is above
      it), jump to the current message if it is off the bottom, and then scroll when it
      ends in the top quarter or the bottom quarter, depending on the direction. */
  ghost predicate NormalSpec(numlines: seq<nat>, top: int, cur: nat, height: int, dir: Direction, t: int)
    requires cur < |numlines| && top >= 0
  {
    exists start: int :: Start(numlines, top, cur, height, start) && Settled(numlines, start, cur, height, dir, t)
  }

  ghost predicate Start(numlines: seq<nat>, top: int, cur: nat, height: int, start: int)
    requires cur < |numlines| && top >= 0
  {
    if cur < top then IsFirstFitting(numlines, start, cur, height / 2) else start == top
  }

  ghost predicate Settled(numlines: seq<nat>, start: int, cur: nat, height: int, dir: Direction, t: int)
    requires cur < |numlines|
  {
    0 <= start <= cur &&
    var off := Lines(numlines, start, cur + 1) > height;
    var base := if off then cur else start;
    var direction := if off then Upwards else dir;
    var end := Lines(numlines, base, cur + 1);
    if direction != Downwards && end < height / 4 then ScrolledUp(numlines, t, cur, height)
    else if direction != Upwards && end > height * 3 / 4 then ScrolledDown(numlines, base, t, cur, height)
    else t == base
  }

  // ------------------------------------------------------------------ nearest id

  function Distance(a: int, b: int): int { if a < b then b - a else a - b }

  ghost predicate Increasing(ids: seq<int>) { forall i, j :: 0 <= i < j < |ids| ==> ids[i] < ids[j] }

  /** `owl_view_get_nearest_to_msgid`. The test `mid + 1 < max` looks as if it could pass
      over the last message; it cannot, because the search never stops just before it. */
  method NearestToMsgid(ids: seq<int>, targetid: int) returns (mid: int)
    requires Increasing(ids)
    ensures ids == [] ==> mid == 0
    ensures ids != [] ==> 0 <= mid < |ids|
    ensures forall j :: 0 <= j < |ids| ==> Distance(ids[mid], targetid) <= Distance(ids[j], targetid)
  {
    var first, max, curid := 0, |ids| - 1, 0;
    var last := max;
    mid := 0;
    while first <= last
      invariant 0 <= first <= last + 1 && last <= max
      invariant forall j :: 0 <= j < first ==> ids[j] < targetid
      invariant forall j :: last < j < |ids| ==> ids[j] > targetid
      invariant ids != [] ==> 0 <= mid < |ids|
      invariant ids == [] ==> mid == 0
      invariant first > last && ids != [] ==> curid == ids[mid] != targetid && (mid == first - 1 || mid == last + 1)
      invariant last == max - 1 ==> mid == first == max
    {
      mid := (first + last) / 2;
      curid := ids[mid];
      if curid == targetid {
        return;
      } else if curid < targetid {
        first := mid + 1;
      } else {
        last := mid - 1;
      }
    }
    var bestdist := Distance(targetid, curid);
    if curid < targetid && mid + 1 < max {
      curid := ids[mid + 1];
      mid := if bestdist < Distance(targetid, curid) then mid else mid + 1;
    } else if curid > targetid && mid - 1 >= 0 {
      curid := ids[mid - 1];
      mid := if bestdist < Distance(targetid, curid) then mid else mid - 1;
    }
  }
}

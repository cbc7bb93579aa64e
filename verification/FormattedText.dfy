/** Formatted text (fmtext.c): style changes are characters of Unicode plane 16 in the
    text itself. What a text means is the row of styled cells it renders to. */
module FormattedText {

  /** A code point. */
  type Rune = bv32

  const NEWLINE: Rune := 10
  const TAB: Rune := 9
  const BLANK: Rune := 32

  const UC_ATTR: Rune := 0x100800
  const UC_ATTR_MASK: Rune := 0x7
  const UC_COLOR_BASE: Rune := 0x100400
  const UC_FGCOLOR: Rune := 0x100400
  const UC_BGCOLOR: Rune := 0x100600
  const UC_FGDEFAULT: Rune := 0x100500
  const UC_BGDEFAULT: Rune := 0x100700
  const UC_COLOR_MASK: Rune := 0xFF
  const UC_ALLCOLOR_MASK: Rune := 0x3FF

  datatype Color = Default | Number(n: bv32)

  datatype Style = Style(attr: bv32, fg: Color, bg: Color)

  const NORMAL := Style(0, Default, Default)

  datatype Cell = Cell(ch: Rune, style: Style)

  /** `owl_fmtext_is_format_char`. */
  predicate IsFormat(c: Rune) {
    c & !UC_ATTR_MASK == UC_ATTR || c & !UC_ALLCOLOR_MASK == UC_COLOR_BASE
  }

  /** The code points whose UTF-8 form starts with byte 0xF4. */
  predicate InPlane16(c: Rune) { 0x100000 <= c <= 0x10FFFF }

  /** `_owl_fmtext_update_attributes`. */
  function Update(st: Style, c: Rune): Style {
    if c & UC_ATTR == UC_ATTR then st.(attr := c & UC_ATTR_MASK)
    else if c & UC_COLOR_BASE == UC_COLOR_BASE then
      if c & UC_BGCOLOR == UC_BGCOLOR then
        st.(bg := if c == UC_BGDEFAULT then Default else Number(c & UC_COLOR_MASK))
      else st.(fg := if c == UC_FGDEFAULT then Default else Number(c & UC_COLOR_MASK))
    else st
  }

  /** The style characters: 256 foreground colours and the default one, 256 background
      colours and the default one, and the attribute sets. */
  lemma StyleCharacters(st: Style, n: bv32)
    ensures n <= 0xFF ==> IsFormat(0x100400 | n) && IsFormat(0x100600 | n)
    ensures n <= 0xFF ==> Update(st, 0x100400 | n) == st.(fg := Number(n))
    ensures n <= 0xFF ==> Update(st, 0x100600 | n) == st.(bg := Number(n))
    ensures IsFormat(0x100500) && Update(st, 0x100500) == st.(fg := Default)
    ensures IsFormat(0x100700) && Update(st, 0x100700) == st.(bg := Default)
    ensures n <= 7 ==> IsFormat(0x100800 | n) && Update(st, 0x100800 | n) == st.(attr := n)
  {
  }

  /** The cells a text renders to when it starts in style st. */
  function Render(st: Style, text: seq<Rune>): seq<Cell>
    decreases |text|
  {
    if text == [] then []
    else if IsFormat(text[0]) then Render(Update(st, text[0]), text[1..])
    else [Cell(text[0], st)] + Render(st, text[1..])
  }

  /** The style in force after the text. */
  function EndStyle(st: Style, text: seq<Rune>): Style
    decreases |text|
  {
    if text == [] then st
    else EndStyle(if IsFormat(text[0]) then Update(st, text[0]) else st, text[1..])
  }

  /** A format character, or one in which the code sees no style at all. */
  predicate Unmistakable(c: Rune) { IsFormat(c) || c & 0xC00 == 0 }

  /** Every plane-16 character is unmistakable. */
  predicate Clean(text: seq<Rune>) { forall i :: 0 <= i < |text| ==> InPlane16(text[i]) ==> Unmistakable(text[i]) }

  lemma {:induction false} RenderConcat(st: Style, a: seq<Rune>, b: seq<Rune>)
    ensures Render(st, a + b) == Render(st, a) + Render(EndStyle(st, a), b)
    ensures EndStyle(st, a + b) == EndStyle(EndStyle(st, a), b)
    decreases |a|
  {
    hide IsFormat;
    hide Update;
    if a == [] {
      assert a + b == b;
    } else {
      assert (a + b)[1..] == a[1..] + b;
      RenderConcat(if IsFormat(a[0]) then Update(st, a[0]) else st, a[1..], b);
    }
  }

  // ------------------------------------------------------- styles as characters

  predicate ValidStyle(st: Style) {
    st.attr <= 7 && (st.fg.Number? ==> st.fg.n <= 0xFF) && (st.bg.Number? ==> st.bg.n <= 0xFF)
  }

  lemma UpdateIsValid(st: Style, c: Rune)
    requires ValidStyle(st)
    ensures ValidStyle(Update(st, c))
  {
  }

  lemma {:induction false} EndStyleIsValid(st: Style, text: seq<Rune>)
    requires ValidStyle(st)
    ensures ValidStyle(EndStyle(st, text))
    decreases |text|
  {
    hide IsFormat;
    hide Update;
    hide ValidStyle;
    if text == [] {
    } else {
      UpdateIsValid(st, text[0]);
      EndStyleIsValid(if IsFormat(text[0]) then Update(st, text[0]) else st, text[1..]);
    }
  }

  function AttrChars(st: Style): seq<Rune> { if st.attr != 0 then [UC_ATTR | st.attr] else [] }

  function FgChars(st: Style): seq<Rune> { if st.fg.Number? then [UC_FGCOLOR | st.fg.n] else [] }

  function BgChars(st: Style): seq<Rune> { if st.bg.Number? then [UC_BGCOLOR | st.bg.n] else [] }

  /** The characters that switch from the normal style to st. */
  function Switch(st: Style): seq<Rune> { AttrChars(st) + FgChars(st) + BgChars(st) }

  /** The characters that switch from any style back to the normal one. */
  const RESET: seq<Rune> := [UC_BGDEFAULT, UC_FGDEFAULT, UC_ATTR]

  lemma ResetChars(st: Style)
    ensures IsFormat(UC_BGDEFAULT) && Update(st, UC_BGDEFAULT) == st.(bg := Default)
    ensures IsFormat(UC_FGDEFAULT) && Update(st, UC_FGDEFAULT) == st.(fg := Default)
    ensures IsFormat(UC_ATTR) && Update(st, UC_ATTR) == st.(attr := 0)
  {
  }

  lemma FormatChar(st: Style, c: Rune)
    requires IsFormat(c)
    ensures Render(st, [c]) == [] && EndStyle(st, [c]) == Update(st, c) && Clean([c])
  {
  }

  /** One optional format character is applied, and shows no cell. */
  lemma OptionalChar(st: Style, chars: seq<Rune>, c: Rune, b: bool)
    requires chars == (if b then [c] else []) && (b ==> IsFormat(c))
    ensures Render(st, chars) == [] && EndStyle(st, chars) == (if b then Update(st, c) else st) && Clean(chars)
  {
  }

  lemma SwitchWorks(st: Style)
    requires ValidStyle(st)
    ensures Render(NORMAL, Switch(st)) == [] && EndStyle(NORMAL, Switch(st)) == st && Clean(Switch(st))
  {
    var s1 := NORMAL.(attr := st.attr);
    var s2 := s1.(fg := st.fg);
    AttrSwitches(st);
    FgSwitches(s1, st);
    BgSwitches(s2, st);
    hide *;
    JoinFormats(NORMAL, AttrChars(st), FgChars(st));
    JoinFormats(NORMAL, AttrChars(st) + FgChars(st), BgChars(st));
    SwitchParts(st);
  }

  lemma SwitchParts(st: Style)
    ensures Switch(st) == AttrChars(st) + FgChars(st) + BgChars(st)
  {
  }

  /** Texts of format characters put together show nothing and compose their effects. */
  lemma JoinFormats(st: Style, a: seq<Rune>, b: seq<Rune>)
    requires Render(st, a) == [] && Render(EndStyle(st, a), b) == [] && Clean(a) && Clean(b)
    ensures Render(st, a + b) == [] && EndStyle(st, a + b) == EndStyle(EndStyle(st, a), b) && Clean(a + b)
  {
    hide IsFormat;
    hide Update;
    RenderConcat(st, a, b);
    CleanConcat(a, b);
  }

  /** The style asked for is the style reached exactly if its colours are below 256 and its
      attributes are bits the code knows. */
  lemma StyleReached(st: Style)
    ensures EndStyle(NORMAL, Switch(st)) == st <==> ValidStyle(st)
  {
    if ValidStyle(st) {
      SwitchWorks(st);
    } else {
      EndStyleIsValid(NORMAL, Switch(st));
    }
  }

  /** Colour 256 is the default colour again. */
  lemma Color256IsDefault()
    ensures EndStyle(NORMAL, Switch(Style(0, Number(256), Default))) == NORMAL
    ensures EndStyle(NORMAL, Switch(Style(0, Default, Number(256)))) == NORMAL
  {
    var fore, back := Style(0, Number(256), Default), Style(0, Default, Number(256));
    assert Switch(fore) == [UC_FGDEFAULT] && Switch(back) == [UC_BGDEFAULT];
    ResetChars(NORMAL);
    FormatChar(NORMAL, UC_FGDEFAULT);
    FormatChar(NORMAL, UC_BGDEFAULT);
  }

  lemma AttrSwitches(st: Style)
    requires ValidStyle(st)
    ensures var cs := AttrChars(st);
            Render(NORMAL, cs) == [] && EndStyle(NORMAL, cs) == NORMAL.(attr := st.attr) && Clean(cs)
  {
  }

  lemma FgSwitches(s: Style, st: Style)
    requires ValidStyle(st) && s.fg == Default
    ensures var cs := FgChars(st);
            Render(s, cs) == [] && EndStyle(s, cs) == s.(fg := st.fg) && Clean(cs)
  {
  }

  lemma BgSwitches(s: Style, st: Style)
    requires ValidStyle(st) && s.bg == Default
    ensures var cs := BgChars(st);
            Render(s, cs) == [] && EndStyle(s, cs) == s.(bg := st.bg) && Clean(cs)
  {
  }

  lemma ResetWorks(st: Style)
    ensures Render(st, RESET) == [] && EndStyle(st, RESET) == NORMAL && Clean(RESET)
  {
    ResetChars(st);
    var s1 := st.(bg := Default);
    var s2 := s1.(fg := Default);
    ResetChars(s1);
    ResetChars(s2);
    hide IsFormat;
    hide Update;
    FormatChar(st, UC_BGDEFAULT);
    FormatChar(s1, UC_FGDEFAULT);
    FormatChar(s2, UC_ATTR);
    RenderConcat(st, [UC_BGDEFAULT], [UC_FGDEFAULT] + [UC_ATTR]);
    RenderConcat(s1, [UC_FGDEFAULT], [UC_ATTR]);
    assert RESET == [UC_BGDEFAULT] + ([UC_FGDEFAULT] + [UC_ATTR]);
  }

  /** The style `_owl_fmtext_scan_attributes` arrives at: it applies every plane-16
      character without asking whether it is a format character. */
  function Scan(st: Style, text: seq<Rune>): Style
    decreases |text|
  {
    if text == [] then st else Scan(if InPlane16(text[0]) then Update(st, text[0]) else st, text[1..])
  }

  lemma OneScanned(st: Style, c: Rune)
    requires InPlane16(c) ==> Unmistakable(c)
    ensures (if InPlane16(c) then Update(st, c) else st) == (if IsFormat(c) then Update(st, c) else st)
  {
  }

  lemma {:induction false} ScanIsEndStyle(st: Style, text: seq<Rune>)
    requires Clean(text)
    ensures Scan(st, text) == EndStyle(st, text)
    decreases |text|
  {
    hide IsFormat;
    hide Update;
    hide InPlane16;
    hide Unmistakable;
    if text == [] {
    } else {
      OneScanned(st, text[0]);
      ScanIsEndStyle(if IsFormat(text[0]) then Update(st, text[0]) else st, text[1..]);
    }
  }

  /** Which plane-16 characters the scan reads right, in every style: exactly the
      unmistakable ones. Any other is shown as text, and yet changes the style for it. */
  lemma ScanReadsUnmistakable(c: Rune)
    requires InPlane16(c)
    ensures Unmistakable(c) <==> forall st :: ValidStyle(st) ==> Scan(st, [c]) == EndStyle(st, [c])
  {
    if Unmistakable(c) {
      forall st | ValidStyle(st) ensures Scan(st, [c]) == EndStyle(st, [c]) {
        OneScanned(st, c);
      }
    } else {
      MistakenStyle(c);
    }
  }

  /** A style that a character the scan mistakes for a style change changes. */
  lemma MistakenStyle(c: Rune)
    requires InPlane16(c) && !Unmistakable(c)
    ensures exists st :: ValidStyle(st) && Scan(st, [c]) != EndStyle(st, [c])
  {
    var high, low := Style(7, Number(255), Number(255)), NORMAL;
    assert Update(high, c) != high || Update(low, c) != low;
    assert ValidStyle(high) && ValidStyle(low);
    OneCharacter(high, c);
    OneCharacter(low, c);
  }

  lemma OneCharacter(st: Style, c: Rune)
    requires InPlane16(c) && !IsFormat(c)
    ensures Scan(st, [c]) == Update(st, c) && EndStyle(st, [c]) == st
  {
    hide Update;
    assert [c][1..] == [];
  }

  /** One of them. */
  lemma ScanMisreadsOtherPlane16(c: Rune)
    requires c == 0x100C00
    ensures InPlane16(c) && !Unmistakable(c)
    ensures Scan(Style(1, Default, Default), [c]) != EndStyle(Style(1, Default, Default), [c])
  {
  }

  // -------------------------------------------------------------------- slicing

  /** What `_owl_fmtext_append_fmtext` appends. */
  function Slice(text: seq<Rune>, start: nat, stop: nat): seq<Rune>
    requires start <= stop <= |text|
  {
    Switch(Scan(NORMAL, text[..start])) + text[start..stop] + RESET
  }

  /** The cells of text[start..stop], in the styles they have in the whole text. */
  function SliceCells(text: seq<Rune>, start: nat, stop: nat): seq<Cell>
    requires start <= stop <= |text|
  {
    Render(EndStyle(NORMAL, text[..start]), text[start..stop])
  }

  /** A text that can be appended to: it is clean and leaves the normal style in force. */
  ghost predicate Settled(out: seq<Rune>) { Clean(out) && EndStyle(NORMAL, out) == NORMAL }

  lemma CleanConcat(a: seq<Rune>, b: seq<Rune>)
    ensures Clean(a + b) <==> Clean(a) && Clean(b)
  {
    hide Unmistakable;
    hide InPlane16;
    assert forall i :: 0 <= i < |b| ==> (a + b)[|a| + i] == b[i];
    assert forall i :: 0 <= i < |a| ==> (a + b)[i] == a[i];
  }

  lemma CleanPart(text: seq<Rune>, i: nat, j: nat)
    requires Clean(text) && i <= j <= |text|
    ensures Clean(text[i..j])
  {
  }

  /** A slice shows exactly the cells of its range, in their own styles, and leaves the
      normal style in force again. */
  lemma SliceRenders(text: seq<Rune>, start: nat, stop: nat)
    requires start <= stop <= |text| && Clean(text)
    ensures Render(NORMAL, Slice(text, start, stop)) == SliceCells(text, start, stop)
    ensures Settled(Slice(text, start, stop))
  {
    hide IsFormat;
    hide Update;
    hide InPlane16;
    var st := EndStyle(NORMAL, text[..start]);
    CleanPart(text, 0, start);
    assert text[0..start] == text[..start];
    ScanIsEndStyle(NORMAL, text[..start]);
    EndStyleIsValid(NORMAL, text[..start]);
    SwitchWorks(st);
    var body := text[start..stop];
    CleanPart(text, start, stop);
    ResetWorks(EndStyle(st, body));
    RenderConcat(NORMAL, Switch(st) + body, RESET);
    RenderConcat(NORMAL, Switch(st), body);
    CleanConcat(Switch(st), body);
    CleanConcat(Switch(st) + body, RESET);
  }

  /** The cells of a whole text are those of its parts, in order. */
  lemma SlicesJoin(text: seq<Rune>, i: nat, j: nat, k: nat)
    requires i <= j <= k <= |text|
    ensures SliceCells(text, i, k) == SliceCells(text, i, j) + SliceCells(text, j, k)
  {
    hide IsFormat;
    hide Update;
    RenderConcat(EndStyle(NORMAL, text[..i]), text[i..j], text[j..k]);
    assert text[i..k] == text[i..j] + text[j..k];
    RenderConcat(NORMAL, text[..i], text[i..j]);
    assert text[..j] == text[..i] + text[i..j];
  }

  lemma WholeSlice(text: seq<Rune>)
    ensures SliceCells(text, 0, |text|) == Render(NORMAL, text)
  {
    assert text[..0] == [] && text[0..|text|] == text;
  }

  lemma AppendSettled(out: seq<Rune>, more: seq<Rune>)
    requires Settled(out)
    ensures Settled(out + more) <==> Settled(more)
    ensures Render(NORMAL, out + more) == Render(NORMAL, out) + Render(NORMAL, more)
  {
    hide IsFormat;
    hide Clean;
    hide Update;
    RenderConcat(NORMAL, out, more);
    CleanConcat(out, more);
  }

  /** A formatted text, `owl_fmtext`. */
  class Fmtext {
    var buff: seq<Rune>

    constructor ()
      ensures buff == []
    {
      buff := [];
    }

    /** What the text shows. */
    ghost function Cells(): seq<Cell>
      reads this
    {
      Render(NORMAL, buff)
    }

    /** Fit to be appended to. */
    ghost predicate Valid()
      reads this
    {
      Settled(buff)
    }

    method PutAttr(st: Style)
      modifies this
      ensures buff == old(buff) + AttrChars(st)
    {
      if st.attr != 0 { buff := buff + [UC_ATTR | st.attr]; }
    }

    method PutColors(st: Style)
      modifies this
      ensures buff == old(buff) + FgChars(st) + BgChars(st)
    {
      ghost var before := buff;
      if st.fg.Number? { buff := buff + [UC_FGCOLOR | st.fg.n]; }
      ghost var middle := buff;
      assert middle == before + FgChars(st);
      if st.bg.Number? { buff := buff + [UC_BGCOLOR | st.bg.n]; }
      assert buff == middle + BgChars(st);
    }

    /** The style characters both appending functions put first. */
    method PutSwitch(st: Style)
      modifies this
      ensures buff == old(buff) + Switch(st)
    {
      hide AttrChars;
      hide FgChars;
      hide BgChars;
      PutAttr(st);
      PutColors(st);
      assert buff == old(buff) + (AttrChars(st) + FgChars(st) + BgChars(st));
    }

    /** The resets `owl_fmtext_append_attr` puts last. */
    method PutUnswitch(st: Style)
      modifies this
      ensures buff == old(buff) + Unswitch(st)
    {
      if st.bg.Number? { buff := buff + [UC_BGDEFAULT]; }
      if st.fg.Number? { buff := buff + [UC_FGDEFAULT]; }
      if st.attr != 0 { buff := buff + [UC_ATTR]; }
    }

    /** `owl_fmtext_append_attr`. The text is fit to be appended to again exactly if the
        style characters in it, if any, set nothing that is not reset at the end. */
    method AppendAttr(text: seq<Rune>, attr: bv32, fgcolor: Color, bgcolor: Color)
      requires Valid() && ValidStyle(Style(attr, fgcolor, bgcolor))
      modifies this
      ensures Cells() == old(Cells()) + Render(Style(attr, fgcolor, bgcolor), text)
      ensures Valid() <==> Clean(text) && Undone(Style(attr, fgcolor, bgcolor), text)
    {
      hide IsFormat;
      hide Update;
      hide InPlane16;
      hide Render;
      hide EndStyle;
      hide Settled;
      hide Clean;
      hide Switch;
      hide Unswitch;
      ghost var before := buff;
      var st := Style(attr, fgcolor, bgcolor);
      PutSwitch(st);
      buff := buff + text;
      PutUnswitch(st);
      assert buff == before + (Switch(st) + text + Unswitch(st));
      StyledText(st, text);
      Appended(before, Switch(st) + text + Unswitch(st), this);
    }

    /** `owl_fmtext_append_normal`. */
    method AppendNormal(text: seq<Rune>)
      requires Valid()
      modifies this
      ensures Cells() == old(Cells()) + Render(NORMAL, text)
      ensures Valid() <==> Settled(text)
    {
      hide IsFormat;
      AppendAttr(text, 0, Default, Default);
    }

    /** `_owl_fmtext_scan_attributes`: every occurrence of the lead byte counts. */
    method ScanAttributes(start: nat) returns (st: Style)
      requires start <= |buff|
      ensures st == Scan(NORMAL, buff[..start])
    {
      hide InPlane16;
      hide Update;
      st := NORMAL;
      var p := 0;
      while p < start
        invariant 0 <= p <= start
        invariant Scan(st, buff[p..start]) == Scan(NORMAL, buff[..start])
      {
        assert buff[p..start][1..] == buff[p + 1..start];
        if InPlane16(buff[p]) { st := Update(st, buff[p]); }
        p := p + 1;
      }
    }

    /** `_owl_fmtext_append_fmtext`: appends exactly the cells of a range of another
        text. */
    method AppendFmtext(inp: Fmtext, start: nat, stop: nat)
      requires Valid() && inp != this && start <= stop <= |inp.buff| && Clean(inp.buff)
      modifies this
      ensures Valid() && Cells() == old(Cells()) + SliceCells(inp.buff, start, stop)
    {
      hide IsFormat;
      hide Update;
      hide InPlane16;
      hide Render;
      hide EndStyle;
      hide Settled;
      hide Clean;
      hide Switch;
      hide Slice;
      hide SliceCells;
      ghost var before := buff;
      var st := inp.ScanAttributes(start);
      PutSwitch(st);
      buff := buff + inp.buff[start..stop];
      buff := buff + [UC_BGDEFAULT];
      buff := buff + [UC_FGDEFAULT];
      buff := buff + [UC_ATTR];
      SliceParts(inp.buff, start, stop, before, buff);
      SliceRenders(inp.buff, start, stop);
      Appended(before, Slice(inp.buff, start, stop), this);
    }

    /** `owl_fmtext_append_spaces`. */
    method AppendSpaces(nspaces: int)
      requires Valid()
      modifies this
      ensures Valid() && Cells() == old(Cells()) + Blanks(nspaces)
    {
      BlankIsPlain();
      hide IsFormat;
      var i := 0;
      assert Cells() == old(Cells()) + Blanks(0);
      while i < nspaces
        invariant 0 <= i && (if nspaces >= 0 then i <= nspaces else i == 0) && Valid()
        invariant Cells() == old(Cells()) + Blanks(i)
      {
        AppendNormal([BLANK]);
        BlanksSnoc(i);
        i := i + 1;
      }
    }
  }

  lemma SliceParts(text: seq<Rune>, start: nat, stop: nat, before: seq<Rune>, after: seq<Rune>)
    requires start <= stop <= |text|
    requires after == before + Switch(Scan(NORMAL, text[..start])) + text[start..stop]
                      + [UC_BGDEFAULT] + [UC_FGDEFAULT] + [UC_ATTR]
    ensures after == before + Slice(text, start, stop)
  {
  }

  lemma Appended(before: seq<Rune>, more: seq<Rune>, f: Fmtext)
    requires Settled(before) && f.buff == before + more
    ensures (f.Valid() <==> Settled(more)) && f.Cells() == Render(NORMAL, before) + Render(NORMAL, more)
  {
    hide Settled;
    AppendSettled(before, more);
  }

  /** Cells for n normal blanks. */
  function Blanks(n: int): seq<Cell> { if n <= 0 then [] else [Cell(BLANK, NORMAL)] + Blanks(n - 1) }

  lemma {:induction false} BlanksSnoc(n: nat)
    ensures Blanks(n + 1) == Blanks(n) + [Cell(BLANK, NORMAL)]
  {
    if n == 0 {
    } else {
      BlanksSnoc(n - 1);
    }
  }

  lemma BlankIsPlain()
    ensures !IsFormat(BLANK) && !InPlane16(BLANK) && Render(NORMAL, [BLANK]) == [Cell(BLANK, NORMAL)]
    ensures !IsFormat(NEWLINE) && !InPlane16(NEWLINE) && Render(NORMAL, [NEWLINE]) == [Cell(NEWLINE, NORMAL)]
    ensures Settled([BLANK]) && Settled([NEWLINE])
    ensures !IsFormat(TAB) && !InPlane16(TAB)
  {
  }

  /** The resets that undo Switch(st). */
  function Unswitch(st: Style): seq<Rune> {
    (if st.bg.Number? then [UC_BGDEFAULT] else []) + (if st.fg.Number? then [UC_FGDEFAULT] else []) +
    (if st.attr != 0 then [UC_ATTR] else [])
  }

  /** What st does not set, the text does not set either. */
  predicate Undone(st: Style, text: seq<Rune>) {
    var s := EndStyle(st, text);
    (st.attr == 0 ==> s.attr == 0) && (st.fg == Default ==> s.fg == Default) && (st.bg == Default ==> s.bg == Default)
  }

  lemma UnswitchWorks(st: Style, s: Style)
    ensures Render(s, Unswitch(st)) == [] && Clean(Unswitch(st))
    ensures EndStyle(s, Unswitch(st)) ==
      Style(if st.attr != 0 then 0 else s.attr, if st.fg.Number? then Default else s.fg,
            if st.bg.Number? then Default else s.bg)
  {
    var b := if st.bg.Number? then [UC_BGDEFAULT] else [];
    var f := if st.fg.Number? then [UC_FGDEFAULT] else [];
    var a := if st.attr != 0 then [UC_ATTR] else [];
    var s1 := if st.bg.Number? then s.(bg := Default) else s;
    var s2 := if st.fg.Number? then s1.(fg := Default) else s1;
    ResetChars(s);
    ResetChars(s1);
    ResetChars(s2);
    hide IsFormat;
    hide Update;
    OptionalChar(s, b, UC_BGDEFAULT, st.bg.Number?);
    OptionalChar(s1, f, UC_FGDEFAULT, st.fg.Number?);
    OptionalChar(s2, a, UC_ATTR, st.attr != 0);
    CleanConcat(b, f);
    CleanConcat(b + f, a);
    hide Clean;
    RenderConcat(s, b + f, a);
    RenderConcat(s, b, f);
  }

  /** Appended in style st, the text is shown in it. Nothing is left behind exactly if the
      text is clean and sets nothing that st does not set. */
  lemma StyledText(st: Style, text: seq<Rune>)
    requires ValidStyle(st)
    ensures var all := Switch(st) + text + Unswitch(st);
            Render(NORMAL, all) == Render(st, text) && (Settled(all) <==> Clean(text) && Undone(st, text))
  {
    hide IsFormat;
    hide Update;
    hide ValidStyle;
    hide Clean;
    SwitchWorks(st);
    UnswitchWorks(st, EndStyle(st, text));
    RenderConcat(NORMAL, Switch(st) + text, Unswitch(st));
    RenderConcat(NORMAL, Switch(st), text);
    CleanConcat(Switch(st), text);
    CleanConcat(Switch(st) + text, Unswitch(st));
  }
}

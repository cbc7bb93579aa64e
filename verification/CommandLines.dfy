/** What the tokenizer and `skiptokens` (util.c) do to a line, said in terms of its text: how
    lines are spelled, and where skipping leading arguments stops. */
module CommandLines {
  import opened Strings
  import opened Quoting

  // ------------------------------------------------------------- how a line is spelled

  /** A stretch of an argument: bare characters, or text between two of the same quotes. */
  datatype Segment = Bare(text: string) | Inside(quote: char, text: string)

  /** An argument with the blanks before it and the character that ends it. */
  datatype Word = Word(lead: string, segments: seq<Segment>, stop: char)

  /** How a line ends: with blanks, with an argument, or inside an open quote. */
  datatype Ending =
    | Blanks(lead: string)
    | Last(lead: string, segments: seq<Segment>)
    | OpenQuote(lead: string, segments: seq<Segment>, quote: char, text: string)

  predicate IsGap(s: string) { forall i :: 0 <= i < |s| ==> s[i] == ' ' || s[i] == '\t' }

  predicate IsSegment(s: Segment) {
    match s
    case Bare(text) => text != "" && NoneNasty(text)
    case Inside(quote, text) => IsQuote(quote) && quote !in text
  }

  predicate AreSegments(s: seq<Segment>) { forall i :: 0 <= i < |s| ==> IsSegment(s[i]) }

  /** Nothing but a newline ends an argument that has not begun. */
  predicate IsWord(w: Word) {
    IsGap(w.lead) && AreSegments(w.segments) &&
    (w.stop == '\n' || (w.segments != [] && (w.stop == ' ' || w.stop == '\t')))
  }

  predicate IsEnding(e: Ending) {
    IsGap(e.lead) &&
    match e
    case Blanks(_) => true
    case Last(_, segments) => segments != [] && AreSegments(segments)
    case OpenQuote(_, segments, quote, text) => AreSegments(segments) && IsQuote(quote) && quote !in text
  }

  function SpellSegment(s: Segment): string {
    match s
    case Bare(text) => text
    case Inside(quote, text) => [quote] + text + [quote]
  }

  function SpellSegments(s: seq<Segment>): string {
    if s == [] then "" else SpellSegment(s[0]) + SpellSegments(s[1..])
  }

  function SpellWords(words: seq<Word>): string {
    if words == [] then ""
    else words[0].lead + SpellSegments(words[0].segments) + [words[0].stop] + SpellWords(words[1..])
  }

  function SpellEnding(e: Ending): string {
    match e
    case Blanks(lead) => lead
    case Last(lead, segments) => lead + SpellSegments(segments)
    case OpenQuote(lead, segments, quote, text) => lead + SpellSegments(segments) + ([quote] + text)
  }

  /** The argument: the texts of its stretches, without the quotes. */
  function Meant(s: seq<Segment>): string { if s == [] then "" else s[0].text + Meant(s[1..]) }

  function Arguments(words: seq<Word>): seq<string> {
    if words == [] then [] else [Meant(words[0].segments)] + Arguments(words[1..])
  }

  lemma {:induction false} RunGap(st: Scan, s: string)
    requires st.mode.Between? && IsGap(s)
    ensures Run(st, s) == st
  {
    if s == "" {
    } else {
      RunGap(st, s[1..]);
    }
  }

  lemma RunSegment(st: Scan, s: Segment)
    requires st.mode == Plain && IsSegment(s)
    ensures Run(st, SpellSegment(s)) == st.(cur := st.cur + s.text)
  {
    match s
    case Bare(text) => RunNoneNasty(st, text);
    case Inside(quote, text) =>
      var open := st.(mode := Quoted(quote));
      RunInsideQuotes(open, quote, text);
      RunConcat(open, text, [quote]);
      assert SpellSegment(s)[1..] == text + [quote];
  }

  lemma {:induction false} RunSegments(st: Scan, s: seq<Segment>)
    requires st.mode == Plain && AreSegments(s)
    ensures Run(st, SpellSegments(s)) == st.(cur := st.cur + Meant(s))
    decreases |s|
  {
    hide IsSegment;
    hide SpellSegment;
    hide Step;
    if s == [] {
      assert st.cur + "" == st.cur;
    } else {
      var text, rest := s[0].text, Meant(s[1..]);
      RunSegment(st, s[0]);
      RunConcat(st, SpellSegment(s[0]), SpellSegments(s[1..]));
      RunSegments(st.(cur := st.cur + text), s[1..]);
      assert st.cur + text + rest == st.cur + (text + rest);
    }
  }

  lemma SpelledStart(s: seq<Segment>)
    requires s != [] && AreSegments(s)
    ensures SpellSegments(s) != "" && SpellSegments(s)[0] != ' ' && SpellSegments(s)[0] != '\t'
  {
    assert IsSegment(s[0]);
    if s[0].Bare? { assert !IsNasty(s[0].text[0]); }
  }

  /** A gap and then an argument, from between arguments. */
  lemma RunLead(argv: seq<string>, lead: string, text: string)
    requires IsGap(lead) && text != "" && text[0] != ' ' && text[0] != '\t'
    ensures Run(Scan(argv, "", Between), lead + text) == Run(Scan(argv, "", Plain), text)
  {
    RunGap(Scan(argv, "", Between), lead);
    RunConcat(Scan(argv, "", Between), lead, text);
  }

  lemma RunWord(argv: seq<string>, w: Word)
    requires IsWord(w)
    ensures Run(Scan(argv, "", Between), w.lead + SpellSegments(w.segments) + [w.stop]) ==
            Scan(argv + [Meant(w.segments)], "", Between)
  {
    var text := SpellSegments(w.segments);
    if w.segments != [] { SpelledStart(w.segments); }
    assert w.lead + text + [w.stop] == w.lead + (text + [w.stop]);
    RunLead(argv, w.lead, text + [w.stop]);
    RunSegments(Scan(argv, "", Plain), w.segments);
    RunConcat(Scan(argv, "", Plain), text, [w.stop]);
    assert "" + Meant(w.segments) == Meant(w.segments);
  }

  lemma {:induction false} RunWords(argv: seq<string>, words: seq<Word>)
    requires forall i :: 0 <= i < |words| ==> IsWord(words[i])
    ensures Run(Scan(argv, "", Between), SpellWords(words)) == Scan(argv + Arguments(words), "", Between)
    decreases |words|
  {
    hide IsWord;
    hide SpellSegments;
    hide Meant;
    hide Step;
    if words == [] {
      assert argv + [] == argv;
    } else {
      var w, meant := words[0], Meant(words[0].segments);
      RunWord(argv, w);
      RunConcat(Scan(argv, "", Between), w.lead + SpellSegments(w.segments) + [w.stop], SpellWords(words[1..]));
      RunWords(argv + [meant], words[1..]);
      assert argv + [meant] + Arguments(words[1..]) == argv + ([meant] + Arguments(words[1..]));
    }
  }

  lemma RunEnding(argv: seq<string>, e: Ending)
    requires IsEnding(e)
    ensures AtEnd(Run(Scan(argv, "", Between), SpellEnding(e))) ==
      match e
      case Blanks(_) => Some(argv)
      case Last(_, segments) => Some(argv + [Meant(segments)])
      case OpenQuote(_, _, _, _) => None
  {
    var plain := Scan(argv, "", Plain);
    match e
    case Blanks(lead) => RunGap(Scan(argv, "", Between), lead);
    case Last(lead, segments) =>
      SpelledStart(segments);
      RunLead(argv, lead, SpellSegments(segments));
      RunSegments(plain, segments);
      assert "" + Meant(segments) == Meant(segments);
    case OpenQuote(lead, segments, quote, text) =>
      if segments != [] { SpelledStart(segments); }
      var rest := [quote] + text;
      assert SpellEnding(e) == lead + (SpellSegments(segments) + rest);
      RunLead(argv, lead, SpellSegments(segments) + rest);
      RunSegments(plain, segments);
      RunConcat(plain, SpellSegments(segments), rest);
      assert rest[1..] == text;
      RunInsideQuotes(Scan(argv, "" + Meant(segments), Quoted(quote)), quote, text);
  }

  /** What a spelled line means: the arguments it spells, quotes and blanks gone, and an
      error if and only if it ends inside a quote. */
  lemma SpelledLine(words: seq<Word>, e: Ending)
    requires (forall i :: 0 <= i < |words| ==> IsWord(words[i])) && IsEnding(e)
    ensures Parse(SpellWords(words) + SpellEnding(e)) ==
      match e
      case Blanks(_) => Some(Arguments(words))
      case Last(_, segments) => Some(Arguments(words) + [Meant(segments)])
      case OpenQuote(_, _, _, _) => None
  {
    hide IsWord;
    hide IsEnding;
    RunWords([], words);
    assert [] + Arguments(words) == Arguments(words);
    RunConcat(START, SpellWords(words), SpellEnding(e));
    RunEnding(Arguments(words), e);
  }

  // ------------------------------------------------------- every line is spelled like that

  /** An argument, up to the character that ends it or the quote that is never closed. */
  lemma {:induction false} EveryArgument(line: string) returns (s: seq<Segment>, rest: string, open: string)
    ensures AreSegments(s) && line == SpellSegments(s) + (open + rest) && (s == [] ==> line == open + rest)
    ensures open == "" ==> rest == "" || rest[0] == ' ' || rest[0] == '\t' || rest[0] == '\n'
    ensures open != "" ==> |open| == 1 && IsQuote(open[0]) && open[0] !in rest
    decreases |line|
  {
    hide SpellSegments;
    hide AreSegments;
    NoSegments();
    s, rest, open := [], line, "";
    if line == "" || line[0] == ' ' || line[0] == '\t' || line[0] == '\n' {
    } else if IsQuote(line[0]) {
      var k := ClosingQuote(line, 1);
      if k < |line| {
        var first := Inside(line[0], line[1..k]);
        s, rest, open := EveryArgument(line[k + 1..]);
        assert line == [line[0]] + line[1..k] + [line[0]] + line[k + 1..];
        s := PutFirst(first, s, open + rest);
      } else {
        assert line[1..k] == line[1..];
        open, rest := [line[0]], line[1..];
      }
    } else {
      var first := Bare([line[0]]);
      s, rest, open := EveryArgument(line[1..]);
      assert line == [line[0]] + line[1..];
      s := PutFirst(first, s, open + rest);
    }
  }

  lemma NoSegments()
    ensures AreSegments([]) && SpellSegments([]) == ""
  {
  }

  lemma PutFirst(first: Segment, s: seq<Segment>, rest: string) returns (all: seq<Segment>)
    requires IsSegment(first) && AreSegments(s)
    ensures all != [] && AreSegments(all)
    ensures SpellSegments(all) + rest == SpellSegment(first) + (SpellSegments(s) + rest)
  {
    all := [first] + s;
    assert all[1..] == s;
  }

  /** The next quote like the first character, or the end. */
  lemma {:induction false} ClosingQuote(line: string, from: nat) returns (k: nat)
    requires 0 < from <= |line| && line[0] !in line[1..from]
    ensures from <= k <= |line| && line[0] !in line[1..k]
    ensures k < |line| ==> line[k] == line[0]
    decreases |line| - from
  {
    k := from;
    if from == |line| || line[from] == line[0] {
    } else {
      assert line[1..from + 1] == line[1..from] + [line[from]];
      k := ClosingQuote(line, from + 1);
    }
  }

  /** So the tokenizer is described on all lines. */
  lemma {:induction false} EveryLineIsSpelled(line: string) returns (words: seq<Word>, e: Ending)
    ensures (forall i :: 0 <= i < |words| ==> IsWord(words[i])) && IsEnding(e)
    ensures line == SpellWords(words) + SpellEnding(e)
    decreases |line|
  {
    hide SpellEnding;
    hide SpellWords;
    hide IsEnding;
    hide SpellSegments;
    hide AreSegments;
    hide IsGap;
    var lead, text := GapOf(line);
    var s, rest, open := EveryArgument(text);
    words := [];
    if open != "" || rest == "" {
      e := EndOf(lead, s, open, rest);
    } else {
      assert text == SpellSegments(s) + rest;
      var w := Word(lead, s, rest[0]);
      words, e := EveryLineIsSpelled(rest[1..]);
      assert rest == [rest[0]] + rest[1..];
      words := PutWord(w, words, SpellEnding(e));
    }
  }

  lemma EndOf(lead: string, s: seq<Segment>, open: string, rest: string) returns (e: Ending)
    requires IsGap(lead) && AreSegments(s)
    requires if open == "" then rest == "" else |open| == 1 && IsQuote(open[0]) && open[0] !in rest
    ensures IsEnding(e) && lead + (SpellSegments(s) + (open + rest)) == SpellWords([]) + SpellEnding(e)
  {
    if open != "" {
      e := OpenQuote(lead, s, open[0], rest);
      assert open == [open[0]];
    } else {
      e := if s == [] then Blanks(lead) else Last(lead, s);
    }
  }

  lemma PutWord(w: Word, words: seq<Word>, rest: string) returns (all: seq<Word>)
    requires IsWord(w) && forall i :: 0 <= i < |words| ==> IsWord(words[i])
    ensures forall i :: 0 <= i < |all| ==> IsWord(all[i])
    ensures SpellWords(all) + rest == w.lead + (SpellSegments(w.segments) + ([w.stop] + (SpellWords(words) + rest)))
  {
    hide IsWord;
    hide SpellSegments;
    all := [w] + words;
    assert all[1..] == words;
  }

  lemma {:induction false} GapOf(line: string) returns (lead: string, text: string)
    ensures line == lead + text && IsGap(lead)
    ensures text == "" || (text[0] != ' ' && text[0] != '\t')
    decreases |line|
  {
    lead, text := "", line;
    if line == "" || (line[0] != ' ' && line[0] != '\t') {
    } else {
      lead, text := GapOf(line[1..]);
      lead := [line[0]] + lead;
    }
  }

  // ------------------------------------------------------ where skipping arguments stops

  /** Between arguments nothing is being collected. */
  lemma {:induction false} BetweenIsEmpty(st: Scan, s: string)
    requires st.mode.Between? ==> st.cur == ""
    ensures Run(st, s).mode.Between? ==> Run(st, s).cur == ""
    decreases |s|
  {
    if s == "" {
    } else {
      BetweenIsEmpty(Step(st, s[0]), s[1..]);
    }
  }

  /** Finished arguments stay, and change nothing about what is read after them. */
  lemma {:induction false} FinishedStay(done: seq<string>, st: Scan, s: string)
    ensures var r := Run(st, s);
            Run(Scan(done + st.argv, st.cur, st.mode), s) == Scan(done + r.argv, r.cur, r.mode)
    decreases |s|
  {
    if s == "" {
    } else {
      var st' := Step(st, s[0]);
      assert done + st.argv + [st.cur] == done + (st.argv + [st.cur]);
      assert Step(Scan(done + st.argv, st.cur, st.mode), s[0]) == Scan(done + st'.argv, st'.cur, st'.mode);
      FinishedStay(done, st', s[1..]);
    }
  }

  /** Text after a finished command line and a blank is read after its arguments. */
  lemma TextFollows(line: string, text: string)
    requires Parse(line).Some?
    ensures Parse(line + " " + text) ==
      match Parse(text)
      case None => None
      case Some(args) => Some(Parse(line).value + args)
  {
    var words := Parse(line).value;
    RunConcat(START, line + " ", text);
    RunConcat(START, line, " ");
    BetweenIsEmpty(START, line);
    assert Run(START, line + " ") == Scan(words, "", Between);
    FinishedStay(words, START, text);
    assert words + START.argv == words;
    var r := Run(START, text);
    assert words + r.argv + [r.cur] == words + (r.argv + [r.cur]);
  }

  /** No tab and no newline outside quotes: only blanks separate arguments. */
  predicate BlanksSeparate(st: Scan, s: string)
    decreases |s|
  {
    s == "" ||
    ((s[0] == '\t' || s[0] == '\n' ==> st.mode.Quoted?) && BlanksSeparate(Step(st, s[0]), s[1..]))
  }

  lemma {:induction false} NoTabsNorNewlines(st: Scan, s: string)
    requires '\t' !in s && '\n' !in s
    ensures BlanksSeparate(st, s)
    decreases |s|
  {
    if s == "" {
    } else {
      NoTabsNorNewlines(Step(st, s[0]), s[1..]);
    }
  }

  lemma {:induction false} SkipSpacesCut(st: Scan, s: string) returns (cut: string)
    requires st.mode.Between?
    ensures s == cut + SkipSpaces(s) && Run(st, cut) == st
    ensures SkipSpaces(s) == "" || SkipSpaces(s)[0] != ' '
    ensures BlanksSeparate(st, s) ==> BlanksSeparate(st, SkipSpaces(s))
    decreases |s|
  {
    cut := "";
    if s == "" || s[0] != ' ' {
    } else {
      cut := SkipSpacesCut(st, s[1..]);
      cut := " " + cut;
    }
  }

  function OpenIn(st: Scan): Option<char> { if st.mode.Quoted? then Some(st.mode.q) else None }

  lemma SkipTokenStep(st: Scan, s: string)
    requires s != "" && !(OpenIn(st) == None && s[0] == ' ') && (st.mode.Quoted? ==> IsQuote(st.mode.q))
    ensures SkipToken(s, OpenIn(st)) == SkipToken(s[1..], OpenIn(Step(st, s[0])))
    ensures Step(st, s[0]).mode.Quoted? ==> IsQuote(Step(st, s[0]).mode.q)
    ensures (s[0] == '\t' || s[0] == '\n' ==> st.mode.Quoted?) ==>
      Step(st, s[0]).argv == st.argv && !Step(st, s[0]).mode.Between?
  {
  }

  /** The tokenizer and `skiptokens` agree on what is quoted; where no tab or newline
      separates, what is skipped is one argument. */
  lemma {:induction false} SkipTokenCut(st: Scan, s: string) returns (cut: string)
    requires st.mode.Quoted? ==> IsQuote(st.mode.q)
    ensures var rest := SkipToken(s, OpenIn(st));
      s == cut + rest && (rest != "" ==> rest[0] == ' ' && !Run(st, cut).mode.Quoted?)
    ensures BlanksSeparate(st, s) && (st.mode.Between? ==> s != "" && s[0] != ' ') ==>
      BlanksSeparate(Run(st, cut), SkipToken(s, OpenIn(st))) &&
      Run(st, cut).argv == st.argv && !Run(st, cut).mode.Between?
    decreases |s|
  {
    hide Step;
    cut := "";
    if s == "" || (OpenIn(st) == None && s[0] == ' ') {
    } else {
      SkipTokenStep(st, s);
      cut := SkipTokenCut(Step(st, s[0]), s[1..]);
      cut := [s[0]] + cut;
      assert cut[1..] + SkipToken(s, OpenIn(st)) == s[1..];
    }
  }

  /** The blanks after an argument. */
  lemma BlankEnds(st: Scan, s: string) returns (cut: string)
    requires s != "" && s[0] == ' ' && !st.mode.Quoted?
    ensures s == cut + SkipSpaces(s) && Run(st, cut).mode.Between?
    ensures |Run(st, cut).argv| == |st.argv| + (if st.mode.Between? then 0 else 1)
    ensures BlanksSeparate(st, s) ==> BlanksSeparate(Run(st, cut), SkipSpaces(s))
  {
    cut := SkipSpacesCut(Step(st, ' '), s[1..]);
    cut := [' '] + cut;
    assert cut[1..] + SkipSpaces(s) == s[1..];
  }

  /** The arguments of a line that ends here. */
  function Count(st: Scan): nat { |st.argv| + if st.mode.Between? then 0 else 1 }

  /** One round of `skiptokens`. */
  lemma SkipOneCut(st: Scan, s: string) returns (cut: string)
    requires st.mode.Between?
    ensures var rest := SkipSpaces(SkipToken(SkipSpaces(s), None));
      s == cut + rest && (rest != "" ==> Run(st, cut).mode.Between?) &&
      (BlanksSeparate(st, s) ==>
        (rest == "" ==> Count(Run(st, s)) <= |st.argv| + 1) &&
        (rest != "" ==> BlanksSeparate(Run(st, cut), rest) && |Run(st, cut).argv| == |st.argv| + 1))
  {
    hide SkipSpaces;
    hide SkipToken;
    hide BlanksSeparate;
    var text := SkipSpaces(s);
    var a := SkipSpacesCut(st, s);
    if text == "" {
      SkipNothing();
      cut := a;
      assert a + "" == a;
    } else {
      var b := SkipTokenCut(st, text);
      var rest := SkipToken(text, None);
      RunConcat(st, a, b);
      if rest == "" {
        SkipNothing();
        cut := s;
        assert text == b && s + "" == s;
      } else {
        var c := BlankEnds(Run(st, b), rest);
        cut := a + b + c;
        RunConcat(st, a + b, c);
        assert cut + SkipSpaces(rest) == a + (b + (c + SkipSpaces(rest)));
        if SkipSpaces(rest) == "" { assert cut + "" == cut; }
      }
    }
  }

  lemma SkipNothing()
    ensures SkipToken("", None) == SkipSpaces("") == ""
  {
  }

  lemma {:induction false} SkipTokensCut(st: Scan, s: string, n: nat) returns (cut: string)
    requires st.mode.Between?
    ensures var rest := SkipTokens(s, n);
      s == cut + rest && (rest != "" ==> Run(st, cut).mode.Between?) &&
      (BlanksSeparate(st, s) ==>
        (rest == "" ==> Count(Run(st, s)) <= |st.argv| + n) &&
        (rest != "" ==> |Run(st, cut).argv| == |st.argv| + n))
    decreases n
  {
    cut := "";
    if s == "" || n == 0 {
    } else {
      var first := SkipOneCut(st, s);
      var rest := SkipSpaces(SkipToken(SkipSpaces(s), None));
      if rest == "" {
        cut := s;
        assert SkipTokens("", n - 1) == "";
        assert s + "" == s;
      } else {
        cut := SkipTokensCut(Run(st, first), rest, n - 1);
        RunConcat(st, first, cut);
        RunConcat(st, first, rest);
        cut := first + cut;
      }
    }
  }

  /** Skipping never cuts through an argument: what is skipped and what is left are read
      apart as they are read together. They are the first n arguments and the others if and
      only if n arguments are skipped. */
  lemma SkippingCutsBetween(line: string, n: nat)
    requires Parse(line).Some?
    ensures var rest := SkipTokens(line, n);
            |rest| <= |line| && rest == line[|line| - |rest|..] &&
            var skipped := Parse(line[..|line| - |rest|]);
            skipped.Some? && Parse(rest).Some? && skipped.value + Parse(rest).value == Parse(line).value &&
            (n <= |Parse(line).value| ==>
              (Parse(rest) == Some(Parse(line).value[n..]) <==> |skipped.value| == n))
  {
    hide SkipTokens;
    var cut := SkipTokensCut(START, line, n);
    var rest := SkipTokens(line, n);
    assert line[..|line| - |rest|] == cut;
    RunConcat(START, cut, rest);
    if rest == "" {
      assert cut + "" == cut == line;
      assert Parse("") == Some([]) && Parse(line).value + [] == Parse(line).value;
    } else {
      BetweenIsEmpty(START, cut);
      JoinedArguments(Run(START, cut).argv, rest, line);
    }
  }

  /** Text that is read from between arguments is read as an own line. */
  lemma JoinedArguments(done: seq<string>, rest: string, line: string)
    requires Parse(line).Some? && Run(START, line) == Run(Scan(done, "", Between), rest)
    ensures Parse(rest).Some? && Parse(line).value == done + Parse(rest).value
  {
    FinishedStay(done, START, rest);
    assert done + START.argv == done;
    var r := Run(START, rest);
    assert done + r.argv + [r.cur] == done + (r.argv + [r.cur]);
  }

  /** On a line whose arguments are separated by blanks alone, whatever blanks and quotes it
      has, exactly n arguments are skipped. */
  lemma SkipTokensSkipsArguments(line: string, n: nat)
    requires BlanksSeparate(START, line) && Parse(line).Some? && n <= |Parse(line).value|
    ensures Parse(SkipTokens(line, n)) == Some(Parse(line).value[n..])
  {
    hide SkipTokens;
    hide BlanksSeparate;
    var cut := SkipTokensCut(START, line, n);
    SkippingCutsBetween(line, n);
    var rest := SkipTokens(line, n);
    assert line[..|line| - |rest|] == cut;
    if rest == "" { assert cut == line; }
  }

  /** For instance on a line without tabs and newlines. */
  lemma WithoutTabsAndNewlines(line: string, n: nat)
    requires '\t' !in line && '\n' !in line && Parse(line).Some? && n <= |Parse(line).value|
    ensures Parse(SkipTokens(line, n)) == Some(Parse(line).value[n..])
  {
    NoTabsNorNewlines(START, line);
    SkipTokensSkipsArguments(line, n);
  }

  /** A line that reads as these arguments, and whose arguments `skiptokens` can tell apart. */
  predicate Reads(line: string, argv: seq<string>) {
    Parse(line) == Some(argv) && (BlanksSeparate(START, line) || line == QuoteArgv(argv))
  }

  lemma ReadsOn(line: string, argv: seq<string>, n: nat)
    requires Reads(line, argv) && n <= |argv|
    ensures Parse(SkipTokens(line, n)) == Some(argv[n..])
  {
    hide SkipTokens;
    hide Parse;
    if line == QuoteArgv(argv) {
      SkipTokensRoundTrip(argv, n);
      QuotingRoundTrip(argv[n..]);
    } else {
      SkipTokensSkipsArguments(line, n);
    }
  }

  /** At a tab skipping does not stop: both arguments go. */
  lemma TabsAreNotSkipped()
    ensures Parse("a\tb") == Some(["a", "b"]) && SkipTokens("a\tb", 1) == ""
  {
    var line := "a\tb";
    var l1, l2 := line[1..], line[2..];
    assert l1[1..] == l2 && l2[1..] == "";
    assert "" + ['a'] == "a" && "" + ['b'] == "b" && [] + ["a"] == ["a"] && ["a"] + ["b"] == ["a", "b"];
    assert Run(START, line) == Run(Scan([], "a", Plain), l1);
    assert Run(Scan([], "a", Plain), l1) == Run(Scan(["a"], "", Between), l2);
    assert Run(Scan(["a"], "", Between), l2) == Run(Scan(["a"], "b", Plain), "");
    assert SkipToken(line, None) == SkipToken(l1, None) == SkipToken(l2, None) == SkipToken("", None);
  }
}

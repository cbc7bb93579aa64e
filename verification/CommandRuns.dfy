/** What the commands that re-enter the interpreter do (commands.c), said with the table and
    the events: which commands have run, in which order, and what became of the text. */
module CommandRuns {
  import opened Strings
  import opened Quoting
  import opened CommandLines
  import opened Commands

  // --------------------------------------------------------------- pieces of a text

  function Join(parts: seq<string>): string {
    if parts == [] then "" else if |parts| == 1 then parts[0] else parts[0] + ";" + Join(parts[1..])
  }

  predicate NoSemicolons(parts: seq<string>) { forall i :: 0 <= i < |parts| ==> ';' !in parts[i] }

  lemma {:induction false} PiecesAfter(s: string, rest: string, cur: string)
    requires ';' !in s
    ensures Pieces(s + rest, cur) == Pieces(rest, cur + s)
    decreases |s|
  {
    if s == "" {
      assert s + rest == rest && cur + s == cur;
    } else {
      assert (s + rest)[1..] == s[1..] + rest && cur + [s[0]] + s[1..] == cur + s;
      PiecesAfter(s[1..], rest, cur + [s[0]]);
    }
  }

  lemma {:induction false} PiecesOfJoin(parts: seq<string>)
    requires parts != [] && NoSemicolons(parts)
    ensures Pieces(Join(parts), "") == parts
    decreases |parts|
  {
    var first := parts[0];
    assert "" + first == first;
    if |parts| == 1 {
      PiecesAfter(first, "", "");
      assert first + "" == first;
    } else {
      var rest := ";" + Join(parts[1..]);
      assert Join(parts) == first + rest && rest[1..] == Join(parts[1..]);
      PiecesAfter(first, rest, "");
      PiecesOfJoin(parts[1..]);
    }
  }

  /** Splitting undoes joining, and joining undoes splitting: a text is cut at every ';' and
      nowhere else. */
  lemma SplitUndoesJoin(parts: seq<string>)
    requires Join(parts) != "" && NoSemicolons(parts)
    ensures Split(Join(parts)) == parts
  {
    PiecesOfJoin(parts);
  }

  lemma {:induction false} JoinOfPieces(s: string, cur: string)
    requires ';' !in cur
    ensures Pieces(s, cur) != [] && Join(Pieces(s, cur)) == cur + s && NoSemicolons(Pieces(s, cur))
    decreases |s|
  {
    if s == "" {
    } else {
      if s[0] == ';' {
        JoinOfPieces(s[1..], "");
        var rest := Pieces(s[1..], "");
        assert ([cur] + rest)[1..] == rest;
        assert Join(rest) == "" + s[1..] == s[1..];
        assert cur + ";" + s[1..] == cur + s;
      } else {
        JoinOfPieces(s[1..], cur + [s[0]]);
        assert cur + [s[0]] + s[1..] == cur + s;
      }
    }
  }

  lemma JoinUndoesSplit(s: string)
    ensures Join(Split(s)) == s && NoSemicolons(Split(s))
  {
    JoinOfPieces(s, "");
  }

  // ------------------------------------------------------------ cutting at the parenthesis

  /** The text is cut at a ')' after which there are only blanks. */
  lemma {:induction false} CutCloseCuts(s: string, blanks: string)
    requires AllBlank(blanks)
    ensures CutClose(s + ")" + blanks) == Some(s)
    decreases |blanks|
  {
    var t := s + ")" + blanks;
    if blanks == "" {
      assert t[..|t| - 1] == s;
    } else {
      var shorter := blanks[..|blanks| - 1];
      assert t[|t| - 1] == blanks[|blanks| - 1] == ' ' && t[..|t| - 1] == s + ")" + shorter;
      CutCloseCuts(s, shorter);
    }
  }

  /** It is not cut if something else comes last. */
  lemma {:induction false} CutCloseRefuses(s: string, blanks: string)
    requires AllBlank(blanks) && s != "" && s[|s| - 1] != ' ' && s[|s| - 1] != ')'
    ensures CutClose(s + blanks) == None
    decreases |blanks|
  {
    var t := s + blanks;
    if blanks == "" {
      assert t == s;
    } else {
      var shorter := blanks[..|blanks| - 1];
      assert t[|t| - 1] == blanks[|blanks| - 1] == ' ' && t[..|t| - 1] == s + shorter;
      CutCloseRefuses(s, shorter);
    }
  }

  // ------------------------------------------------------------------- running a multi

  /** Running lines one after the other. */
  function RunEach(st: State, depth: nat, lines: seq<string>, effect: Effect): State
    requires depth <= MAX_NEST
    decreases |lines|
  {
    if lines == [] then st else RunEach(Exec(st, depth, lines[0], effect), depth, lines[1..], effect)
  }

  lemma {:induction false} AllIsEach(st: State, depth: nat, lines: seq<string>, bound: nat, effect: Effect)
    requires depth <= MAX_NEST && forall i :: 0 <= i < |lines| ==> |lines[i]| < bound
    ensures ExecAll(st, depth, lines, bound, effect) == RunEach(st, depth, lines, effect)
    decreases |lines|
  {
    hide Exec;
    if lines == [] {
    } else {
      AllIsEach(Exec(st, depth, lines[0], effect), depth, lines[1..], bound, effect);
    }
  }

  /** The name of a command that needs no quotes. */
  predicate Names(word: string, command: Command, table: Table) {
    word != "" && NoneNasty(word) && word in table && table[word] == command
  }

  lemma WordReads(word: string)
    requires word != "" && NoneNasty(word)
    ensures Parse(word) == Some([word])
  {
    QuotingRoundTrip([word]);
    assert QuoteArgv([word]) == Quote(word) == word;
  }

  lemma TextAfterWord(word: string, text: string)
    requires word != "" && NoneNasty(word) && text != "" && text[0] != ' '
    ensures SkipTokens(word + " " + text, 1) == text
  {
    var line, rest := word + " " + text, " " + text;
    assert line == word + rest && !IsNasty(word[0]);
    SkipTokenPlain(word, rest);
    assert rest[1..] == text;
    assert SkipSpaces(line) == line && SkipSpaces(rest) == SkipSpaces(text) == text;
    assert SkipTokens(text, 0) == text;
  }

  /** A multi runs the pieces of its text in order, all of them and nothing else; a text that
      is no argument is refused. */
  lemma MultiRunsPieces(st: State, depth: nat, word: string, parts: seq<string>, effect: Effect)
    requires depth <= MAX_NEST && Names(word, Multi, st.table) && word != "("
    requires NoSemicolons(parts) && Join(parts) != "" && Join(parts)[0] != ' '
    ensures var line := word + " " + Join(parts);
            Exec(st, depth, line, effect) ==
            if Parse(Join(parts)) == None || Parse(Join(parts)) == Some([]) then Note(st, Complained(line))
            else RunEach(st, depth, parts, effect)
  {
    var text := Join(parts);
    var line := word + " " + text;
    WordReads(word);
    TextFollows(word, text);
    TextAfterWord(word, text);
    SplitUndoesJoin(parts);
    hide Parse;
    hide SkipTokens;
    if Parse(text).Some? {
      var argv := [word] + Parse(text).value;
      assert argv[0] == word;
      assert Exec(st, depth, line, effect) == ExecArgv(st, depth, argv, line, effect);
      if Parse(text) != Some([]) {
        MultiShrinks(word, line);
        AllIsEach(st, depth, parts, |line|, effect);
      }
    }
  }

  lemma NothingIsRun(st: State, depth: nat, parts: seq<string>, effect: Effect)
    requires depth <= MAX_NEST && Join(parts) == ""
    ensures RunEach(st, depth, parts, effect) == RunEach(st, depth, Split(""), effect) == st
  {
    ParseEmpty();
    assert parts == [] || (|parts| == 1 && parts[0] == "");
  }

  /** The same between parentheses, which only blanks may follow. */
  lemma ParenthesesRunPieces(st: State, depth: nat, parts: seq<string>, blanks: string, effect: Effect)
    requires depth <= MAX_NEST && Names("(", Multi, st.table) && AllBlank(blanks)
    requires NoSemicolons(parts) && (Join(parts) != "" ==> Join(parts)[0] != ' ')
    ensures var text := Join(parts) + ")" + blanks;
            Exec(st, depth, "( " + text, effect) ==
            if Parse(text) == None || Parse(text) == Some([]) then Note(st, Complained("( " + text))
            else RunEach(st, depth, parts, effect)
  {
    var word, text := "(", Join(parts) + ")" + blanks;
    var line := word + " " + text;
    assert line == "( " + text;
    WordReads(word);
    TextFollows(word, text);
    TextAfterWord(word, text);
    if Join(parts) == "" { NothingIsRun(st, depth, parts, effect); } else { SplitUndoesJoin(parts); }
    CutCloseCuts(Join(parts), blanks);
    assert !AllBlank(text) by { assert text[0] != ' '; }
    hide Parse;
    hide SkipTokens;
    if Parse(text).Some? {
      var argv := [word] + Parse(text).value;
      assert argv[0] == word;
      assert Exec(st, depth, line, effect) == ExecArgv(st, depth, argv, line, effect);
      if Parse(text) != Some([]) {
        MultiShrinks(word, line);
        AllIsEach(st, depth, Split(Join(parts)), |line|, effect);
      }
    }
  }

  /** Without the closing parenthesis nothing is run. */
  lemma ParenthesisIsMissed(st: State, depth: nat, text: string, blanks: string, effect: Effect)
    requires depth <= MAX_NEST && Names("(", Multi, st.table) && AllBlank(blanks)
    requires text != "" && text[0] != ' ' && text[|text| - 1] != ' ' && text[|text| - 1] != ')'
    ensures var line := "( " + (text + blanks);
            Exec(st, depth, line, effect) == Note(st, Complained(line))
  {
    var word, rest := "(", text + blanks;
    var line := word + " " + rest;
    assert line == "( " + rest;
    WordReads(word);
    TextFollows(word, rest);
    TextAfterWord(word, rest);
    CutCloseRefuses(text, blanks);
    assert !AllBlank(rest) by { assert rest[0] != ' '; }
    hide Parse;
    hide SkipTokens;
    if Parse(rest).Some? {
      var argv := [word] + Parse(rest).value;
      assert argv[0] == word;
      assert Exec(st, depth, line, effect) == ExecArgv(st, depth, argv, line, effect);
    }
  }

  // --------------------------------------------------------------- plain commands in order

  function Quoteds(argvs: seq<seq<string>>): seq<string> {
    if argvs == [] then [] else [QuoteArgv(argvs[0])] + Quoteds(argvs[1..])
  }

  function Rans(argvs: seq<seq<string>>): seq<Event> {
    if argvs == [] then [] else [Ran(argvs[0])] + Rans(argvs[1..])
  }

  function TableAfter(argvs: seq<seq<string>>, table: Table, effect: Effect): Table {
    if argvs == [] then table else TableAfter(argvs[1..], effect(argvs[0], table), effect)
  }

  /** Each of them is a plain command when its turn comes. */
  predicate StaysDirect(argvs: seq<seq<string>>, table: Table, effect: Effect) {
    argvs == [] || (IsDirect(argvs[0], table) && StaysDirect(argvs[1..], effect(argvs[0], table), effect))
  }

  predicate AreRead(lines: seq<string>, argvs: seq<seq<string>>) {
    |lines| == |argvs| && forall i :: 0 <= i < |lines| ==> Parse(lines[i]) == Some(argvs[i])
  }

  lemma {:induction false} EachRuns(st: State, depth: nat, lines: seq<string>, argvs: seq<seq<string>>, effect: Effect)
    requires depth <= MAX_NEST && AreRead(lines, argvs) && StaysDirect(argvs, st.table, effect)
    ensures RunEach(st, depth, lines, effect) == State(TableAfter(argvs, st.table, effect), st.log + Rans(argvs))
    decreases |lines|
  {
    hide Parse;
    hide Exec;
    if lines == [] {
      assert st.log + [] == st.log;
    } else {
      var st' := State(effect(argvs[0], st.table), st.log + [Ran(argvs[0])]);
      DirectRuns(st, depth, lines[0], argvs[0], effect);
      EachRuns(st', depth, lines[1..], argvs[1..], effect);
      assert st.log + [Ran(argvs[0])] + Rans(argvs[1..]) == st.log + ([Ran(argvs[0])] + Rans(argvs[1..]));
    }
  }

  // Quoted commands, joined.

  /** Whether a quote is open at the end depends only on whether one is at the start. */
  lemma {:induction false} SameQuoting(a: Scan, b: Scan, s: string)
    requires OpenIn(a) == OpenIn(b)
    ensures OpenIn(Run(a, s)) == OpenIn(Run(b, s))
    decreases |s|
  {
    if s == "" {
    } else {
      SameQuoting(Step(a, s[0]), Step(b, s[0]), s[1..]);
    }
  }

  lemma {:induction false} CountGrows(st: Scan, s: string)
    ensures Count(Run(st, s)) >= Count(st)
    decreases |s|
  {
    if s == "" {
    } else {
      CountGrows(Step(st, s[0]), s[1..]);
    }
  }

  lemma {:induction false} JoinIsUnquoted(st: Scan, parts: seq<string>)
    requires !st.mode.Quoted? && forall i :: 0 <= i < |parts| ==> Parse(parts[i]).Some?
    ensures !Run(st, Join(parts)).mode.Quoted?
    decreases |parts|
  {
    hide Step;
    if parts == [] {
    } else {
      SameQuoting(START, st, parts[0]);
      if |parts| > 1 {
        var st1, rest := Run(st, parts[0]), ";" + Join(parts[1..]);
        assert Join(parts) == parts[0] + rest && rest[1..] == Join(parts[1..]);
        RunConcat(st, parts[0], rest);
        SemicolonOpensNothing(st1);
        JoinIsUnquoted(Step(st1, ';'), parts[1..]);
      }
    }
  }

  lemma SemicolonOpensNothing(st: Scan)
    requires !st.mode.Quoted?
    ensures !Step(st, ';').mode.Quoted?
  {
  }

  /** A text that starts with an argument and closes its quotes has arguments. */
  lemma TextHasArguments(text: string)
    requires text != "" && text[0] != ' ' && text[0] != '\t' && !Run(START, text).mode.Quoted?
    ensures Parse(text).Some? && Parse(text).value != []
  {
    CountGrows(Step(START, text[0]), text[1..]);
  }

  lemma QuotedStart(argv: seq<string>)
    requires argv != []
    ensures var text := QuoteArgv(argv); text != "" && text[0] != ' ' && text[0] != '\t'
  {
    var first := Quote(argv[0]);
    assert first != "" && first[0] != ' ' && first[0] != '\t' by {
      if argv[0] != "" && NoneNasty(argv[0]) { assert !IsNasty(argv[0][0]); }
    }
    hide Quote;
  }

  lemma {:induction false} QuotedsRead(argvs: seq<seq<string>>)
    ensures AreRead(Quoteds(argvs), argvs)
  {
    hide Parse;
    if argvs == [] {
    } else {
      QuotingRoundTrip(argvs[0]);
      QuotedsRead(argvs[1..]);
    }
  }

  lemma {:induction false} QuotedsHaveNoSemicolons(argvs: seq<seq<string>>)
    requires forall i :: 0 <= i < |argvs| ==> ';' !in QuoteArgv(argvs[i])
    ensures NoSemicolons(Quoteds(argvs))
  {
    if argvs == [] {
    } else {
      QuotedsHaveNoSemicolons(argvs[1..]);
    }
  }

  lemma JoinedStart(parts: seq<string>)
    requires parts != [] && parts[0] != ""
    ensures Join(parts) != "" && Join(parts)[0] == parts[0][0]
  {
  }

  /** Plain commands, quoted and joined by ';', are run by a multi one after the other: the
      table is changed by each in turn, and nothing else happens. */
  lemma MultiRunsInOrder(st: State, depth: nat, word: string, argvs: seq<seq<string>>, effect: Effect)
    requires depth <= MAX_NEST && Names(word, Multi, st.table) && word != "("
    requires argvs != [] && StaysDirect(argvs, st.table, effect)
    requires forall i :: 0 <= i < |argvs| ==> ';' !in QuoteArgv(argvs[i])
    ensures Exec(st, depth, word + " " + Join(Quoteds(argvs)), effect) ==
            State(TableAfter(argvs, st.table, effect), st.log + Rans(argvs))
  {
    var parts := Quoteds(argvs);
    QuotedsHaveNoSemicolons(argvs);
    QuotedsRead(argvs);
    QuotedStart(argvs[0]);
    hide QuoteArgv;
    JoinedStart(parts);
    JoinIsUnquoted(START, parts);
    TextHasArguments(Join(parts));
    MultiRunsPieces(st, depth, word, parts, effect);
    EachRuns(st, depth, parts, argvs, effect);
  }

  /** And between parentheses. */
  lemma ParenthesesRunInOrder(st: State, depth: nat, argvs: seq<seq<string>>, effect: Effect)
    requires depth <= MAX_NEST && Names("(", Multi, st.table)
    requires argvs != [] && StaysDirect(argvs, st.table, effect)
    requires forall i :: 0 <= i < |argvs| ==> ';' !in QuoteArgv(argvs[i])
    ensures Exec(st, depth, "( " + (Join(Quoteds(argvs)) + ")"), effect) ==
            State(TableAfter(argvs, st.table, effect), st.log + Rans(argvs))
  {
    var parts := Quoteds(argvs);
    var text := Join(parts);
    QuotedsHaveNoSemicolons(argvs);
    QuotedsRead(argvs);
    QuotedStart(argvs[0]);
    hide QuoteArgv;
    JoinedStart(parts);
    JoinIsUnquoted(START, parts);
    RunConcat(START, text, ")");
    TextHasArguments(text + ")");
    assert text + ")" + "" == text + ")";
    ParenthesesRunPieces(st, depth, parts, "", effect);
    EachRuns(st, depth, parts, argvs, effect);
  }

  // ---------------------------------------- commands that run, or keep, the rest of the line

  /** `with-history` stores the rest of its line and runs it. */
  lemma HistoryRunsRest(st: State, depth: nat, line: string, word: string, argv: seq<string>, effect: Effect)
    requires depth <= MAX_NEST && Reads(line, [word] + argv) && IsDirect(argv, st.table)
    requires word != "" && word in st.table && st.table[word] == WithHistory
    ensures var text := SkipTokens(line, 1);
            Parse(text) == Some(argv) && (line == QuoteArgv([word] + argv) ==> text == QuoteArgv(argv)) &&
            Exec(st, depth, line, effect) == State(effect(argv, st.table), st.log + [Stored(text), Ran(argv)])
  {
    RestIsRead(line, word, argv);
    hide Parse;
    hide SkipTokens;
    var text := SkipTokens(line, 1);
    var st1 := Note(st, Stored(text));
    assert Exec(st, depth, line, effect) == ExecArgv(st, depth, [word] + argv, line, effect);
    SkipTokensShrinks(line, 1);
    assert ExecArgv(st, depth, [word] + argv, line, effect) == Exec(st1, depth, text, effect);
    DirectRuns(st1, depth, text, argv, effect);
    assert st.log + [Stored(text)] + [Ran(argv)] == st.log + [Stored(text), Ran(argv)];
  }

  lemma RestIsRead(line: string, word: string, argv: seq<string>)
    requires Reads(line, [word] + argv)
    ensures Parse(SkipTokens(line, 1)) == Some(argv)
    ensures line == QuoteArgv([word] + argv) ==> SkipTokens(line, 1) == QuoteArgv(argv)
    ensures ([word] + argv)[0] == word && line != ""
  {
    ReadsOn(line, [word] + argv, 1);
    assert ([word] + argv)[1..] == argv;
    if line == QuoteArgv([word] + argv) { SkipTokensRoundTrip([word] + argv, 1); }
    ParseEmpty();
  }

  /** `startup` runs the rest of its line and then keeps it for the next start. */
  lemma StartupRunsRest(st: State, depth: nat, line: string, word: string, argv: seq<string>, effect: Effect)
    requires depth <= MAX_NEST && Reads(line, [word] + argv) && IsDirect(argv, st.table)
    requires word != "" && word in st.table && st.table[word] == Startup
    ensures var text := SkipTokens(line, 1);
            Parse(text) == Some(argv) && (line == QuoteArgv([word] + argv) ==> text == QuoteArgv(argv)) &&
            Exec(st, depth, line, effect) == State(effect(argv, st.table), st.log + [Ran(argv), AddedStartup(text)])
  {
    RestIsRead(line, word, argv);
    hide Parse;
    hide SkipTokens;
    var text := SkipTokens(line, 1);
    assert Exec(st, depth, line, effect) == ExecArgv(st, depth, [word] + argv, line, effect);
    SkipTokensShrinks(line, 1);
    DirectRuns(st, depth, text, argv, effect);
    assert st.log + [Ran(argv)] + [AddedStartup(text)] == st.log + [Ran(argv), AddedStartup(text)];
  }

  /** Defining an alias and then using it runs its words with the arguments of the use. */
  lemma DefinedAliasRuns(st: State, depth: nat, line: string, word: string, name: string, argv: seq<string>,
                         use: string, args: seq<string>, effect: Effect)
    requires depth < MAX_NEST && Reads(line, [word, name] + argv) && Reads(use, [name] + args)
    requires word != "" && word in st.table && st.table[word] == DefineAlias
    requires name != "" && argv != [] && argv[0] != name && IsDirect(argv, st.table)
    ensures var st' := Exec(st, depth, line, effect);
            st'.log == st.log && st'.table.Keys == st.table.Keys + {name} &&
            (forall n :: n in st.table && n != name ==> st'.table[n] == st.table[n]) &&
            Exec(st', depth, use, effect) ==
            State(effect(argv + args, st'.table), st.log + [Expanded(depth), Ran(argv + args)])
  {
    var all := [word, name] + argv;
    assert Parse(line) == Some(all);
    ReadsOn(line, all, 2);
    assert all[2..] == argv && all[0] == word && all[1] == name;
    hide Parse;
    hide Reads;
    hide SkipTokens;
    var target := SkipTokens(line, 2);
    assert Exec(st, depth, line, effect) == ExecArgv(st, depth, all, line, effect);
    var st' := Exec(st, depth, line, effect);
    assert st' == st.(table := st.table[name := Alias(target)]);
    AliasRunsTarget(st', depth, use, name, args, target, effect);
  }

  /** What is refused: an open quote, an unknown command, and too few arguments. Nothing
      changes but for the complaint. */
  lemma RefusedLines(st: State, depth: nat, line: string, effect: Effect)
    requires depth <= MAX_NEST
    requires match Parse(line)
      case None => true
      case Some(argv) =>
        argv != [] && argv[0] != "" &&
        (argv[0] in st.table ==>
          match st.table[argv[0]]
          case Multi => |argv| == 1
          case WithHistory => |argv| == 1
          case Startup => |argv| == 1
          case DefineAlias => |argv| <= 2
          case _ => false)
    ensures Exec(st, depth, line, effect) == State(st.table, st.log + [Complained(line)])
  {
  }
}

/** The commands `yes` and `no` (commands.c): they run a line taken from the current message,
    so running a command line need not end. Here it is run for a limited number of steps. */
module Answers {
  import opened Strings
  import opened Quoting
  import opened Commands

  /** A message that may be a question, with the lines that answer it. */
  datatype Message =
    Message(question: bool, answered: bool, yescommand: Option<string>, nocommand: Option<string>)

  function Answer(m: Message, yes: bool): Option<string> { if yes then m.yescommand else m.nocommand }

  /** The interpreter's state, the messages of the view, and the current one. */
  datatype World = World(st: State, messages: seq<Message>, current: nat)

  /** What a plain command does to the table, and to the messages and the current one. */
  datatype Plain = Plain(effect: Effect, view: (seq<string>, seq<Message>, nat) -> (seq<Message>, nat))

  /** The names of the answering commands: true for `yes`, false for `no`. */
  type Names = map<string, bool>

  function Noted(w: World, e: Event): World { w.(st := Note(w.st, e)) }

  /** Running a line in at most n nested steps; None if they are not enough. */
  function Run(n: nat, w: World, depth: nat, line: string, names: Names, plain: Plain): Option<World>
    requires depth <= MAX_NEST
    decreases n, 1
  {
    if n == 0 then None
    else match Parse(line)
      case None => Some(Noted(w, Complained(line)))
      case Some(argv) => if argv == [] then Some(w) else RunArgv(n, w, depth, argv, line, names, plain)
  }

  function RunArgv(n: nat, w: World, depth: nat, argv: seq<string>, line: string, names: Names, plain: Plain)
    : Option<World>
    requires n > 0 && depth <= MAX_NEST && argv != []
    decreases n, 0
  {
    var rest := SkipTokens(line, 1);
    if argv[0] == "" then Some(w)
    else if argv[0] !in w.st.table then Some(Noted(w, Complained(line)))
    else match w.st.table[argv[0]]
      case Alias(target) =>
        if depth > 50 then Some(Noted(w, LoopDetected(line)))
        else Run(n - 1, Noted(w, Expanded(depth)), depth + 1, target + " " + rest, names, plain)
      case Multi =>
        if |argv| < 2 || MultiBody(argv[0], rest) == None then Some(Noted(w, Complained(line)))
        else RunAll(n - 1, w, depth, Split(MultiBody(argv[0], rest).value), names, plain)
      case WithHistory =>
        if |argv| < 2 then Some(Noted(w, Complained(line)))
        else Run(n - 1, Noted(w, Stored(rest)), depth, rest, names, plain)
      case Startup =>
        if |argv| < 2 then Some(Noted(w, Complained(line)))
        else
          var after := Run(n - 1, w, depth, rest, names, plain);
          if after == None then None else Some(Noted(after.value, AddedStartup(rest)))
      case DefineAlias =>
        if |argv| < 3 then Some(Noted(w, Complained(line)))
        else Some(w.(st := w.st.(table := w.st.table[argv[1] := Alias(SkipTokens(line, 2))])))
      case Direct =>
        if argv[0] in names then RunAnswer(n - 1, w, depth, names[argv[0]], line, names, plain)
        else Some(RunPlain(w, argv, plain))
  }

  function RunPlain(w: World, argv: seq<string>, plain: Plain): World {
    var (messages, current) := plain.view(argv, w.messages, w.current);
    World(Note(w.st.(table := plain.effect(argv, w.st.table)), Ran(argv)), messages, current)
  }

  /** `owl_command_yes` and `owl_command_no`: the message is marked as answered only after its
      line has been run. */
  function RunAnswer(n: nat, w: World, depth: nat, yes: bool, line: string, names: Names, plain: Plain): Option<World>
    requires depth <= MAX_NEST
    decreases n, 2
  {
    if !Open(w, yes) then Some(Noted(w, Complained(line)))
    else match Run(n, w, depth, Answer(w.messages[w.current], yes).value, names, plain)
      case None => None
      case Some(w') =>
        if w.current >= |w'.messages| then Some(w')
        else Some(w'.(messages := w'.messages[w.current := w'.messages[w.current].(answered := true)]))
  }

  /** The current message is a question that can still be answered like this. */
  predicate Open(w: World, yes: bool) {
    w.current < |w.messages| &&
    var m := w.messages[w.current]; m.question && !m.answered && Answer(m, yes) != None
  }

  function RunAll(n: nat, w: World, depth: nat, lines: seq<string>, names: Names, plain: Plain): Option<World>
    requires depth <= MAX_NEST
    decreases n, 2, |lines|
  {
    if lines == [] then Some(w)
    else match Run(n, w, depth, lines[0], names, plain)
      case None => None
      case Some(w') => RunAll(n, w', depth, lines[1..], names, plain)
  }

  // ------------------------------------------------------------- more steps change nothing

  lemma {:induction false} RunMore(n: nat, w: World, depth: nat, line: string, names: Names, plain: Plain)
    requires depth <= MAX_NEST && Run(n, w, depth, line, names, plain).Some?
    ensures Run(n + 1, w, depth, line, names, plain) == Run(n, w, depth, line, names, plain)
    decreases n, 1
  {
    hide MultiBody;
    hide Split;
    hide SkipTokens;
    hide Parse;
    match Parse(line)
    case None =>
    case Some(argv) =>
      if argv != [] { RunArgvMore(n, w, depth, argv, line, names, plain); }
  }

  lemma {:induction false} RunArgvMore(n: nat, w: World, depth: nat, argv: seq<string>, line: string, names: Names,
                                       plain: Plain)
    requires n > 0 && depth <= MAX_NEST && argv != [] && RunArgv(n, w, depth, argv, line, names, plain).Some?
    ensures RunArgv(n + 1, w, depth, argv, line, names, plain) == RunArgv(n, w, depth, argv, line, names, plain)
    decreases n, 0
  {
    hide Run;
    hide MultiBody;
    hide Split;
    hide SkipTokens;
    var rest := SkipTokens(line, 1);
    if argv[0] != "" && argv[0] in w.st.table {
      match w.st.table[argv[0]]
      case Alias(target) =>
        if depth <= 50 {
          RunMore(n - 1, Noted(w, Expanded(depth)), depth + 1, target + " " + rest, names, plain);
        }
      case Multi =>
        if |argv| >= 2 && MultiBody(argv[0], rest) != None {
          RunAllMore(n - 1, w, depth, Split(MultiBody(argv[0], rest).value), names, plain);
        }
      case WithHistory =>
        if |argv| >= 2 { RunMore(n - 1, Noted(w, Stored(rest)), depth, rest, names, plain); }
      case Startup =>
        if |argv| >= 2 { RunMore(n - 1, w, depth, rest, names, plain); }
      case DefineAlias =>
      case Direct =>
        if argv[0] in names && Open(w, names[argv[0]]) {
          RunMore(n - 1, w, depth, Answer(w.messages[w.current], names[argv[0]]).value, names, plain);
        }
    }
  }

  lemma {:induction false} RunAllMore(n: nat, w: World, depth: nat, lines: seq<string>, names: Names, plain: Plain)
    requires depth <= MAX_NEST && RunAll(n, w, depth, lines, names, plain).Some?
    ensures RunAll(n + 1, w, depth, lines, names, plain) == RunAll(n, w, depth, lines, names, plain)
    decreases n, 2, |lines|
  {
    hide Run;
    if lines == [] {
    } else {
      RunMore(n, w, depth, lines[0], names, plain);
      RunAllMore(n, Run(n, w, depth, lines[0], names, plain).value, depth, lines[1..], names, plain);
    }
  }

  lemma {:induction false} RunLonger(n: nat, k: nat, w: World, depth: nat, line: string, names: Names, plain: Plain)
    requires n <= k && depth <= MAX_NEST && Run(n, w, depth, line, names, plain).Some?
    ensures Run(k, w, depth, line, names, plain) == Run(n, w, depth, line, names, plain)
    decreases k
  {
    hide Run;
    if k == n {
    } else {
      RunLonger(n, k - 1, w, depth, line, names, plain);
      RunMore(k - 1, w, depth, line, names, plain);
    }
  }

  lemma {:induction false} RunAllLonger(n: nat, k: nat, w: World, depth: nat, lines: seq<string>, names: Names,
                                        plain: Plain)
    requires n <= k && depth <= MAX_NEST && RunAll(n, w, depth, lines, names, plain).Some?
    ensures RunAll(k, w, depth, lines, names, plain) == RunAll(n, w, depth, lines, names, plain)
    decreases k
  {
    hide RunAll;
    if k == n {
    } else {
      RunAllLonger(n, k - 1, w, depth, lines, names, plain);
      RunAllMore(k - 1, w, depth, lines, names, plain);
    }
  }

  // ------------------------------------------- without the answering commands every line ends

  /** Without them enough steps always suffice, and do what `Exec` says. */
  lemma {:induction false} RunIsExec(w: World, depth: nat, line: string, plain: Plain) returns (n: nat)
    requires depth <= MAX_NEST
    ensures Run(n, w, depth, line, map[], plain).Some?
    ensures Run(n, w, depth, line, map[], plain).value.st == Exec(w.st, depth, line, plain.effect)
    decreases MAX_NEST - depth, |line|, 1
  {
    hide MultiBody;
    hide Split;
    hide SkipTokens;
    hide Parse;
    hide ExecArgv;
    hide RunArgv;
    n := 1;
    match Parse(line)
    case None =>
    case Some(argv) =>
      if argv != [] { n := RunArgvIsExecArgv(w, depth, argv, line, plain); }
  }

  lemma {:induction false} RunArgvIsExecArgv(w: World, depth: nat, argv: seq<string>, line: string, plain: Plain)
    returns (n: nat)
    requires depth <= MAX_NEST && argv != [] && Parse(line) == Some(argv)
    ensures n > 0 && RunArgv(n, w, depth, argv, line, map[], plain).Some?
    ensures RunArgv(n, w, depth, argv, line, map[], plain).value.st == ExecArgv(w.st, depth, argv, line, plain.effect)
    decreases MAX_NEST - depth, |line|, 0
  {
    NonEmptyLine(line, argv);
    SkipTokensShrinks(line, 1);
    hide MultiBody;
    hide Split;
    hide SkipTokens;
    hide Parse;
    hide Run;
    hide RunAll;
    hide Exec;
    hide ExecAll;
    var rest := SkipTokens(line, 1);
    n := 1;
    if argv[0] != "" && argv[0] in w.st.table {
      match w.st.table[argv[0]]
      case Alias(target) =>
        if depth <= 50 {
          n := RunIsExec(Noted(w, Expanded(depth)), depth + 1, target + " " + rest, plain);
          n := n + 1;
        }
      case Multi =>
        if |argv| >= 2 && MultiBody(argv[0], rest) != None {
          MultiShrinks(argv[0], line);
          n := RunAllIsExecAll(w, depth, Split(MultiBody(argv[0], rest).value), |line|, plain);
          n := n + 1;
        }
      case WithHistory =>
        if |argv| >= 2 {
          n := RunIsExec(Noted(w, Stored(rest)), depth, rest, plain);
          n := n + 1;
        }
      case Startup =>
        if |argv| >= 2 {
          n := RunIsExec(w, depth, rest, plain);
          n := n + 1;
        }
      case DefineAlias =>
      case Direct =>
    }
  }

  lemma NonEmptyLine(line: string, argv: seq<string>)
    requires Parse(line) == Some(argv) && argv != []
    ensures line != ""
  {
  }

  lemma {:induction false} RunAllIsExecAll(w: World, depth: nat, lines: seq<string>, bound: nat, plain: Plain)
    returns (n: nat)
    requires depth <= MAX_NEST && forall i :: 0 <= i < |lines| ==> |lines[i]| < bound
    ensures RunAll(n, w, depth, lines, map[], plain).Some?
    ensures RunAll(n, w, depth, lines, map[], plain).value.st == ExecAll(w.st, depth, lines, bound, plain.effect)
    decreases MAX_NEST - depth, bound, 0, |lines|
  {
    hide Run;
    hide Exec;
    n := 0;
    if lines == [] {
    } else {
      var first := RunIsExec(w, depth, lines[0], plain);
      var w' := Run(first, w, depth, lines[0], map[], plain).value;
      var more := RunAllIsExecAll(w', depth, lines[1..], bound, plain);
      n := if first < more then more else first;
      RunLonger(first, n, w, depth, lines[0], map[], plain);
      RunAllLonger(more, n, w', depth, lines[1..], map[], plain);
    }
  }

  // --------------------------------------------------------------------- with them

  /** The line runs an answering command. */
  predicate IsAnswer(line: string, yes: bool, table: Table, names: Names) {
    var argv := Parse(line);
    argv.Some? && argv.value != [] && argv.value[0] != "" && argv.value[0] in table &&
    table[argv.value[0]] == Direct && argv.value[0] in names && names[argv.value[0]] == yes
  }

  /** `yes` runs the message's yes-command and `no` its no-command. After that the message
      that was current when it was asked is answered, and everything else is as the run of
      that command left it. */
  lemma QuestionIsAnswered(n: nat, w: World, w': World, depth: nat, line: string, yes: bool, names: Names, plain: Plain)
    requires depth <= MAX_NEST && IsAnswer(line, yes, w.st.table, names) && w.current < |w.messages|
    requires var m := w.messages[w.current];
      m.question && !m.answered && (if yes then m.yescommand.Some? else m.nocommand.Some?) &&
      Run(n, w, depth, if yes then m.yescommand.value else m.nocommand.value, names, plain) == Some(w')
    ensures var r := Run(n + 1, w, depth, line, names, plain);
      r.Some? && r.value.st == w'.st && r.value.current == w'.current && |r.value.messages| == |w'.messages| &&
      forall i :: 0 <= i < |w'.messages| ==>
        r.value.messages[i] == if i == w.current then w'.messages[i].(answered := true) else w'.messages[i]
  {
    hide Parse;
    hide SkipTokens;
    hide MultiBody;
    hide Split;
    var argv := Parse(line).value;
    assert Run(n + 1, w, depth, line, names, plain) == RunArgv(n + 1, w, depth, argv, line, names, plain);
    assert RunArgv(n + 1, w, depth, argv, line, names, plain) == RunAnswer(n, w, depth, yes, line, names, plain);
  }

  /** Without a question that is open and has such a command there is only a complaint. */
  lemma NothingToAnswer(n: nat, w: World, depth: nat, line: string, yes: bool, names: Names, plain: Plain)
    requires depth <= MAX_NEST && IsAnswer(line, yes, w.st.table, names)
    requires w.current < |w.messages| ==>
      var m := w.messages[w.current];
      !m.question || m.answered || (if yes then m.yescommand == None else m.nocommand == None)
    ensures Run(n + 1, w, depth, line, names, plain) ==
            Some(World(State(w.st.table, w.st.log + [Complained(line)]), w.messages, w.current))
  {
    hide Parse;
    hide SkipTokens;
    hide MultiBody;
    hide Split;
    var argv := Parse(line).value;
    assert Run(n + 1, w, depth, line, names, plain) == RunArgv(n + 1, w, depth, argv, line, names, plain);
    assert RunArgv(n + 1, w, depth, argv, line, names, plain) == RunAnswer(n, w, depth, yes, line, names, plain);
  }

  /** Any other plain command runs, and changes the messages and the current one as it does. */
  lemma PlainCommandRuns(n: nat, w: World, depth: nat, line: string, argv: seq<string>, names: Names, plain: Plain)
    requires depth <= MAX_NEST && Parse(line) == Some(argv) && IsDirect(argv, w.st.table) && argv[0] !in names
    ensures Run(n + 1, w, depth, line, names, plain) ==
            Some(World(State(plain.effect(argv, w.st.table), w.st.log + [Ran(argv)]),
                       plain.view(argv, w.messages, w.current).0, plain.view(argv, w.messages, w.current).1))
  {
    hide Parse;
    hide SkipTokens;
    hide MultiBody;
    hide Split;
    assert Run(n + 1, w, depth, line, names, plain) == RunArgv(n + 1, w, depth, argv, line, names, plain);
  }

  /** Answering an open question ends exactly if the line that answers it does, one step
      later. */
  lemma AnswerEndsIff(n: nat, w: World, depth: nat, line: string, yes: bool, names: Names, plain: Plain)
    requires depth <= MAX_NEST && IsAnswer(line, yes, w.st.table, names) && Open(w, yes)
    ensures Run(n + 1, w, depth, line, names, plain).Some? <==>
      Run(n, w, depth, Answer(w.messages[w.current], yes).value, names, plain).Some?
  {
    hide Parse;
    hide SkipTokens;
    hide MultiBody;
    hide Split;
    var argv := Parse(line).value;
    assert Run(n + 1, w, depth, line, names, plain) == RunArgv(n + 1, w, depth, argv, line, names, plain);
    assert RunArgv(n + 1, w, depth, argv, line, names, plain) == RunAnswer(n, w, depth, yes, line, names, plain);
  }

  /** A question whose answer is to answer it is never answered: no number of steps is enough. */
  lemma {:induction false} AnswerNeverEnds(n: nat, w: World, depth: nat, line: string, yes: bool, names: Names,
                                           plain: Plain)
    requires depth <= MAX_NEST && IsAnswer(line, yes, w.st.table, names) && Open(w, yes)
    requires IsAnswer(Answer(w.messages[w.current], yes).value, yes, w.st.table, names)
    ensures Run(n, w, depth, line, names, plain) == None
    decreases n
  {
    hide IsAnswer;
    if n == 0 {
    } else {
      AnswerEndsIff(n - 1, w, depth, line, yes, names, plain);
      AnswerNeverEnds(n - 1, w, depth, Answer(w.messages[w.current], yes).value, yes, names, plain);
    }
  }

  /** For instance `yes` itself. */
  lemma YesNeverEnds(n: nat, plain: Plain)
    ensures var question := Message(true, false, Some("yes"), None);
      var w := World(State(map["yes" := Direct], []), [question], 0);
      Run(n, w, 0, "yes", map["yes" := true, "no" := false], plain) == None
  {
    var question := Message(true, false, Some("yes"), None);
    var w := World(State(map["yes" := Direct], []), [question], 0);
    QuotingRoundTrip(["yes"]);
    var yes := "yes";
    assert QuoteArgv([yes]) == Quote(yes) == yes;
    AnswerNeverEnds(n, w, 0, yes, true, map["yes" := true, "no" := false], plain);
  }
}

/** The command interpreter (cmd.c, commands.c, functions.c): looking a command line up
    and the commands that re-enter the interpreter with more command text. */
module Commands {
  import opened Strings
  import opened Quoting
  import opened CommandLines

  /** How a name in the command table is carried out. `Direct` commands do not re-enter
      the interpreter. */
  datatype Command =
    | Alias(target: string)
    | Multi
    | WithHistory
    | Startup
    | DefineAlias
    | Direct

  type Table = map<string, Command>

  /** What a command line did, in order. `Expanded` records how deep an alias was. */
  datatype Event =
    | Ran(argv: seq<string>)
    | Expanded(depth: nat)
    | Stored(line: string)
    | AddedStartup(line: string)
    | Complained(line: string)
    | LoopDetected(line: string)

  /** The interpreter's state: the table and the history of events. */
  datatype State = State(table: Table, log: seq<Event>)

  /** What a plain command does to the table: anything at all. */
  type Effect = (seq<string>, Table) -> Table

  /** Expansions nest at most this deep. */
  const MAX_NEST := 51

  function Note(st: State, e: Event): State { st.(log := st.log + [e]) }

  // ---------------------------------------------------- splitting multi's argument

  /** `g_strsplit_set(s, ";", 0)`: no pieces for the empty string. */
  function Split(s: string): seq<string> { if s == "" then [] else Pieces(s, "") }

  function Pieces(s: string, cur: string): seq<string>
    decreases |s|
  {
    if s == "" then [cur]
    else if s[0] == ';' then [cur] + Pieces(s[1..], "")
    else Pieces(s[1..], cur + [s[0]])
  }

  /** For '(': cut the text at its last ')', which only blanks may follow. */
  function CutClose(s: string): Option<string>
    decreases |s|
  {
    if s == "" then None
    else if s[|s| - 1] == ')' then Some(s[..|s| - 1])
    else if s[|s| - 1] != ' ' then None
    else CutClose(s[..|s| - 1])
  }

  /** The body of a multi. A text of blanks alone is kept as it is. */
  function MultiBody(name: string, text: string): Option<string> {
    if name != "(" then Some(text)
    else if AllBlank(text) then Some(text)
    else CutClose(text)
  }

  predicate AllBlank(s: string) { forall i :: 0 <= i < |s| ==> s[i] == ' ' }

  lemma {:induction false} PiecesShorter(s: string, cur: string)
    ensures forall i :: 0 <= i < |Pieces(s, cur)| ==> |Pieces(s, cur)[i]| <= |s| + |cur|
    decreases |s|
  {
    if s == "" {
    } else {
      if s[0] == ';' { PiecesShorter(s[1..], ""); } else { PiecesShorter(s[1..], cur + [s[0]]); }
    }
  }

  lemma {:induction false} CutCloseShorter(s: string)
    ensures CutClose(s).Some? ==> |CutClose(s).value| < |s|
    decreases |s|
  {
    if s == "" || s[|s| - 1] != ' ' {
    } else {
      CutCloseShorter(s[..|s| - 1]);
    }
  }

  /** Every piece a multi runs is shorter than the line it came from. */
  lemma MultiShrinks(name: string, line: string)
    requires line != ""
    ensures var body := MultiBody(name, SkipTokens(line, 1));
            body.Some? ==> forall i :: 0 <= i < |Split(body.value)| ==> |Split(body.value)[i]| < |line|
  {
    var text := SkipTokens(line, 1);
    SkipTokensShrinks(line, 1);
    CutCloseShorter(text);
    var body := MultiBody(name, text);
    if body.Some? { PiecesShorter(body.value, ""); }
  }

  // -------------------------------------------------------------- the interpreter

  /** Running a line, with `depth` alias expansions already going on. The measure is
      the expansions left, then the length of the line: an alias may grow the line but
      uses an expansion up, everything else runs a shorter line. */
  function Exec(st: State, depth: nat, line: string, effect: Effect): State
    requires depth <= MAX_NEST
    decreases MAX_NEST - depth, |line|, 1
  {
    match Parse(line)
    case None => Note(st, Complained(line))
    case Some(argv) => if argv == [] then st else ExecArgv(st, depth, argv, line, effect)
  }

  function ExecArgv(st: State, depth: nat, argv: seq<string>, line: string, effect: Effect): State
    requires depth <= MAX_NEST && argv != [] && Parse(line) == Some(argv)
    decreases MAX_NEST - depth, |line|, 0
  {
    SkipTokensShrinks(line, 1);
    var rest := SkipTokens(line, 1);
    if argv[0] == "" then st
    else if argv[0] !in st.table then Note(st, Complained(line))
    else match st.table[argv[0]]
      case Alias(target) =>
        if depth > 50 then Note(st, LoopDetected(line))
        else Exec(Note(st, Expanded(depth)), depth + 1, target + " " + rest, effect)
      case Multi =>
        if |argv| < 2 || MultiBody(argv[0], rest) == None then Note(st, Complained(line))
        else
          MultiShrinks(argv[0], line);
          ExecAll(st, depth, Split(MultiBody(argv[0], rest).value), |line|, effect)
      case WithHistory =>
        if |argv| < 2 then Note(st, Complained(line)) else Exec(Note(st, Stored(rest)), depth, rest, effect)
      case Startup =>
        if |argv| < 2 then Note(st, Complained(line))
        else Note(Exec(st, depth, rest, effect), AddedStartup(rest))
      case DefineAlias =>
        if |argv| < 3 then Note(st, Complained(line))
        else st.(table := st.table[argv[1] := Alias(SkipTokens(line, 2))])
      case Direct => Note(st.(table := effect(argv, st.table)), Ran(argv))
  }

  function ExecAll(st: State, depth: nat, lines: seq<string>, bound: nat, effect: Effect): State
    requires depth <= MAX_NEST && forall i :: 0 <= i < |lines| ==> |lines[i]| < bound
    decreases MAX_NEST - depth, bound, 0, |lines|
  {
    if lines == [] then st
    else ExecAll(Exec(st, depth, lines[0], effect), depth, lines[1..], bound, effect)
  }

  lemma ParseEmpty()
    ensures Parse("") == Some([])
  {
  }

  class Interpreter {
    var table: Table
    var log: seq<Event>
    /** The static counter of `owl_cmd_execute`. */
    var alias_recurse_depth: nat
    const effect: Effect

    constructor (commands: Table, effect: Effect)
      ensures table == commands && log == [] && alias_recurse_depth == 0 && this.effect == effect
    {
      table, log, alias_recurse_depth := commands, [], 0;
      this.effect := effect;
    }

    function St(): State
      reads this
    {
      State(table, log)
    }

    /** `owl_function_command` and `owl_cmddict_execute`. Whatever the alias table holds
        or becomes on the way, the line finishes, and the counter is back where it was. */
    method Execute(line: string)
      requires alias_recurse_depth <= MAX_NEST
      modifies this
      ensures St() == Exec(old(St()), old(alias_recurse_depth), line, effect)
      ensures alias_recurse_depth == old(alias_recurse_depth)
      decreases MAX_NEST - alias_recurse_depth, |line|, 1
    {
      var argv := ParseLine(line);
      if argv == None {
        log := log + [Complained(line)];
        return;
      }
      if |argv.value| < 1 { return; }
      ExecuteCommand(argv.value, line);
    }

    /** `_owl_cmddict_execute` and `owl_cmd_execute`. */
    method ExecuteCommand(argv: seq<string>, line: string)
      requires alias_recurse_depth <= MAX_NEST && argv != [] && Parse(line) == Some(argv)
      modifies this
      ensures St() == ExecArgv(old(St()), old(alias_recurse_depth), argv, line, effect)
      ensures alias_recurse_depth == old(alias_recurse_depth)
      decreases MAX_NEST - alias_recurse_depth, |line|, 0
    {
      ParseEmpty();
      SkipTokensShrinks(line, 1);
      if argv[0] == "" { return; }
      if argv[0] !in table {
        log := log + [Complained(line)];
        return;
      }
      match table[argv[0]]
      case Alias(target) =>
        alias_recurse_depth := alias_recurse_depth + 1;
        if alias_recurse_depth - 1 > 50 {
          log := log + [LoopDetected(line)];
        } else {
          log := log + [Expanded(alias_recurse_depth - 1)];
          var args := SkipTokensFrom(line, 1);
          Execute(target + " " + args);
        }
        alias_recurse_depth := alias_recurse_depth - 1;
      case Multi => RunMulti(argv, line);
      case WithHistory =>
        if |argv| < 2 {
          log := log + [Complained(line)];
        } else {
          var rest := SkipTokensFrom(line, 1);
          log := log + [Stored(rest)];
          Execute(rest);
        }
      case Startup =>
        if |argv| < 2 {
          log := log + [Complained(line)];
        } else {
          var rest := SkipTokensFrom(line, 1);
          Execute(rest);
          log := log + [AddedStartup(rest)];
        }
      case DefineAlias =>
        if |argv| < 3 {
          log := log + [Complained(line)];
        } else {
          var target := SkipTokensFrom(line, 2);
          table := table[argv[1] := Alias(target)];
        }
      case Direct =>
        table := effect(argv, table);
        log := log + [Ran(argv)];
    }

    /** `owl_command_multi`. */
    method RunMulti(argv: seq<string>, line: string)
      requires alias_recurse_depth <= MAX_NEST && argv != [] && Parse(line) == Some(argv) && line != ""
      requires argv[0] != "" && argv[0] in table && table[argv[0]] == Multi
      modifies this
      ensures St() == ExecArgv(old(St()), old(alias_recurse_depth), argv, line, effect)
      ensures alias_recurse_depth == old(alias_recurse_depth)
      decreases MAX_NEST - alias_recurse_depth, |line|, -1
    {
      if |argv| < 2 {
        log := log + [Complained(line)];
        return;
      }
      var newbuff := SkipTokensFrom(line, 1);
      if argv[0] == "(" {
        var cut := CutAtClose(newbuff);
        if cut == None {
          log := log + [Complained(line)];
          return;
        }
        newbuff := cut.value;
      }
      var commands := Split(newbuff);
      MultiShrinks(argv[0], line);
      ghost var st, depth := St(), alias_recurse_depth;
      var i := 0;
      while i < |commands|
        invariant 0 <= i <= |commands| && alias_recurse_depth == depth
        invariant ExecAll(St(), depth, commands[i..], |line|, effect) == ExecAll(st, depth, commands, |line|, effect)
      {
        assert commands[i..][1..] == commands[i + 1..];
        Execute(commands[i]);
        i := i + 1;
      }
    }

    /** The loop that looks for the closing parenthesis from the end. */
    method CutAtClose(text: string) returns (cut: Option<string>)
      ensures cut == MultiBody("(", text)
    {
      var i := |text| - 1;
      assert text[..i + 1] == text;
      while i >= 0
        invariant -1 <= i < |text|
        invariant AllBlank(text[i + 1..])
        invariant CutClose(text) == CutClose(text[..i + 1])
      {
        if text[i] == ')' {
          assert text[..i + 1][..i] == text[..i];
          assert !AllBlank(text);
          return Some(text[..i]);
        } else if text[i] != ' ' {
          assert !AllBlank(text);
          return None;
        }
        assert text[..i + 1][..i] == text[..i];
        i := i - 1;
      }
      assert text[0..] == text;
      return Some(text);
    }
  }

  // ------------------------------------------------------------- what runs can do

  /** Events only accumulate, and every expansion started within the allowed nesting. */
  ghost predicate Extends(st: State, st': State, depth: nat) {
    st.log <= st'.log &&
    forall i :: |st.log| <= i < |st'.log| && st'.log[i].Expanded? ==> depth <= st'.log[i].depth < MAX_NEST
  }

  lemma ExtendsTrans(a: State, b: State, c: State, depth: nat)
    requires Extends(a, b, depth) && Extends(b, c, depth)
    ensures Extends(a, c, depth)
  {
  }

  /** At most 51 alias expansions are ever going on at once, whatever the tables. */
  lemma {:induction false} NestingIsBounded(st: State, depth: nat, line: string, effect: Effect)
    requires depth <= MAX_NEST
    ensures Extends(st, Exec(st, depth, line, effect), depth)
    decreases MAX_NEST - depth, |line|, 1
  {
    match Parse(line)
    case None =>
    case Some(argv) => if argv != [] { NestingIsBoundedArgv(st, depth, argv, line, effect); }
  }

  lemma {:induction false} NestingIsBoundedArgv(st: State, depth: nat, argv: seq<string>, line: string, effect: Effect)
    requires depth <= MAX_NEST && argv != [] && Parse(line) == Some(argv)
    ensures Extends(st, ExecArgv(st, depth, argv, line, effect), depth)
    decreases MAX_NEST - depth, |line|, 0
  {
    ParseEmpty();
    SkipTokensShrinks(line, 1);
    var rest := SkipTokens(line, 1);
    if argv[0] != "" && argv[0] in st.table {
      match st.table[argv[0]]
      case Alias(target) =>
        if depth <= 50 {
          NestingIsBounded(Note(st, Expanded(depth)), depth + 1, target + " " + rest, effect);
        }
      case Multi =>
        if |argv| >= 2 && MultiBody(argv[0], rest) != None {
          MultiShrinks(argv[0], line);
          NestingIsBoundedAll(st, depth, Split(MultiBody(argv[0], rest).value), |line|, effect);
        }
      case WithHistory =>
        if |argv| >= 2 { NestingIsBounded(Note(st, Stored(rest)), depth, rest, effect); }
      case Startup =>
        if |argv| >= 2 { NestingIsBounded(st, depth, rest, effect); }
      case _ =>
    }
  }

  lemma {:induction false} NestingIsBoundedAll(st: State, depth: nat, lines: seq<string>, bound: nat, effect: Effect)
    requires depth <= MAX_NEST && forall i :: 0 <= i < |lines| ==> |lines[i]| < bound
    ensures Extends(st, ExecAll(st, depth, lines, bound, effect), depth)
    decreases MAX_NEST - depth, bound, 0, |lines|
  {
    if lines == [] {
    } else {
      var st1 := Exec(st, depth, lines[0], effect);
      NestingIsBounded(st, depth, lines[0], effect);
      NestingIsBoundedAll(st1, depth, lines[1..], bound, effect);
      ExtendsTrans(st, st1, ExecAll(st1, depth, lines[1..], bound, effect), depth);
    }
  }

  /** The bound is reached: an alias for itself is expanded once at every depth up to the
      limit, and then the loop is reported. */
  lemma {:induction false} SelfAliasStops(st: State, depth: nat, name: string, line: string, effect: Effect)
    requires depth <= MAX_NEST && name != "" && NoneNasty(name)
    requires name in st.table && st.table[name] == Alias(name)
    requires line == name || line == name + " "
    ensures var st' := Exec(st, depth, line, effect);
            st'.table == st.table && |st'.log| == |st.log| + (MAX_NEST - depth) + 1 &&
            (forall d :: depth <= d < MAX_NEST ==> st'.log[|st.log| + (d - depth)] == Expanded(d)) &&
            st'.log[|st'.log| - 1].LoopDetected?
    decreases MAX_NEST - depth
  {
    SelfAliasLine(name, line);
    if depth > 50 {
    } else {
      var st1 := Note(st, Expanded(depth));
      SelfAliasStops(st1, depth + 1, name, name + " ", effect);
      var st' := Exec(st, depth, line, effect);
      assert st' == ExecArgv(st, depth, [name], line, effect) by { hide ExecArgv; }
      assert [name][0] == name;
      assert ExecArgv(st, depth, [name], line, effect) ==
        Exec(st1, depth + 1, name + " " + SkipTokens(line, 1), effect);
      NestingIsBounded(st1, depth + 1, name + " ", effect);
      assert st'.log[|st.log|] == st1.log[|st.log|] == Expanded(depth);
      forall d | depth < d < MAX_NEST ensures st'.log[|st.log| + (d - depth)] == Expanded(d) {
        assert |st.log| + (d - depth) == |st1.log| + (d - (depth + 1));
      }
    }
  }

  lemma SelfAliasLine(name: string, line: string)
    requires name != "" && NoneNasty(name) && (line == name || line == name + " ")
    ensures Parse(line) == Some([name]) && SkipTokens(line, 1) == "" && name + " " + SkipTokens(line, 1) == name + " "
  {
    var blank := if line == name then "" else " ";
    assert Quote(name) == name && line == name + blank;
    RunQuote([], name);
    RunConcat(START, name, blank);
    assert blank != "" ==> Run(Scan([], name, Plain), blank) == Scan([name], "", Between);
    assert [] + [name] == [name];
    SkipTokenQuote(name, blank);
    assert SkipSpaces(line) == line;
    assert blank != "" ==> blank[1..] == "";
    assert SkipSpaces(SkipToken(blank, None)) == "";
    assert SkipTokens(line, 1) == SkipTokens("", 0);
  }

  // ------------------------------------------------- aliases pass their arguments on

  /** Expanding an alias reads as the alias's own words followed by exactly the arguments
      it was invoked with, however they are spelled. */
  lemma AliasPassesArguments(line: string, name: string, args: seq<string>, target: string)
    requires Reads(line, [name] + args) && Parse(target).Some?
    ensures Parse(target + " " + SkipTokens(line, 1)) == Some(Parse(target).value + args)
  {
    hide Reads;
    hide SkipTokens;
    hide Parse;
    ReadsOn(line, [name] + args, 1);
    assert ([name] + args)[1..] == args;
    TextFollows(target, SkipTokens(line, 1));
  }

  /** The arguments are those of a plain command. */
  predicate IsDirect(argv: seq<string>, table: Table) {
    argv != [] && argv[0] != "" && argv[0] in table && table[argv[0]] == Direct
  }

  lemma DirectRuns(st: State, depth: nat, line: string, argv: seq<string>, effect: Effect)
    requires depth <= MAX_NEST && Parse(line) == Some(argv) && IsDirect(argv, st.table)
    ensures Exec(st, depth, line, effect) == State(effect(argv, st.table), st.log + [Ran(argv)])
  {
    hide Parse;
    assert Exec(st, depth, line, effect) == ExecArgv(st, depth, argv, line, effect);
  }

  /** So an alias for a plain command runs that command on its own words and the given
      arguments. */
  lemma AliasRunsTarget(st: State, depth: nat, line: string, name: string, args: seq<string>, target: string,
                        effect: Effect)
    requires depth < MAX_NEST && name != "" && name in st.table && st.table[name] == Alias(target)
    requires Reads(line, [name] + args)
    requires Parse(target).Some? && IsDirect(Parse(target).value, st.table)
    ensures var full := Parse(target).value + args;
            Exec(st, depth, line, effect) == State(effect(full, st.table), st.log + [Expanded(depth), Ran(full)])
  {
    AliasPassesArguments(line, name, args, target);
    var argv, full := [name] + args, Parse(target).value + args;
    var line', st1 := target + " " + SkipTokens(line, 1), Note(st, Expanded(depth));
    hide Parse;
    assert Exec(st, depth, line, effect) == ExecArgv(st, depth, argv, line, effect);
    assert argv[0] == name;
    assert ExecArgv(st, depth, argv, line, effect) == Exec(st1, depth + 1, line', effect);
    DirectRuns(st1, depth + 1, line', full, effect);
    assert st.log + [Expanded(depth)] + [Ran(full)] == st.log + [Expanded(depth), Ran(full)];
  }
}

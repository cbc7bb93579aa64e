/** The quoting layer of util.c: splitting a command line into arguments, quoting
    arguments so that they survive the split, and skipping leading arguments.

    A C string is a `string` without its terminating NUL. The NUL that ends a line
    is a separate event (`AtEnd`), so no character of a string is special because
    it would be the terminator. */
module Quoting {

  import opened Strings

  // ---------------------------------------------------------------- tokenizer

  /** Where the tokenizer stands: between arguments, inside an argument outside
      quotes, or inside quotes opened by `q`. */
  datatype Mode = Between | Plain | Quoted(q: char)

  /** The tokenizer's state: finished arguments, the argument being built, mode. */
  datatype Scan = Scan(argv: seq<string>, cur: string, mode: Mode)

  const START := Scan([], "", Between)

  predicate IsQuote(c: char) { c == '"' || c == '\'' }

  function InArg(st: Scan, c: char): Scan
    requires !st.mode.Between?
  {
    if IsQuote(c) then
      if st.mode == Quoted(c) then st.(mode := Plain)
      else if st.mode == Plain then st.(mode := Quoted(c))
      else st.(cur := st.cur + [c])
    else if c != ' ' && c != '\t' && c != '\n' then st.(cur := st.cur + [c])
    else if st.mode == Plain then Scan(st.argv + [st.cur], "", Between)
    else st.(cur := st.cur + [c])
  }

  function Step(st: Scan, c: char): Scan {
    if st.mode.Between? then
      if c == ' ' || c == '\t' then st else InArg(st.(mode := Plain), c)
    else InArg(st, c)
  }

  function Run(st: Scan, s: string): Scan
    decreases |s|
  {
    if s == "" then st else Run(Step(st, s[0]), s[1..])
  }

  /** The end of the line finishes an open argument; an open quote is an error. */
  function AtEnd(st: Scan): Option<seq<string>> {
    match st.mode
    case Between => Some(st.argv)
    case Plain => Some(st.argv + [st.cur])
    case Quoted(_) => None
  }

  /** What `owl_parseline` computes. */
  function Parse(line: string): Option<seq<string>> { AtEnd(Run(START, line)) }

  lemma {:induction false} RunConcat(st: Scan, a: string, b: string)
    ensures Run(st, a + b) == Run(Run(st, a), b)
    decreases |a|
  {
    if a == "" {
      assert a + b == b;
    } else {
      assert (a + b)[1..] == a[1..] + b;
      RunConcat(Step(st, a[0]), a[1..], b);
    }
  }

  /** `owl_parseline`, loop for loop. Leaving the gap between arguments re-reads the
      same character. */
  method ParseLine(line: string) returns (result: Option<seq<string>>)
    ensures result == Parse(line)
  {
    var argv: seq<string>, between, curarg, quote: Option<char> := [], true, "", None;
    var i := 0;
    while i < |line| + 1
      invariant 0 <= i <= |line| + 1
      invariant between ==> quote == None && curarg == ""
      invariant i <= |line| ==> AtEnd(Run(StateOf(argv, curarg, between, quote), line[i..])) == Parse(line)
      invariant i == |line| + 1 ==> Parse(line) == if quote != None then None else Some(argv)
      decreases |line| + 1 - i, between
    {
      ghost var st := StateOf(argv, curarg, between, quote);
      assert i < |line| ==> Run(st, line[i..]) == Run(Step(st, line[i]), line[i + 1..]);
      if between {
        if i == |line| || line[i] == ' ' || line[i] == '\t' {
          i := i + 1;
        } else {
          between := false;
        }
        continue;
      }
      if i < |line| && IsQuote(line[i]) {
        if quote == Some(line[i]) {
          quote := None;
        } else if quote == None {
          quote := Some(line[i]);
        } else {
          curarg := curarg + [line[i]];
        }
      } else if i < |line| && line[i] != ' ' && line[i] != '\t' && line[i] != '\n' {
        curarg := curarg + [line[i]];
      } else if quote == None {
        argv, curarg, between := argv + [curarg], "", true;
      } else if i < |line| {
        curarg := curarg + [line[i]];
      }
      i := i + 1;
    }
    result := if quote != None then None else Some(argv);
  }

  ghost function StateOf(argv: seq<string>, curarg: string, between: bool, quote: Option<char>): Scan {
    Scan(argv, curarg, if between then Between else if quote == None then Plain else Quoted(quote.value))
  }

  // ------------------------------------------------------------------ quoting

  predicate IsNasty(c: char) { IsQuote(c) || c == ' ' || c == '\n' || c == '\t' }

  predicate NoneNasty(s: string) { forall i :: 0 <= i < |s| ==> !IsNasty(s[i]) }

  const QUOTED_DOUBLE_QUOTE := "\"'\"'\""

  /** Body of the double-quoted form: every inner double quote is closed over,
      single-quoted, and the double quotes reopened. */
  function EscapeDouble(s: string): string {
    if s == "" then ""
    else (if s[0] == '"' then QUOTED_DOUBLE_QUOTE else [s[0]]) + EscapeDouble(s[1..])
  }

  /** What `owl_string_append_quoted_arg` appends. */
  function Quote(arg: string): string {
    if arg == "" then "''"
    else if NoneNasty(arg) then arg
    else if '\'' !in arg then "'" + arg + "'"
    else "\"" + EscapeDouble(arg) + "\""
  }

  /** What `owl_argv_quote` builds. */
  function QuoteArgv(argv: seq<string>): string {
    if argv == [] then ""
    else if |argv| == 1 then Quote(argv[0])
    else Quote(argv[0]) + " " + QuoteArgv(argv[1..])
  }

  lemma Enclosed(buf: string, q: string, body: string)
    ensures buf + q + body + q == buf + (q + body + q)
  {
  }

  /** The loop over an argument with both kinds of quote. */
  method AppendEscaped(buf: string, arg: string) returns (out: string)
    ensures out == buf + EscapeDouble(arg)
  {
    out := buf;
    var i := 0;
    while i < |arg|
      invariant 0 <= i <= |arg|
      invariant out + EscapeDouble(arg[i..]) == buf + EscapeDouble(arg)
    {
      ghost var before, rest := out, EscapeDouble(arg[i + 1..]);
      assert arg[i..][1..] == arg[i + 1..];
      if arg[i] == '"' {
        out := out + QUOTED_DOUBLE_QUOTE;
        assert before + (QUOTED_DOUBLE_QUOTE + rest) == out + rest;
      } else {
        out := out + [arg[i]];
        assert before + ([arg[i]] + rest) == out + rest;
      }
      i := i + 1;
    }
    assert EscapeDouble(arg[i..]) == "" && out + "" == out;
  }

  method AppendQuotedArg(buf: string, arg: string) returns (out: string)
    ensures out == buf + Quote(arg)
  {
    hide EscapeDouble;
    if arg == "" {
      out := buf + "''";
    } else if NoneNasty(arg) {
      out := buf + arg;
    } else if '\'' !in arg {
      out := buf + "'" + arg + "'";
      Enclosed(buf, "'", arg);
    } else {
      out := AppendEscaped(buf + "\"", arg);
      out := out + "\"";
      Enclosed(buf, "\"", EscapeDouble(arg));
    }
  }

  method ArgvQuote(argv: seq<string>) returns (buf: string)
    ensures buf == QuoteArgv(argv)
  {
    buf := "";
    var i := 0;
    while i < |argv|
      invariant 0 <= i <= |argv|
      invariant buf == QuoteArgv(argv[..i])
    {
      QuoteArgvSnoc(argv[..i], argv[i]);
      assert argv[..i] + [argv[i]] == argv[..i + 1];
      if i > 0 {
        buf := buf + " ";
      }
      buf := AppendQuotedArg(buf, argv[i]);
      i := i + 1;
    }
    assert argv[..i] == argv;
  }

  lemma {:induction false} QuoteArgvSnoc(argv: seq<string>, arg: string)
    ensures QuoteArgv(argv + [arg]) == (if argv == [] then "" else QuoteArgv(argv) + " ") + Quote(arg)
  {
    hide Quote;
    var all := argv + [arg];
    if argv == [] {
      assert QuoteArgv(all) == Quote(arg);
    } else {
      assert all[1..] == argv[1..] + [arg];
      QuoteArgvSnoc(argv[1..], arg);
      if |argv| > 1 {
        var head, mid, last := Quote(argv[0]) + " ", QuoteArgv(argv[1..]), Quote(arg);
        assert head + (mid + " " + last) == head + mid + " " + last;
      }
    }
  }

  // ------------------------------------------------- quoting is undone by parsing

  lemma {:induction false} RunNoneNasty(st: Scan, s: string)
    requires st.mode == Plain && NoneNasty(s)
    ensures Run(st, s) == st.(cur := st.cur + s)
    decreases |s|
  {
    if s == "" {
      assert st.cur + s == st.cur;
    } else {
      RunNoneNasty(Step(st, s[0]), s[1..]);
      assert (st.cur + [s[0]]) + s[1..] == st.cur + s;
    }
  }

  lemma {:induction false} RunInsideQuotes(st: Scan, q: char, s: string)
    requires IsQuote(q) && st.mode == Quoted(q) && q !in s
    ensures Run(st, s) == st.(cur := st.cur + s)
    decreases |s|
  {
    if s == "" {
      assert st.cur + s == st.cur;
    } else {
      RunInsideQuotes(Step(st, s[0]), q, s[1..]);
      assert (st.cur + [s[0]]) + s[1..] == st.cur + s;
    }
  }

  lemma {:induction false} RunQuotedDoubleQuote(st: Scan)
    requires st.mode == Quoted('"')
    ensures Run(st, QUOTED_DOUBLE_QUOTE) == st.(cur := st.cur + "\"")
  {
  }

  lemma {:induction false} RunEscaped(st: Scan, s: string)
    requires st.mode == Quoted('"')
    ensures Run(st, EscapeDouble(s)) == st.(cur := st.cur + s)
    decreases |s|
  {
    if s == "" {
      assert st.cur + s == st.cur;
    } else {
      var piece := if s[0] == '"' then QUOTED_DOUBLE_QUOTE else [s[0]];
      var st' := st.(cur := st.cur + [s[0]]);
      assert Run(st, piece) == st' by {
        if s[0] == '"' {
          RunQuotedDoubleQuote(st);
        } else {
          RunInsideQuotes(st, '"', piece);
        }
      }
      RunConcat(st, piece, EscapeDouble(s[1..]));
      RunEscaped(st', s[1..]);
      assert (st.cur + [s[0]]) + s[1..] == st.cur + s;
    }
  }

  /** Read from a gap between arguments, a quoted argument is exactly that argument,
      still open. */
  lemma RunQuote(argv: seq<string>, arg: string)
    ensures Run(Scan(argv, "", Between), Quote(arg)) == Scan(argv, arg, Plain)
  {
    var st := Scan(argv, "", Between);
    var plain := st.(mode := Plain);
    if arg == "" {
      assert "''"[1..] == "'";
      assert Run(st, "''") == Run(Step(st, '\''), "'");
    } else if NoneNasty(arg) {
      assert Run(st, arg) == Run(Step(plain, arg[0]), arg[1..]) == Run(plain, arg);
      RunNoneNasty(plain, arg);
    } else {
      var q, body := if '\'' !in arg then '\'' else '"', if '\'' !in arg then arg else EscapeDouble(arg);
      assert Quote(arg) == [q] + (body + [q]);
      RunConcat(st, [q], body + [q]);
      var open := plain.(mode := Quoted(q));
      RunConcat(open, body, [q]);
      if '\'' !in arg {
        RunInsideQuotes(open, q, arg);
      } else {
        RunEscaped(open, arg);
      }
    }
  }

  lemma {:induction false} RunQuoteArgv(done: seq<string>, argv: seq<string>)
    requires argv != []
    ensures Run(Scan(done, "", Between), QuoteArgv(argv)) == Scan(done + argv[..|argv| - 1], argv[|argv| - 1], Plain)
    decreases |argv|
  {
    hide Quote;
    RunQuote(done, argv[0]);
    if |argv| == 1 {
      assert done + argv[..0] == done;
    } else {
      RunBlank(done, argv[0], QuoteArgv(argv[1..]));
      RunQuoteArgv(done + [argv[0]], argv[1..]);
      assert (done + [argv[0]]) + argv[1..][..|argv| - 2] == done + argv[..|argv| - 1];
    }
  }

  /** A blank after a quoted argument finishes it. */
  lemma RunBlank(done: seq<string>, arg: string, rest: string)
    ensures Run(Scan(done, "", Between), Quote(arg) + " " + rest) == Run(Scan(done + [arg], "", Between), rest)
  {
    hide Quote;
    var st := Scan(done, "", Between);
    RunQuote(done, arg);
    RunConcat(st, Quote(arg) + " ", rest);
    RunConcat(st, Quote(arg), " ");
  }

  /** `owl_parseline` on `owl_argv_quote` gives back the input, for every argument
      vector: empty, blank, multi-line and mixed-quote arguments included. */
  lemma QuotingRoundTrip(argv: seq<string>)
    ensures Parse(QuoteArgv(argv)) == Some(argv)
  {
    hide Quote;
    if argv != [] {
      RunQuoteArgv([], argv);
      assert [] + argv[..|argv| - 1] + [argv[|argv| - 1]] == argv;
    }
  }

  /** Quoting loses nothing: distinct argument vectors are quoted distinctly. */
  lemma QuoteArgvInjective(a: seq<string>, b: seq<string>)
    requires QuoteArgv(a) == QuoteArgv(b)
    ensures a == b
  {
    QuotingRoundTrip(a);
    QuotingRoundTrip(b);
  }

  // ---------------------------------------------------------------- skiptokens

  function SkipSpaces(s: string): string {
    if s != "" && s[0] == ' ' then SkipSpaces(s[1..]) else s
  }

  function SkipToken(s: string, quote: Option<char>): string {
    if s == "" || (quote == None && s[0] == ' ') then s
    else if quote != None then SkipToken(s[1..], if s[0] == quote.value then None else quote)
    else SkipToken(s[1..], if IsQuote(s[0]) then Some(s[0]) else None)
  }

  /** The text `skiptokens` returns. Unlike the tokenizer it separates at blanks only. */
  function SkipTokens(s: string, n: nat): string
    decreases n
  {
    if s == "" || n == 0 then s
    else SkipTokens(SkipSpaces(SkipToken(SkipSpaces(s), None)), n - 1)
  }

  /** The three loops of `skiptokens`; `pos` is the moving pointer. */
  method SkipTokensFrom(buff: string, count: nat) returns (rest: string)
    ensures rest == SkipTokens(buff, count)
  {
    var pos, n := 0, count;
    while pos < |buff| && n > 0
      invariant 0 <= pos <= |buff|
      invariant SkipTokens(buff[pos..], n) == SkipTokens(buff, count)
      decreases n
    {
      ghost var before := buff[pos..];
      pos := SkipSpacesFrom(buff, pos);
      ghost var start := buff[pos..];
      var quote: Option<char> := None;
      while pos < |buff| && (quote != None || buff[pos] != ' ')
        invariant 0 <= pos <= |buff|
        invariant SkipToken(buff[pos..], quote) == SkipToken(start, None)
      {
        assert buff[pos..][1..] == buff[pos + 1..];
        if quote != None {
          if buff[pos] == quote.value { quote := None; }
        } else if IsQuote(buff[pos]) {
          quote := Some(buff[pos]);
        }
        pos := pos + 1;
      }
      assert buff[pos..] == SkipToken(start, None);
      pos := SkipSpacesFrom(buff, pos);
      n := n - 1;
    }
    rest := buff[pos..];
  }

  method SkipSpacesFrom(buff: string, from: nat) returns (pos: nat)
    requires from <= |buff|
    ensures from <= pos <= |buff| && buff[pos..] == SkipSpaces(buff[from..])
  {
    pos := from;
    while pos < |buff| && buff[pos] == ' '
      invariant from <= pos <= |buff|
      invariant SkipSpaces(buff[pos..]) == SkipSpaces(buff[from..])
    {
      assert buff[pos..][1..] == buff[pos + 1..];
      pos := pos + 1;
    }
  }

  /** Skipping over text that opens and closes its own quotes and has no bare blank. */
  lemma {:induction false} SkipTokenInsideQuotes(s: string, q: char, rest: string)
    requires IsQuote(q) && q !in s
    ensures SkipToken(s + [q] + rest, Some(q)) == SkipToken(rest, None)
  {
    var t := s + [q] + rest;
    if s == "" {
      assert t[1..] == rest;
    } else {
      assert t[1..] == s[1..] + [q] + rest;
      SkipTokenInsideQuotes(s[1..], q, rest);
    }
  }

  lemma {:induction false} SkipTokenPlain(s: string, rest: string)
    requires NoneNasty(s)
    ensures SkipToken(s + rest, None) == SkipToken(rest, None)
  {
    if s == "" {
      assert s + rest == rest;
    } else {
      assert (s + rest)[1..] == s[1..] + rest;
      SkipTokenPlain(s[1..], rest);
    }
  }

  lemma {:induction false} SkipTokenEscaped(s: string, rest: string)
    ensures SkipToken(EscapeDouble(s) + ("\"" + rest), Some('"')) == SkipToken(rest, None)
  {
    var tail := "\"" + rest;
    if s == "" {
      assert EscapeDouble(s) + tail == tail && tail[1..] == rest;
    } else {
      var inner := EscapeDouble(s[1..]) + tail;
      SkipTokenEscaped(s[1..], rest);
      if s[0] == '"' {
        assert EscapeDouble(s) + tail == QUOTED_DOUBLE_QUOTE + inner;
        SkipQuotedDoubleQuote(inner);
      } else {
        assert (EscapeDouble(s) + tail)[1..] == inner;
      }
    }
  }

  lemma {:induction false} SkipQuotedDoubleQuote(rest: string)
    ensures SkipToken(QUOTED_DOUBLE_QUOTE + rest, Some('"')) == SkipToken(rest, Some('"'))
  {
    var t0 := QUOTED_DOUBLE_QUOTE + rest;
    var t1, t2, t3, t4 := t0[1..], t0[2..], t0[3..], t0[4..];
    assert t1[1..] == t2 && t2[1..] == t3 && t3[1..] == t4 && t4[1..] == rest;
    assert SkipToken(t0, Some('"')) == SkipToken(t1, None);
    assert SkipToken(t1, None) == SkipToken(t2, Some('\''));
    assert SkipToken(t2, Some('\'')) == SkipToken(t3, Some('\''));
    assert SkipToken(t3, Some('\'')) == SkipToken(t4, None);
  }

  lemma SkipTokenQuote(arg: string, rest: string)
    ensures SkipToken(Quote(arg) + rest, None) == SkipToken(rest, None)
  {
    if arg == "" {
      SkipTokenEnclosed("", '\'', rest);
      assert "''" == "'" + "" + "'";
    } else if NoneNasty(arg) {
      SkipTokenPlain(arg, rest);
    } else if '\'' !in arg {
      SkipTokenEnclosed(arg, '\'', rest);
    } else {
      SkipTokenDoubled(EscapeDouble(arg), arg, rest);
    }
  }

  lemma SkipTokenDoubled(body: string, arg: string, rest: string)
    requires body == EscapeDouble(arg)
    ensures SkipToken("\"" + body + "\"" + rest, None) == SkipToken(rest, None)
  {
    var all, tail := "\"" + body + "\"" + rest, "\"" + rest;
    SkipTokenEscaped(arg, rest);
    assert all[1..] == body + tail;
  }

  lemma SkipTokenEnclosed(s: string, q: char, rest: string)
    requires IsQuote(q) && q !in s
    ensures SkipToken([q] + s + [q] + rest, None) == SkipToken(rest, None)
  {
    assert ([q] + s + [q] + rest)[1..] == s + [q] + rest;
    SkipTokenInsideQuotes(s, q, rest);
  }

  lemma QuoteArgvStart(argv: seq<string>)
    ensures SkipSpaces(QuoteArgv(argv)) == QuoteArgv(argv)
    ensures argv != [] ==> QuoteArgv(argv) != ""
  {
  }

  /** Skipping n arguments of a quoted vector leaves the rest of the vector, quoted. */
  lemma {:induction false} SkipTokensRoundTrip(argv: seq<string>, n: nat)
    requires n <= |argv|
    ensures SkipTokens(QuoteArgv(argv), n) == QuoteArgv(argv[n..])
  {
    if n == 0 || argv == [] {
      assert argv[n..] == argv;
    } else {
      QuoteArgvStart(argv);
      var rest := if |argv| == 1 then "" else " " + QuoteArgv(argv[1..]);
      assert QuoteArgv(argv) == Quote(argv[0]) + rest;
      SkipTokenQuote(argv[0], rest);
      QuoteArgvStart(argv[1..]);
      assert |argv| > 1 ==> rest[1..] == QuoteArgv(argv[1..]);
      assert SkipSpaces(SkipToken(rest, None)) == QuoteArgv(argv[1..]);
      SkipTokensRoundTrip(argv[1..], n - 1);
      assert argv[1..][n - 1..] == argv[n..];
    }
  }

  /** Skipping at least one argument of a non-empty line shortens it. */
  lemma {:induction false} SkipTokensShrinks(s: string, n: nat)
    ensures |SkipTokens(s, n)| <= |s|
    ensures s != "" && n > 0 ==> |SkipTokens(s, n)| < |s|
    decreases n
  {
    if s == "" || n == 0 {
    } else {
      var t := SkipSpaces(s);
      SkipSpacesShrinks(s);
      SkipTokenShrinks(t, None);
      SkipSpacesShrinks(SkipToken(t, None));
      SkipTokensShrinks(SkipSpaces(SkipToken(t, None)), n - 1);
    }
  }

  lemma {:induction false} SkipSpacesShrinks(s: string)
    ensures |SkipSpaces(s)| <= |s|
    ensures s != "" && s[0] == ' ' ==> |SkipSpaces(s)| < |s|
    ensures SkipSpaces(s) != "" ==> SkipSpaces(s)[0] != ' '
  {
    if s == "" || s[0] != ' ' {
    } else {
      SkipSpacesShrinks(s[1..]);
    }
  }

  lemma {:induction false} SkipTokenShrinks(s: string, quote: Option<char>)
    ensures |SkipToken(s, quote)| <= |s|
    ensures s != "" && (quote != None || s[0] != ' ') ==> |SkipToken(s, quote)| < |s|
  {
    if s == "" || (quote == None && s[0] == ' ') {
    } else {
      SkipTokenShrinks(s[1..], if quote != None then if s[0] == quote.value then None else quote
                               else if IsQuote(s[0]) then Some(s[0]) else None);
    }
  }
}

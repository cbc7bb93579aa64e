/** Which printed filters are read back: exactly those whose field names are plain words.
    A field name that is not falls behind in the reading of the printed line, and nothing
    printed after it can make up for that. */
module FilterRoundTrip {
  import opened Strings
  import opened Quoting
  import opened Colors
  import opened FilterSyntax

  // ------------------------------------------------- counting what a reading keeps

  /** How many characters other than quotes a text has. */
  function Solid(s: string): nat {
    if s == "" then 0 else (if IsQuote(s[0]) then 0 else 1) + Solid(s[1..])
  }

  /** Characters other than quotes in finished arguments, with one for the end of each. */
  function Used(argv: seq<string>): nat {
    if argv == [] then 0 else Solid(argv[0]) + 1 + Used(argv[1..])
  }

  lemma {:induction false} SolidConcat(a: string, b: string)
    ensures Solid(a + b) == Solid(a) + Solid(b)
    decreases |a|
  {
    if a == "" {
      assert a + b == b;
    } else {
      assert (a + b)[1..] == a[1..] + b;
      SolidConcat(a[1..], b);
    }
  }

  lemma {:induction false} UsedConcat(a: seq<string>, b: seq<string>)
    ensures Used(a + b) == Used(a) + Used(b)
    decreases |a|
  {
    if a == [] {
      assert a + b == b;
    } else {
      assert (a + b)[1..] == a[1..] + b;
      UsedConcat(a[1..], b);
    }
  }

  /** A state of the tokenizer: nothing is being collected between arguments. */
  predicate Proper(st: Scan) { st.mode.Between? ==> st.cur == "" }

  function Kept(st: Scan): nat { Used(st.argv) + Solid(st.cur) }

  /** r continues st: finished arguments stay, the open one is continued. */
  predicate Continues(st: Scan, r: Scan) {
    st.argv <= r.argv && (if |r.argv| == |st.argv| then st.cur <= r.cur else st.cur <= r.argv[|st.argv|])
  }

  lemma StepKeeps(st: Scan, c: char)
    requires Proper(st)
    ensures Proper(Step(st, c)) && Continues(st, Step(st, c))
    ensures Kept(Step(st, c)) <= Kept(st) + Solid([c])
    ensures c == ' ' || c == '\n' ==> Step(st, c).mode != Plain
    ensures c == ' ' && st.mode != Plain ==> Step(st, c).argv == st.argv
  {
    hide Solid;
    hide Used;
    SolidConcat(st.cur, [c]);
    UsedConcat(st.argv, [st.cur]);
    UsedOne(st.cur);
    SolidOne(c);
    UsedConcat(st.argv, [""]);
  }

  lemma UsedOne(s: string)
    ensures Used([s]) == Solid(s) + 1
  {
    assert [s][1..] == [];
  }

  lemma SolidOne(c: char)
    ensures Solid([c]) == (if IsQuote(c) then 0 else 1) && Solid("") == 0
  {
    assert [c][1..] == "";
  }

  lemma {:induction false} RunKeeps(st: Scan, s: string)
    requires Proper(st)
    ensures Proper(Run(st, s)) && Continues(st, Run(st, s)) && Kept(Run(st, s)) <= Kept(st) + Solid(s)
    decreases |s|
  {
    hide Step;
    hide Kept;
    if s == "" {
    } else {
      StepKeeps(st, s[0]);
      RunKeeps(Step(st, s[0]), s[1..]);
      assert s == [s[0]] + s[1..];
      SolidConcat([s[0]], s[1..]);
    }
  }

  // ------------------------------------------------------------- falling behind

  /** Fewer than k arguments are finished, and a blank has just been read. */
  predicate Behind(st: Scan, k: nat) { Proper(st) && |st.argv| < k && st.mode != Plain }

  /** Exactly k arguments are finished, and nothing of the next has been read. */
  predicate OnTime(st: Scan, k: nat) { Proper(st) && |st.argv| == k && st.mode.Between? }

  predicate IsSeparator(c: char) { c == ' ' || c == '\n' }

  lemma AfterSeparator(st: Scan, text: string, sep: char)
    requires Proper(st) && IsSeparator(sep)
    ensures Run(st, text + [sep]).mode != Plain && Proper(Run(st, text + [sep]))
    ensures Continues(st, Run(st, text + [sep])) && Kept(Run(st, text + [sep])) <= Kept(st) + Solid(text) + 1
  {
    hide Step;
    hide Kept;
    RunKeeps(st, text);
    RunKeeps(st, text + [sep]);
    RunConcat(st, text, [sep]);
    var mid := Run(st, text);
    StepKeeps(mid, sep);
    assert [sep][1..] == "" && Run(mid, [sep]) == Step(mid, sep);
    SolidConcat(text, [sep]);
    SolidOne(sep);
  }

  /** Two more arguments finished have used up two ends and all of the second. */
  lemma TwoFinished(st: Scan, r: Scan, k: nat)
    requires Continues(st, r) && |st.argv| < k < |r.argv|
    ensures Kept(r) >= Kept(st) + Solid(r.argv[k]) + 2
  {
    var j := |st.argv|;
    var first, mid, word, last := r.argv[j], r.argv[j + 1..k], r.argv[k], r.argv[k + 1..];
    assert r.argv == st.argv + ([first] + (mid + ([word] + last)));
    UsedConcat(st.argv, [first] + (mid + ([word] + last)));
    UsedConcat([first], mid + ([word] + last));
    UsedConcat(mid, [word] + last);
    UsedConcat([word], last);
    UsedOne(first);
    UsedOne(word);
    SolidConcat(st.cur, first[|st.cur|..]);
    assert first == st.cur + first[|st.cur|..];
  }

  /** A reading that is behind stays behind over a word with no more to keep than the
      argument that should come of it. */
  lemma WordBehind(st: Scan, k: nat, text: string, sep: char, argv: seq<string>)
    requires Behind(st, k) && IsSeparator(sep) && Run(st, text + [sep]).argv <= argv
    requires k < |argv| && Solid(argv[k]) == Solid(text)
    ensures Behind(Run(st, text + [sep]), k + 1)
  {
    hide Run;
    hide Kept;
    AfterSeparator(st, text, sep);
    var r := Run(st, text + [sep]);
    if |r.argv| > k {
      TwoFinished(st, r, k);
    }
  }

  // ----------------------------------------------------------- words of a filter

  /** Over a text for n words a reading that is behind stays behind, and one that is on
      time stays on time exactly if the words are printed plainly enough. */
  predicate Goes(st: Scan, r: Scan, k: nat, n: nat, plain: bool) {
    (Behind(st, k) ==> Behind(r, k + n)) &&
    (OnTime(st, k) ==> if plain then OnTime(r, k + n) else Behind(r, k + n))
  }

  predicate Ready(st: Scan, k: nat) { Behind(st, k) || OnTime(st, k) }

  lemma Then(st: Scan, a: string, b: string, argv: seq<string>)
    requires Proper(st) && Run(st, a + b).argv <= argv
    ensures Run(st, a + b) == Run(Run(st, a), b) && Run(st, a).argv <= argv && Run(Run(st, a), b).argv <= argv
  {
    hide Step;
    hide Kept;
    RunConcat(st, a, b);
    RunKeeps(st, a);
    RunKeeps(Run(st, a), b);
  }

  lemma {:induction false} SolidIgnoresCase(a: string, b: string)
    requires EqualIgnoringCase(a, b)
    ensures Solid(a) == Solid(b)
    decreases |a|
  {
    if a == "" {
    } else {
      assert Lower(a[0]) == Lower(b[0]);
      assert EqualIgnoringCase(a[1..], b[1..]);
      SolidIgnoresCase(a[1..], b[1..]);
    }
  }

  lemma {:induction false} SolidEscaped(s: string)
    ensures Solid(EscapeDouble(s)) == Solid(s)
  {
    if s == "" {
    } else {
      var piece := if s[0] == '"' then QUOTED_DOUBLE_QUOTE else [s[0]];
      SolidConcat(piece, EscapeDouble(s[1..]));
      SolidEscaped(s[1..]);
      SolidOne(s[0]);
      var q := QUOTED_DOUBLE_QUOTE;
      assert q[1..][1..][1..][1..][1..] == "";
      assert Solid(q) == 0;
    }
  }

  lemma SolidQuoted(arg: string)
    ensures Solid(Quote(arg)) == Solid(arg)
  {
    hide Solid;
    SolidOne('\'');
    SolidOne('"');
    if arg == "" {
      SolidConcat("'", "'");
      assert "''" == "'" + "'";
    } else if NoneNasty(arg) {
    } else if '\'' !in arg {
      SolidConcat("'" + arg, "'");
      SolidConcat("'", arg);
    } else {
      SolidEscaped(arg);
      SolidConcat("\"" + EscapeDouble(arg), "\"");
      SolidConcat("\"", EscapeDouble(arg));
    }
  }

  /** Reading on time what is read as one argument. */
  lemma ArgumentOnTime(st: Scan, k: nat, text: string, arg: string, sep: char)
    requires OnTime(st, k) && Reads(text, [arg]) && IsSeparator(sep)
    ensures OnTime(Run(st, text + [sep]), k + 1)
  {
    RunConcat(st, text, [sep]);
    assert st == Scan(st.argv, "", Between);
    assert Run(st, text) == Scan(st.argv + [arg][..0], arg, Plain);
    assert [sep][1..] == "";
  }

  lemma KeywordGoes(st: Scan, k: nat, word: string, sep: char, argv: seq<string>)
    requires Ready(st, k) && IsSeparator(sep) && Run(st, word + [sep]).argv <= argv
    requires word != "" && NoneNasty(word) && k < |argv| && Is(argv[k], word)
    ensures Goes(st, Run(st, word + [sep]), k, 1, true)
  {
    hide Run;
    if Behind(st, k) {
      SolidIgnoresCase(argv[k], word);
      WordBehind(st, k, word, sep, argv);
    } else {
      ReadsWord(word);
      ArgumentOnTime(st, k, word, word, sep);
    }
  }

  lemma LiteralGoes(st: Scan, k: nat, arg: string, sep: char, argv: seq<string>)
    requires Ready(st, k) && IsSeparator(sep) && Run(st, Quote(arg) + [sep]).argv <= argv
    requires k < |argv| && argv[k] == arg
    ensures Goes(st, Run(st, Quote(arg) + [sep]), k, 1, true)
  {
    hide Run;
    hide Quote;
    if Behind(st, k) {
      SolidQuoted(arg);
      WordBehind(st, k, Quote(arg), sep, argv);
    } else {
      ReadsQuote(arg);
      ArgumentOnTime(st, k, Quote(arg), arg, sep);
    }
  }

  /** An argument that a text finishes is shorter than the text with what was open. */
  lemma {:induction false} FinishedIsShorter(st: Scan, text: string)
    requires Proper(st) && |Run(st, text).argv| > |st.argv|
    ensures |Run(st, text).argv[|st.argv|]| < |st.cur| + |text|
    decreases |text|
  {
    var next := Step(st, text[0]);
    StepKeeps(st, text[0]);
    RunKeeps(next, text[1..]);
    if |next.argv| == |st.argv| {
      FinishedIsShorter(next, text[1..]);
    }
  }

  /** If the open argument and all of s make the next argument, no character of s was
      special. */
  lemma {:induction false} WholeWord(st: Scan, s: string)
    requires st.mode == Plain && |Run(st, s + " ").argv| > |st.argv|
    requires Run(st, s + " ").argv[|st.argv|] == st.cur + s
    ensures NoneNasty(s)
    decreases |s|
  {
    if s == "" {
    } else {
      var next := Step(st, s[0]);
      assert (s + " ")[1..] == s[1..] + " ";
      StepKeeps(st, s[0]);
      RunKeeps(next, s[1..] + " ");
      if IsQuote(s[0]) {
        FinishedIsShorter(next, s[1..] + " ");
      } else if !IsNasty(s[0]) {
        assert st.cur + s == next.cur + s[1..];
        WholeWord(next, s[1..]);
      }
    }
  }

  /** A field name is finished on time only if it is a plain word. */
  lemma FieldGoes(st: Scan, k: nat, field: string, argv: seq<string>)
    requires Ready(st, k) && Run(st, field + " ").argv <= argv && k < |argv| && argv[k] == field
    ensures Goes(st, Run(st, field + " "), k, 1, field != "" && NoneNasty(field))
  {
    if Behind(st, k) {
      WordBehind(st, k, field, ' ', argv);
    } else if field != "" && NoneNasty(field) {
      ReadsWord(field);
      ArgumentOnTime(st, k, field, field, ' ');
    } else {
      AfterSeparator(st, field, ' ');
      var r := Run(st, field + " ");
      if |r.argv| > k {
        LateField(st, field);
      }
    }
  }

  lemma OneBlank(st: Scan)
    requires st.mode != Plain && Proper(st)
    ensures Run(st, " ") == Step(st, ' ') && Run(st, " ").argv == st.argv
  {
    var blank := " ";
    assert blank[1..] == "";
    StepKeeps(st, ' ');
  }

  lemma LateField(st: Scan, field: string)
    requires OnTime(st, |st.argv|) && |Run(st, field + " ").argv| > |st.argv|
    requires Run(st, field + " ").argv[|st.argv|] == field
    ensures field != "" && NoneNasty(field)
  {
    var text := field + " ";
    OneBlank(st);
    if field == "" {
    } else if field[0] == ' ' || field[0] == '\t' {
      FinishedIsShorter(st, text[1..]);
    } else {
      var open := st.(mode := Plain);
      assert Step(st, text[0]) == Step(open, text[0]);
      WholeWord(open, field);
    }
  }

  // --------------------------------------------------------------- a whole filter

  lemma GoesOn(st: Scan, m: Scan, r: Scan, k: nat, a: nat, b: nat, p: bool, q: bool)
    requires Ready(st, k) && Goes(st, m, k, a, p) && (Ready(m, k + a) ==> Goes(m, r, k + a, b, q))
    ensures Goes(st, r, k, a + b, p && q) && Ready(m, k + a)
  {
  }

  lemma {:induction false} TreeGoes(e: Element, st: Scan, k: nat, sep: char, argv: seq<string>)
    requires Ready(st, k) && IsSeparator(sep) && Run(st, Print(e) + [sep]).argv <= argv
    requires Spelled(argv, k, k + |Spelling(e)|, Spelling(e))
    ensures Goes(st, Run(st, Print(e) + [sep]), k, |Spelling(e)|, PlainFields(e))
    decreases e, 1
  {
    hide Run;
    hide Goes;
    hide Ready;
    hide Spelled;
    match e
    case Group(inner) => GroupGoes(e, inner, st, k, sep, argv);
    case Not(op) => NotGoes(e, op, st, k, sep, argv);
    case And(l, r) => ConnectiveGoes(e, l, r, "and", st, k, sep, argv);
    case Or(l, r) => ConnectiveGoes(e, l, r, "or", st, k, sep, argv);
    case _ => LeafGoes(e, st, k, sep, argv);
  }

  lemma LeafGoes(e: Element, st: Scan, k: nat, sep: char, argv: seq<string>)
    requires Ready(st, k) && IsSeparator(sep) && Run(st, Print(e) + [sep]).argv <= argv
    requires Spelled(argv, k, k + |Spelling(e)|, Spelling(e))
    requires e.True? || e.False? || e.Regex? || e.FilterRef? || e.Perl?
    ensures Goes(st, Run(st, Print(e) + [sep]), k, |Spelling(e)|, PlainFields(e))
  {
    hide Run;
    hide Goes;
    hide Ready;
    hide Spelled;
    hide Quote;
    match e
    case True =>
      KeywordAt(argv, k, k + 1, "true");
      KeywordGoes(st, k, "true", sep, argv);
    case False =>
      KeywordAt(argv, k, k + 1, "false");
      KeywordGoes(st, k, "false", sep, argv);
    case Regex(field, re) =>
      PairAt(argv, k, Literal(field), re);
      FieldAndLiteral(st, k, field, re, sep, argv);
    case FilterRef(name) =>
      PairAt(argv, k, Keyword("filter"), name);
      assert "filter " == "filter" + " ";
      KeywordAndLiteral(st, k, "filter", name, sep, argv);
    case Perl(name) =>
      PairAt(argv, k, Keyword("perl"), name);
      assert "perl " == "perl" + " ";
      KeywordAndLiteral(st, k, "perl", name, sep, argv);
  }

  lemma PairAt(argv: seq<string>, k: nat, word: Word, arg: string)
    requires Spelled(argv, k, k + 2, [word, Literal(arg)])
    ensures k + 1 < |argv| && Fits(argv[k], word) && argv[k + 1] == arg
  {
    SpelledWord(argv, k, [word, Literal(arg)], 0);
    SpelledWord(argv, k, [word, Literal(arg)], 1);
  }

  lemma FieldAndLiteral(st: Scan, k: nat, field: string, arg: string, sep: char, argv: seq<string>)
    requires Ready(st, k) && IsSeparator(sep) && Run(st, field + " " + Quote(arg) + [sep]).argv <= argv
    requires k + 1 < |argv| && argv[k] == field && argv[k + 1] == arg
    ensures Goes(st, Run(st, field + " " + Quote(arg) + [sep]), k, 2, field != "" && NoneNasty(field))
  {
    hide Run;
    hide Quote;
    var a, b := field + " ", Quote(arg) + [sep];
    assert field + " " + Quote(arg) + [sep] == a + b;
    Then(st, a, b, argv);
    var m := Run(st, a);
    FieldGoes(st, k, field, argv);
    if Ready(m, k + 1) { LiteralGoes(m, k + 1, arg, sep, argv); }
    GoesOn(st, m, Run(m, b), k, 1, 1, field != "" && NoneNasty(field), true);
  }

  lemma KeywordAndLiteral(st: Scan, k: nat, word: string, arg: string, sep: char, argv: seq<string>)
    requires Ready(st, k) && IsSeparator(sep) && Run(st, word + " " + Quote(arg) + [sep]).argv <= argv
    requires word != "" && NoneNasty(word) && k + 1 < |argv| && Is(argv[k], word) && argv[k + 1] == arg
    ensures Goes(st, Run(st, word + " " + Quote(arg) + [sep]), k, 2, true)
  {
    hide Run;
    hide Quote;
    var a, b := word + [' '], Quote(arg) + [sep];
    assert word + " " + Quote(arg) + [sep] == a + b;
    Then(st, a, b, argv);
    var m := Run(st, a);
    KeywordGoes(st, k, word, ' ', argv);
    if Ready(m, k + 1) { LiteralGoes(m, k + 1, arg, sep, argv); }
    GoesOn(st, m, Run(m, b), k, 1, 1, true, true);
  }

  lemma KeywordAt(argv: seq<string>, k: nat, j: nat, word: string)
    requires Spelled(argv, k, j, [Keyword(word)])
    ensures j == k + 1 && k < |argv| && Is(argv[k], word)
  {
    SpelledWord(argv, k, [Keyword(word)], 0);
  }

  lemma ReadyIsProper(st: Scan, k: nat)
    requires Ready(st, k)
    ensures Proper(st)
  {
  }

  /** A keyword, a tree, and what follows. */
  lemma KeywordThenTree(word: string, e: Element, st: Scan, k: nat, sep: char, argv: seq<string>)
    requires Ready(st, k) && IsSeparator(sep) && Run(st, word + " " + (Print(e) + [sep])).argv <= argv
    requires word != "" && NoneNasty(word) && k < |argv| && Is(argv[k], word)
    requires Spelled(argv, k + 1, k + 1 + |Spelling(e)|, Spelling(e))
    ensures Goes(st, Run(st, word + " " + (Print(e) + [sep])), k, 1 + |Spelling(e)|, PlainFields(e))
    decreases e, 2
  {
    hide Run;
    hide Spelled;
    hide Goes;
    hide Ready;
    hide Print;
    hide PlainFields;
    var a, b := word + [' '], Print(e) + [sep];
    assert word + " " == a;
    ReadyIsProper(st, k);
    Then(st, a, b, argv);
    var m := Run(st, a);
    KeywordGoes(st, k, word, ' ', argv);
    if Ready(m, k + 1) { TreeGoes(e, m, k + 1, sep, argv); }
    GoesOn(st, m, Run(m, b), k, 1, |Spelling(e)|, true, PlainFields(e));
  }

  lemma GroupText(inner: Element, sep: char)
    ensures Print(Group(inner)) + [sep] == ("(" + " " + (Print(inner) + [' '])) + (")" + [sep])
  {
    assert "( " == "(" + " " && " )" == " " + ")" && " " == [' '];
  }

  lemma GroupGoes(e: Element, inner: Element, st: Scan, k: nat, sep: char, argv: seq<string>)
    requires e == Group(inner) && Ready(st, k) && IsSeparator(sep) && Run(st, Print(e) + [sep]).argv <= argv
    requires Spelled(argv, k, k + |Spelling(e)|, Spelling(e))
    ensures Goes(st, Run(st, Print(e) + [sep]), k, |Spelling(e)|, PlainFields(e))
    decreases e, 0
  {
    hide Run;
    hide Goes;
    hide Ready;
    hide Print;
    hide Spelled;
    var n := |Spelling(inner)|;
    SpelledSplit(argv, k, k + n + 2, [Keyword("(")] + Spelling(inner), [Keyword(")")]);
    SpelledSplit(argv, k, k + n + 1, [Keyword("(")], Spelling(inner));
    KeywordAt(argv, k, k + 1, "(");
    KeywordAt(argv, k + n + 1, k + n + 2, ")");
    ReadyIsProper(st, k);
    var a, b := "(" + " " + (Print(inner) + [' ']), ")" + [sep];
    GroupText(inner, sep);
    Then(st, a, b, argv);
    var m := Run(st, a);
    KeywordThenTree("(", inner, st, k, ' ', argv);
    if Ready(m, k + 1 + n) { KeywordGoes(m, k + 1 + n, ")", sep, argv); }
    GoesOn(st, m, Run(m, b), k, 1 + n, 1, PlainFields(inner), true);
  }

  lemma NotGoes(e: Element, op: Element, st: Scan, k: nat, sep: char, argv: seq<string>)
    requires e == Not(op) && Ready(st, k) && IsSeparator(sep) && Run(st, Print(e) + [sep]).argv <= argv
    requires Spelled(argv, k, k + |Spelling(e)|, Spelling(e))
    ensures Goes(st, Run(st, Print(e) + [sep]), k, |Spelling(e)|, PlainFields(e))
    decreases e, 0
  {
    hide Run;
    hide Goes;
    hide Ready;
    hide Print;
    hide Spelled;
    var n := |Spelling(op)|;
    SpelledSplit(argv, k, k + n + 1, [Keyword("not")], Spelling(op));
    KeywordAt(argv, k, k + 1, "not");
    var b := "not" + " " + (Print(op) + [sep]);
    NotText(op, sep);
    ReadyIsProper(st, k);
    Then(st, " ", b, argv);
    BlankFirst(st, k);
    KeywordThenTree("not", op, Run(st, " "), k, sep, argv);
    AfterBlank(st, Run(Run(st, " "), b), k, 1 + n, PlainFields(op));
  }

  lemma NotText(op: Element, sep: char)
    ensures Print(Not(op)) + [sep] == " " + ("not" + " " + (Print(op) + [sep]))
  {
    assert " not " == " " + "not" + " ";
  }

  lemma BlankFirst(st: Scan, k: nat)
    requires Ready(st, k)
    ensures Ready(Run(st, " "), k)
  {
    OneBlank(st);
    StepKeeps(st, ' ');
  }

  lemma AfterBlank(st: Scan, r: Scan, k: nat, n: nat, p: bool)
    requires Ready(st, k) && Goes(Run(st, " "), r, k, n, p)
    ensures Goes(st, r, k, n, p)
  {
    OneBlank(st);
    StepKeeps(st, ' ');
  }

  lemma ConnectiveText(e: Element, l: Element, r: Element, word: string, sep: char)
    requires (e == And(l, r) && word == "and") || (e == Or(l, r) && word == "or")
    ensures Print(e) + [sep] == (Print(l) + [' ']) + (word + " " + (Print(r) + [sep]))
  {
    assert " and " == " " + "and" + " " && " or " == " " + "or" + " ";
    Joined(Print(l), word, Print(r), sep);
  }

  lemma Joined(a: string, word: string, b: string, sep: char)
    ensures a + (" " + word + " ") + b + [sep] == (a + [' ']) + (word + " " + (b + [sep]))
  {
  }

  lemma ConnectiveGoes(e: Element, l: Element, r: Element, word: string, st: Scan, k: nat, sep: char, argv: seq<string>)
    requires (e == And(l, r) && word == "and") || (e == Or(l, r) && word == "or")
    requires Ready(st, k) && IsSeparator(sep) && Run(st, Print(e) + [sep]).argv <= argv
    requires Spelled(argv, k, k + |Spelling(e)|, Spelling(e))
    ensures Goes(st, Run(st, Print(e) + [sep]), k, |Spelling(e)|, PlainFields(e))
    decreases e, 0
  {
    hide Run;
    hide Goes;
    hide Ready;
    hide Print;
    hide Spelled;
    var n := |Spelling(l)|;
    assert Spelling(e) == Spelling(l) + [Keyword(word)] + Spelling(r);
    SpelledSplit(argv, k, k + |Spelling(e)|, Spelling(l) + [Keyword(word)], Spelling(r));
    SpelledSplit(argv, k, k + n + 1, Spelling(l), [Keyword(word)]);
    KeywordAt(argv, k + n, k + n + 1, word);
    ReadyIsProper(st, k);
    var a, b := Print(l) + [' '], word + " " + (Print(r) + [sep]);
    ConnectiveText(e, l, r, word, sep);
    Then(st, a, b, argv);
    var m := Run(st, a);
    TreeGoes(l, st, k, ' ', argv);
    if Ready(m, k + n) { KeywordThenTree(word, r, m, k + n, sep, argv); }
    GoesOn(st, m, Run(m, b), k, n, 1 + |Spelling(r)|, PlainFields(l), PlainFields(r));
  }

  /** The whole line: read back on time, with nothing but plain field names, if its
      arguments end with the words of the tree. */
  lemma LineGoes(e: Element, st: Scan, k: nat, argv: seq<string>)
    requires Ready(st, k) && AtEnd(Run(st, Print(e) + "\n")) == Some(argv)
    requires |argv| == k + |Spelling(e)| && Spelled(argv, k, |argv|, Spelling(e))
    ensures OnTime(st, k) && PlainFields(e)
  {
    hide Run;
    AfterSeparator(st, Print(e), '\n');
    TreeGoes(e, st, k, '\n', argv);
    assert "\n" == ['\n'];
  }

  /** What the colour options leave is an end of the argument vector. */
  lemma {:induction false} TakeColorsLeavesEnd(argv: seq<string>, fg: CInt, bg: CInt, lang: Lang)
    ensures var rest := TakeColors(argv, fg, bg, lang).rest;
      |rest| <= |argv| && argv[|argv| - |rest|..] == rest
    decreases |argv|
  {
    if |argv| < 2 || (argv[0] != "-c" && argv[0] != "-b") {
    } else {
      var c := StringToColor(argv[1], lang.colors);
      var fg' := if argv[0] == "-c" && c != COLOR_INVALID then c else fg;
      var bg' := if argv[0] == "-b" && c != COLOR_INVALID then c else bg;
      TakeColorsLeavesEnd(argv[2..], fg', bg', lang);
    }
  }

  /** Reading the colour options of a printed filter. */
  lemma OptionsRead(f: Filter)
    requires f.fgcolor >= COLOR_DEFAULT && f.bgcolor >= COLOR_DEFAULT
    ensures Run(START, PrintColor("-c", f.fgcolor) + PrintColor("-b", f.bgcolor)) ==
            Scan(ColorWords("-c", f.fgcolor) + ColorWords("-b", f.bgcolor), "", Between)
  {
    hide Run;
    var a, b := PrintColor("-c", f.fgcolor), PrintColor("-b", f.bgcolor);
    var wa, wb := ColorWords("-c", f.fgcolor), ColorWords("-b", f.bgcolor);
    OptionRead([], "-c", f.fgcolor);
    OptionRead(wa, "-b", f.bgcolor);
    RunConcat(START, a, b);
    assert [] + wa == wa;
  }

  lemma OptionRead(done: seq<string>, flag: string, color: CInt)
    requires color >= COLOR_DEFAULT && flag != "" && NoneNasty(flag)
    ensures Run(Scan(done, "", Between), PrintColor(flag, color)) == Scan(done + ColorWords(flag, color), "", Between)
  {
    hide Run;
    var st := Scan(done, "", Between);
    if color == COLOR_DEFAULT {
      RunNothing(st);
      assert done + [] == done;
    } else {
      hide ColorText;
      var word := ColorText(color);
      ColorTextIsPlain(color);
      ReadsWord(flag);
      ReadsWord(word);
      ReadsJoin(flag, [flag], word, [word]);
      assert [flag] + [word] == [flag, word];
      WordsThenBlank(done, flag + " " + word, [flag, word]);
    }
  }

  lemma RunNothing(st: Scan)
    ensures Run(st, "") == st
  {
  }

  lemma WordsThenBlank(done: seq<string>, text: string, words: seq<string>)
    requires Reads(text, words)
    ensures Run(Scan(done, "", Between), text + " ") == Scan(done + words, "", Between)
  {
    var st := Scan(done, "", Between);
    RunConcat(st, text, " ");
    var blank := " ";
    assert blank[1..] == "";
    assert done + words[..|words| - 1] + [words[|words| - 1]] == done + words;
  }

  /** Reading a printed filter is reading its tree after the colour options. */
  lemma TreeRead(f: Filter, argv: seq<string>)
    requires f.fgcolor >= COLOR_DEFAULT && f.bgcolor >= COLOR_DEFAULT && Parse(PrintFilter(f)) == Some(argv)
    ensures var words := ColorWords("-c", f.fgcolor) + ColorWords("-b", f.bgcolor);
      AtEnd(Run(Scan(words, "", Between), Print(f.root) + "\n")) == Some(argv) && words <= argv
  {
    hide Run;
    hide Print;
    hide ColorWords;
    var options := PrintColor("-c", f.fgcolor) + PrintColor("-b", f.bgcolor);
    OptionsRead(f);
    hide PrintColor;
    assert PrintFilter(f) == options + (Print(f.root) + "\n");
    RunConcat(START, options, Print(f.root) + "\n");
    RunKeeps(Scan(ColorWords("-c", f.fgcolor) + ColorWords("-b", f.bgcolor), "", Between), Print(f.root) + "\n");
  }

  /** The filter's own colour words are taken first, so the tree is parsed from what is
      left of the rest. */
  lemma OptionsTaken(f: Filter, argv: seq<string>, lang: Lang) returns (k: nat)
    requires ValidFilter(f, lang) && Build(f.name, argv, lang) == Some(f)
    requires ColorWords("-c", f.fgcolor) + ColorWords("-b", f.bgcolor) <= argv
    ensures |ColorWords("-c", f.fgcolor) + ColorWords("-b", f.bgcolor)| <= k <= |argv|
    ensures Spelled(argv, k, |argv|, Spelling(f.root))
  {
    hide Spelled;
    hide ColorWords;
    hide IsExpression;
    hide ParseExpression;
    hide TakeColors;
    var wa, wb := ColorWords("-c", f.fgcolor), ColorWords("-b", f.bgcolor);
    var more := argv[|wa + wb|..];
    assert argv == wa + (wb + more);
    ColorWordsTaken("-c", f.fgcolor, wb + more, COLOR_DEFAULT, COLOR_DEFAULT, lang);
    ColorWordsTaken("-b", f.bgcolor, more, f.fgcolor, COLOR_DEFAULT, lang);
    TakeColorsLeavesEnd(more, f.fgcolor, f.bgcolor, lang);
    var rest := TakeColors(argv, COLOR_DEFAULT, COLOR_DEFAULT, lang).rest;
    ParserMatchesGrammar(rest, f.root, lang);
    k := |argv| - |rest|;
    assert argv[k..] == rest;
    SpelledLater(argv, k, rest, Spelling(f.root));
  }

  /** A filter that is read back has nothing but plain field names. */
  lemma ReadBackMeansPlain(f: Filter, lang: Lang)
    requires ValidFilter(f, lang) && Parse(PrintFilter(f)).Some?
    requires Build(f.name, Parse(PrintFilter(f)).value, lang) == Some(f)
    ensures PlainFields(f.root)
  {
    hide Run;
    hide Parse;
    hide Build;
    hide PrintFilter;
    hide ColorWords;
    hide PlainFields;
    var argv := Parse(PrintFilter(f)).value;
    TreeRead(f, argv);
    var k := OptionsTaken(f, argv, lang);
    LineGoes(f.root, Scan(ColorWords("-c", f.fgcolor) + ColorWords("-b", f.bgcolor), "", Between), k, argv);
  }

  lemma SpelledLater(argv: seq<string>, k: nat, rest: seq<string>, words: seq<Word>)
    requires k <= |argv| && argv[k..] == rest && Spelled(rest, 0, |rest|, words)
    ensures Spelled(argv, k, |argv|, words)
  {
    forall i | 0 <= i < |words| ensures Fits(argv[k + i], words[i]) {
      assert argv[k..][i] == rest[0 + i];
    }
  }

  /** Print, re-tokenize, re-parse: whatever `owl_filter_new` accepted comes back with the
      same colours and the same tree if and only if its field names are plain words. */
  lemma PrintParseRoundTrip(name: string, argv: seq<string>, lang: Lang)
    requires Build(name, argv, lang).Some?
    ensures var f := Build(name, argv, lang).value;
      f.fgcolor >= COLOR_DEFAULT && f.bgcolor >= COLOR_DEFAULT &&
      (Parse(PrintFilter(f)).Some? && Build(name, Parse(PrintFilter(f)).value, lang) == Some(f) <==>
        PlainFields(f.root))
  {
    hide Parse;
    BuildIsValid(name, argv, lang);
    var f := Build(name, argv, lang).value;
    if PlainFields(f.root) {
      PlainFieldsReadBack(f, lang);
    } else if Parse(PrintFilter(f)).Some? && Build(name, Parse(PrintFilter(f)).value, lang) == Some(f) {
      ReadBackMeansPlain(f, lang);
    }
  }
}

/** The filter language: the element tree (filterelement.c), the recursive-descent
    parser and the printer (filter.c). */
module FilterSyntax {
  import opened Strings
  import opened Quoting
  import opened Colors

  datatype Element =
    | True
    | False
    | Regex(field: string, re: string)
    | FilterRef(name: string)
    | Perl(function_name: string)
    | Group(inner: Element)
    | Not(operand: Element)
    | And(left: Element, right: Element)
    | Or(left: Element, right: Element)

  /** What the parser asks its surroundings: the terminal's colour count, and whether
      the C library compiles a regular expression (after a leading '!'). */
  datatype Lang = Lang(colors: CInt, compiles: string -> bool)

  datatype Filter = Filter(name: string, fgcolor: CInt, bgcolor: CInt, root: Element)

  // ------------------------------------------------------------------- parser

  /** A parse of args[i..] that used args[i..next], or a failure. */
  datatype Parsed = Fail | Ok(e: Element, next: nat)

  predicate Is(arg: string, keyword: string) { EqualIgnoringCase(arg, keyword) }

  predicate IsConnective(arg: string) { Is(arg, "and") || Is(arg, "or") }

  predicate IsReserved(arg: string) {
    Is(arg, "(") || Is(arg, "not") || Is(arg, "true") || Is(arg, "false") || Is(arg, "filter") || Is(arg, "perl")
  }

  function ParsePrimitive(args: seq<string>, i: nat, lang: Lang): (r: Parsed)
    requires i <= |args|
    ensures r.Ok? ==> i < r.next <= |args|
    decreases |args| - i, 0
  {
    if i == |args| then Fail
    else if Is(args[i], "(") then
      match ParseExpression(args, i + 1, lang)
      case Fail => Fail
      case Ok(op, j) => if j == |args| || !Is(args[j], ")") then Fail else Ok(Group(op), j + 1)
    else if Is(args[i], "not") then
      match ParsePrimitive(args, i + 1, lang)
      case Fail => Fail
      case Ok(op, j) => Ok(Not(op), j)
    else if Is(args[i], "true") then Ok(True, i + 1)
    else if Is(args[i], "false") then Ok(False, i + 1)
    else ParsePair(args, i, lang)
  }

  /** The two-word primitives. */
  function ParsePair(args: seq<string>, i: nat, lang: Lang): (r: Parsed)
    requires i < |args|
    ensures r.Ok? ==> i < r.next <= |args|
  {
    if i + 1 == |args| then Fail
    else if Is(args[i], "filter") then Ok(FilterRef(args[i + 1]), i + 2)
    else if Is(args[i], "perl") then Ok(Perl(args[i + 1]), i + 2)
    else if lang.compiles(args[i + 1]) then Ok(Regex(args[i], args[i + 1]), i + 2)
    else Fail
  }

  function Combine(connective: string, op1: Element, op2: Element): Element {
    if Is(connective, "and") then And(op1, op2) else Or(op1, op2)
  }

  /** The loop of `owl_filter_parse_expression`, entered with first operand op1. */
  function ParseTail(op1: Element, args: seq<string>, i: nat, lang: Lang): (r: Parsed)
    requires i <= |args|
    ensures r.Ok? ==> i <= r.next <= |args|
    decreases |args| - i, 1
  {
    if i == |args| || !IsConnective(args[i]) then Ok(op1, i)
    else match ParsePrimitive(args, i + 1, lang)
      case Fail => Fail
      case Ok(op2, j) => ParseTail(Combine(args[i], op1, op2), args, j, lang)
  }

  function ParseExpression(args: seq<string>, i: nat, lang: Lang): (r: Parsed)
    requires i <= |args|
    ensures r.Ok? ==> i < r.next <= |args|
    decreases |args| - i, 2
  {
    match ParsePrimitive(args, i, lang)
    case Fail => Fail
    case Ok(op1, j) => ParseTail(op1, args, j, lang)
  }

  /** `owl_filter_parse_primitive_expression` on `argv + from`. */
  method ParsePrimitiveAt(argv: seq<string>, from: nat, lang: Lang) returns (fe: Option<Element>, next: nat)
    requires from <= |argv|
    ensures ParsePrimitive(argv, from, lang) == if fe == None then Fail else Ok(fe.value, next)
    decreases |argv| - from, 0
  {
    hide Is;
    fe, next := None, from;
    if |argv| == from { return; }
    if Is(argv[from], "(") {
      var op, i := ParseExpressionAt(argv, from + 1, lang, false);
      if op == None || i >= |argv| || !Is(argv[i], ")") { return; }
      return Some(Group(op.value)), i + 1;
    } else if Is(argv[from], "not") {
      var op, i := ParsePrimitiveAt(argv, from + 1, lang);
      if op == None { return; }
      return Some(Not(op.value)), i;
    } else if Is(argv[from], "true") {
      return Some(True), from + 1;
    } else if Is(argv[from], "false") {
      return Some(False), from + 1;
    }
    if |argv| - from == 1 { return; }
    next := from + 2;
    if Is(argv[from], "filter") {
      fe := Some(FilterRef(argv[from + 1]));
    } else if Is(argv[from], "perl") {
      fe := Some(Perl(argv[from + 1]));
    } else if lang.compiles(argv[from + 1]) {
      fe := Some(Regex(argv[from], argv[from + 1]));
    }
  }

  /** `owl_filter_parse_expression` on `argv + from`; `whole` stands for a null `next`,
      which demands that every argument be used. */
  method ParseExpressionAt(argv: seq<string>, from: nat, lang: Lang, whole: bool)
    returns (op1: Option<Element>, next: nat)
    requires from <= |argv|
    ensures op1 == None <==>
      ParseExpression(argv, from, lang) == Fail || (whole && ParseExpression(argv, from, lang).next != |argv|)
    ensures op1 != None ==> ParseExpression(argv, from, lang) == Ok(op1.value, next)
    decreases |argv| - from, 2
  {
    hide Is;
    var i: nat;
    op1, i := ParsePrimitiveAt(argv, from, lang);
    next := i;
    if op1 == None { return; }
    while i < |argv|
      invariant from < i <= |argv| && op1 != None
      invariant ParseExpression(argv, from, lang) == ParseTail(op1.value, argv, i, lang)
    {
      if !Is(argv[i], "and") && !Is(argv[i], "or") { break; }
      var op2, j := ParsePrimitiveAt(argv, i + 1, lang);
      if op2 == None { return None, next; }
      op1 := Some(if Is(argv[i], "and") then And(op1.value, op2.value) else Or(op1.value, op2.value));
      i := j;
    }
    next := i;
    if whole && i != |argv| { op1 := None; }
  }

  // ------------------------------------------- what the parser accepts: a grammar

  /** An element without a top-level connective, as the grammar has it: operands of
      `not` are primitive, reserved words are not field names. */
  predicate IsPrimitive(e: Element, lang: Lang)
    decreases e, 0
  {
    match e
    case True => true
    case False => true
    case Regex(field, re) => !IsReserved(field) && lang.compiles(re)
    case FilterRef(_) => true
    case Perl(_) => true
    case Group(inner) => IsExpression(inner, lang)
    case Not(op) => IsPrimitive(op, lang)
    case And(_, _) => false
    case Or(_, _) => false
  }

  /** Connectives associate to the left and have equal strength. */
  predicate IsExpression(e: Element, lang: Lang)
    decreases e, 1
  {
    match e
    case And(l, r) => IsExpression(l, lang) && IsPrimitive(r, lang)
    case Or(l, r) => IsExpression(l, lang) && IsPrimitive(r, lang)
    case _ => IsPrimitive(e, lang)
  }

  datatype Word = Keyword(text: string) | Literal(text: string)

  function Spelling(e: Element): (ws: seq<Word>)
    ensures ws != []
  {
    match e
    case True => [Keyword("true")]
    case False => [Keyword("false")]
    case Regex(field, re) => [Literal(field), Literal(re)]
    case FilterRef(name) => [Keyword("filter"), Literal(name)]
    case Perl(name) => [Keyword("perl"), Literal(name)]
    case Group(inner) => [Keyword("(")] + Spelling(inner) + [Keyword(")")]
    case Not(op) => [Keyword("not")] + Spelling(op)
    case And(l, r) => Spelling(l) + [Keyword("and")] + Spelling(r)
    case Or(l, r) => Spelling(l) + [Keyword("or")] + Spelling(r)
  }

  /** Keywords are recognized in any case, everything else literally. */
  predicate Fits(arg: string, w: Word) {
    match w
    case Keyword(text) => Is(arg, text)
    case Literal(text) => arg == text
  }

  /** args[i..j] spells the words. */
  predicate Spelled(args: seq<string>, i: nat, j: nat, words: seq<Word>) {
    i + |words| == j <= |args| && forall k :: 0 <= k < |words| ==> Fits(args[i + k], words[k])
  }

  lemma SpelledConcat(args: seq<string>, i: nat, j: nat, k: nat, a: seq<Word>, b: seq<Word>)
    requires Spelled(args, i, j, a) && Spelled(args, j, k, b)
    ensures Spelled(args, i, k, a + b)
  {
  }

  /** A word is at most one of the keywords that open a primitive. */
  lemma KeywordsAreDistinct(arg: string)
    ensures Is(arg, "perl") ==> !Is(arg, "true")
    ensures Is(arg, "filter") || Is(arg, "perl") || Is(arg, "false") || Is(arg, "true") ==>
      !Is(arg, "(") && !Is(arg, "not")
    ensures Is(arg, "false") ==> !Is(arg, "true")
    ensures Is(arg, "filter") || Is(arg, "perl") ==> !Is(arg, "false") && !Is(arg, "true")
    ensures Is(arg, "perl") ==> !Is(arg, "filter")
  {
    var perl, true_, filter, false_ := "perl", "true", "filter", "false";
    assert Lower(perl[0]) != Lower(true_[0]);
  }

  lemma SpelledWord(args: seq<string>, i: nat, words: seq<Word>, k: nat)
    requires k < |words| && Spelled(args, i, i + |words|, words)
    ensures Fits(args[i + k], words[k])
  {
  }

  lemma SpelledSplit(args: seq<string>, i: nat, k: nat, a: seq<Word>, b: seq<Word>)
    requires Spelled(args, i, k, a + b)
    ensures Spelled(args, i, i + |a|, a) && Spelled(args, i + |a|, k, b)
  {
    hide Fits;
    assert forall m :: 0 <= m < |a| ==> (a + b)[m] == a[m];
    assert forall m :: 0 <= m < |b| ==> (a + b)[|a| + m] == b[m] && i + (|a| + m) == (i + |a|) + m;
  }

  lemma {:induction false} PrimitiveSound(args: seq<string>, i: nat, lang: Lang)
    requires i <= |args| && ParsePrimitive(args, i, lang).Ok?
    ensures var Ok(e, j) := ParsePrimitive(args, i, lang);
            IsPrimitive(e, lang) && Spelled(args, i, j, Spelling(e))
    decreases |args| - i, 0
  {
    hide Is;
    if Is(args[i], "(") {
      ExpressionSound(args, i + 1, lang);
      var Ok(op, j) := ParseExpression(args, i + 1, lang);
      SpelledConcat(args, i, i + 1, j, [Keyword("(")], Spelling(op));
      SpelledConcat(args, i, j, j + 1, [Keyword("(")] + Spelling(op), [Keyword(")")]);
    } else if Is(args[i], "not") {
      PrimitiveSound(args, i + 1, lang);
      var Ok(op, j) := ParsePrimitive(args, i + 1, lang);
      SpelledConcat(args, i, i + 1, j, [Keyword("not")], Spelling(op));
    } else if !Is(args[i], "true") && !Is(args[i], "false") {
      PairSound(args, i, lang);
    }
  }

  lemma PairSound(args: seq<string>, i: nat, lang: Lang)
    requires i < |args| && ParsePair(args, i, lang).Ok?
    requires !Is(args[i], "(") && !Is(args[i], "not") && !Is(args[i], "true") && !Is(args[i], "false")
    ensures var Ok(e, j) := ParsePair(args, i, lang);
            IsPrimitive(e, lang) && Spelled(args, i, j, Spelling(e))
  {
    hide Is;
  }

  lemma {:induction false} TailSound(args: seq<string>, from: nat, op1: Element, i: nat, lang: Lang)
    requires i <= |args| && IsExpression(op1, lang) && Spelled(args, from, i, Spelling(op1))
    requires ParseTail(op1, args, i, lang).Ok?
    ensures var Ok(e, j) := ParseTail(op1, args, i, lang);
            IsExpression(e, lang) && Spelled(args, from, j, Spelling(e))
    decreases |args| - i, 1
  {
    hide Is;
    hide Spelled;
    if i < |args| && IsConnective(args[i]) {
      PrimitiveSound(args, i + 1, lang);
      var Ok(op2, j) := ParsePrimitive(args, i + 1, lang);
      CombinedSpelled(args, from, i, j, op1, op2);
      TailSound(args, from, Combine(args[i], op1, op2), j, lang);
    }
  }

  lemma CombinedSpelled(args: seq<string>, from: nat, i: nat, j: nat, op1: Element, op2: Element)
    requires i < |args| && IsConnective(args[i])
    requires Spelled(args, from, i, Spelling(op1)) && Spelled(args, i + 1, j, Spelling(op2))
    ensures Spelled(args, from, j, Spelling(Combine(args[i], op1, op2)))
  {
    hide Is;
    var word := [Keyword(if Is(args[i], "and") then "and" else "or")];
    assert Spelled(args, i, i + 1, word);
    hide Spelled;
    SpelledConcat(args, from, i, i + 1, Spelling(op1), word);
    SpelledConcat(args, from, i + 1, j, Spelling(op1) + word, Spelling(op2));
  }

  lemma {:induction false} ExpressionSound(args: seq<string>, i: nat, lang: Lang)
    requires i <= |args| && ParseExpression(args, i, lang).Ok?
    ensures var Ok(e, j) := ParseExpression(args, i, lang);
            IsExpression(e, lang) && Spelled(args, i, j, Spelling(e))
    decreases |args| - i, 2
  {
    PrimitiveSound(args, i, lang);
    var Ok(op1, j) := ParsePrimitive(args, i, lang);
    TailSound(args, i, op1, j, lang);
  }

  lemma {:induction false} PrimitiveComplete(args: seq<string>, i: nat, j: nat, e: Element, lang: Lang)
    requires IsPrimitive(e, lang) && Spelled(args, i, j, Spelling(e))
    ensures ParsePrimitive(args, i, lang) == Ok(e, j)
    decreases e, 0
  {
    hide Is;
    match e
    case Group(inner) =>
      GroupSplit(args, i, j, inner);
      ExpressionComplete(args, i + 1, j - 1, inner, lang);
      GroupComplete(args, i, j, inner, lang);
    case Not(op) =>
      SpelledSplit(args, i, j, [Keyword("not")], Spelling(op));
      PrimitiveComplete(args, i + 1, j, op, lang);
      NotComplete(args, i, j, op, lang);
    case True =>
      SpelledWord(args, i, Spelling(e), 0);
      KeywordsAreDistinct(args[i]);
    case False =>
      SpelledWord(args, i, Spelling(e), 0);
      KeywordsAreDistinct(args[i]);
    case _ => PairComplete(args, i, j, e, lang);
  }

  lemma GroupSplit(args: seq<string>, i: nat, j: nat, inner: Element)
    requires Spelled(args, i, j, Spelling(Group(inner)))
    ensures Spelled(args, i, i + 1, [Keyword("(")]) && Spelled(args, i + 1, j - 1, Spelling(inner))
    ensures Spelled(args, j - 1, j, [Keyword(")")])
  {
    hide Is;
    SpelledSplit(args, i, j, [Keyword("(")] + Spelling(inner), [Keyword(")")]);
    SpelledSplit(args, i, j - 1, [Keyword("(")], Spelling(inner));
  }

  lemma GroupComplete(args: seq<string>, i: nat, j: nat, inner: Element, lang: Lang)
    requires i + 2 <= j <= |args|
    requires Spelled(args, i, i + 1, [Keyword("(")]) && Spelled(args, j - 1, j, [Keyword(")")])
    requires ParseExpression(args, i + 1, lang) == ParseTail(inner, args, j - 1, lang)
    ensures ParsePrimitive(args, i, lang) == Ok(Group(inner), j)
  {
    SpelledWord(args, i, [Keyword("(")], 0);
    SpelledWord(args, j - 1, [Keyword(")")], 0);
    assert !IsConnective(args[j - 1]);
  }

  lemma NotComplete(args: seq<string>, i: nat, j: nat, op: Element, lang: Lang)
    requires i < j <= |args| && Spelled(args, i, i + 1, [Keyword("not")])
    requires ParsePrimitive(args, i + 1, lang) == Ok(op, j)
    ensures ParsePrimitive(args, i, lang) == Ok(Not(op), j)
  {
    SpelledWord(args, i, [Keyword("not")], 0);
  }

  lemma PairComplete(args: seq<string>, i: nat, j: nat, e: Element, lang: Lang)
    requires e.Regex? || e.FilterRef? || e.Perl?
    requires IsPrimitive(e, lang) && Spelled(args, i, j, Spelling(e))
    ensures ParsePrimitive(args, i, lang) == Ok(e, j)
  {
    SpelledWord(args, i, Spelling(e), 0);
    SpelledWord(args, i, Spelling(e), 1);
    KeywordsAreDistinct(args[i]);
  }

  /** An expression's spelling brings the parser to its loop with that expression. */
  lemma {:induction false} ExpressionComplete(args: seq<string>, i: nat, j: nat, e: Element, lang: Lang)
    requires IsExpression(e, lang) && Spelled(args, i, j, Spelling(e))
    ensures ParseExpression(args, i, lang) == ParseTail(e, args, j, lang)
    decreases e, 1
  {
    match e
    case And(l, r) => ConnectiveComplete(args, i, j, e, l, r, "and", lang);
    case Or(l, r) => ConnectiveComplete(args, i, j, e, l, r, "or", lang);
    case _ => PrimitiveComplete(args, i, j, e, lang);
  }

  lemma {:induction false} ConnectiveComplete(args: seq<string>, i: nat, j: nat,
                                              e: Element, l: Element, r: Element, word: string, lang: Lang)
    requires (e == And(l, r) && word == "and") || (e == Or(l, r) && word == "or")
    requires IsExpression(l, lang) && IsPrimitive(r, lang) && Spelled(args, i, j, Spelling(e))
    ensures ParseExpression(args, i, lang) == ParseTail(e, args, j, lang)
    decreases e, 0
  {
    ConnectiveSplit(args, i, j, e, l, r, word);
    var m := i + |Spelling(l)|;
    ExpressionComplete(args, i, m, l, lang);
    PrimitiveComplete(args, m + 1, j, r, lang);
    hide Spelled;
    assert Combine(args[m], l, r) == e;
  }

  lemma ConnectiveSplit(args: seq<string>, i: nat, j: nat, e: Element, l: Element, r: Element, word: string)
    requires (e == And(l, r) && word == "and") || (e == Or(l, r) && word == "or")
    requires Spelled(args, i, j, Spelling(e))
    ensures var m := i + |Spelling(l)|;
            m < j <= |args| && Spelled(args, i, m, Spelling(l)) && Spelled(args, m + 1, j, Spelling(r)) &&
            Is(args[m], word) && (word == "or" ==> !Is(args[m], "and"))
  {
    var m := i + |Spelling(l)|;
    ThreeSplit(args, i, j, Spelling(l), word, Spelling(r));
    assert word == "or" ==> !Is(args[m], "and");
  }

  lemma ThreeSplit(args: seq<string>, i: nat, j: nat, a: seq<Word>, word: string, b: seq<Word>)
    requires Spelled(args, i, j, a + [Keyword(word)] + b)
    ensures var m := i + |a|;
            m < j <= |args| && Spelled(args, i, m, a) && Spelled(args, m + 1, j, b) && Is(args[m], word)
  {
    hide Is;
    var m := i + |a|;
    SpelledSplit(args, i, j, a + [Keyword(word)], b);
    SpelledSplit(args, i, m + 1, a, [Keyword(word)]);
    SpelledWord(args, m, [Keyword(word)], 0);
  }

  /** The parser accepts exactly the grammar: all of `args` parses as e if and only if
      e is a well-shaped expression and `args` spells it. */
  lemma ParserMatchesGrammar(args: seq<string>, e: Element, lang: Lang)
    ensures ParseExpression(args, 0, lang) == Ok(e, |args|) <==>
            IsExpression(e, lang) && Spelled(args, 0, |args|, Spelling(e))
  {
    hide Is;
    hide Spelled;
    if ParseExpression(args, 0, lang) == Ok(e, |args|) {
      ExpressionSound(args, 0, lang);
    }
    if IsExpression(e, lang) && Spelled(args, 0, |args|, Spelling(e)) {
      ExpressionComplete(args, 0, |args|, e, lang);
    }
  }

  /** No argument vector has two readings. */
  lemma GrammarIsUnambiguous(args: seq<string>, e: Element, e': Element, lang: Lang)
    requires IsExpression(e, lang) && Spelled(args, 0, |args|, Spelling(e))
    requires IsExpression(e', lang) && Spelled(args, 0, |args|, Spelling(e'))
    ensures e == e'
  {
    hide Is;
    hide Spelled;
    ParserMatchesGrammar(args, e, lang);
    ParserMatchesGrammar(args, e', lang);
  }

  // --------------------------------------------------------------- whole filters

  datatype Colored = Colored(fgcolor: CInt, bgcolor: CInt, rest: seq<string>)

  /** The leading colour options of `owl_filter_new`; an unusable colour is skipped. */
  function TakeColors(argv: seq<string>, fg: CInt, bg: CInt, lang: Lang): (r: Colored)
    ensures |r.rest| <= |argv|
  {
    if |argv| < 2 || (argv[0] != "-c" && argv[0] != "-b") then Colored(fg, bg, argv)
    else
      var c := StringToColor(argv[1], lang.colors);
      if c == COLOR_INVALID then TakeColors(argv[2..], fg, bg, lang)
      else if argv[0] == "-c" then TakeColors(argv[2..], c, bg, lang)
      else TakeColors(argv[2..], fg, c, lang)
  }

  /** What `owl_filter_new` builds before it looks for reference loops. */
  function Build(name: string, argv: seq<string>, lang: Lang): (r: Option<Filter>)
    ensures r.Some? ==> r.value.name == name
  {
    var Colored(fg, bg, rest) := TakeColors(argv, COLOR_DEFAULT, COLOR_DEFAULT, lang);
    match ParseExpression(rest, 0, lang)
    case Fail => None
    case Ok(e, next) => if next == |rest| then Some(Filter(name, fg, bg, e)) else None
  }

  /** The colour options in front of a filter's expression. */
  datatype ColorOption = ColorOption(fore: bool, text: string)

  function SpellColors(options: seq<ColorOption>): seq<string> {
    if options == [] then []
    else [if options[0].fore then "-c" else "-b", options[0].text] + SpellColors(options[1..])
  }

  /** The colour that the last usable of these options gives, or `color`. */
  function LastColor(options: seq<ColorOption>, fore: bool, color: CInt, lang: Lang): CInt {
    if options == [] then color
    else
      var last := options[|options| - 1];
      if last.fore == fore && StringToColor(last.text, lang.colors) != COLOR_INVALID
      then StringToColor(last.text, lang.colors)
      else LastColor(options[..|options| - 1], fore, color, lang)
  }

  lemma {:induction false} LastColorFirst(options: seq<ColorOption>, fore: bool, color: CInt, lang: Lang)
    requires options != []
    ensures var c := StringToColor(options[0].text, lang.colors);
            LastColor(options, fore, color, lang) ==
            LastColor(options[1..], fore, if options[0].fore == fore && c != COLOR_INVALID then c else color, lang)
    decreases |options|
  {
    if |options| == 1 {
      assert options[..0] == [];
    } else {
      var init := options[..|options| - 1];
      assert init[1..] == options[1..][..|options| - 2];
      LastColorFirst(init, fore, color, lang);
    }
  }

  lemma {:induction false} ColorsAreTaken(options: seq<ColorOption>, rest: seq<string>, fg: CInt, bg: CInt, lang: Lang)
    requires |rest| < 2 || (rest[0] != "-c" && rest[0] != "-b")
    ensures TakeColors(SpellColors(options) + rest, fg, bg, lang) ==
            Colored(LastColor(options, true, fg, lang), LastColor(options, false, bg, lang), rest)
    decreases |options|
  {
    hide LastColor;
    if options == [] {
      NoColor(true, fg, lang);
      NoColor(false, bg, lang);
      assert SpellColors(options) + rest == rest;
    } else {
      var first, c := options[0], StringToColor(options[0].text, lang.colors);
      var all := SpellColors(options) + rest;
      assert all[2..] == SpellColors(options[1..]) + rest;
      LastColorFirst(options, true, fg, lang);
      LastColorFirst(options, false, bg, lang);
      ColorsAreTaken(options[1..], rest, if first.fore && c != COLOR_INVALID then c else fg,
                     if !first.fore && c != COLOR_INVALID then c else bg, lang);
    }
  }

  lemma NoColor(fore: bool, color: CInt, lang: Lang)
    ensures LastColor([], fore, color, lang) == color
  {
  }

  /** Of the colour options in front the last usable one of each kind counts, an unusable one
      changes nothing, and the rest is the filter's expression. */
  lemma LeadingColors(name: string, options: seq<ColorOption>, rest: seq<string>, lang: Lang)
    requires |rest| < 2 || (rest[0] != "-c" && rest[0] != "-b")
    ensures Build(name, SpellColors(options) + rest, lang) ==
      match Build(name, rest, lang)
      case None => None
      case Some(f) => Some(Filter(name, LastColor(options, true, COLOR_DEFAULT, lang),
                                  LastColor(options, false, COLOR_DEFAULT, lang), f.root))
  {
    hide ParseExpression;
    ColorsAreTaken(options, rest, COLOR_DEFAULT, COLOR_DEFAULT, lang);
  }

  method BuildFilter(name: string, argv: seq<string>, lang: Lang) returns (f: Option<Filter>)
    ensures f == Build(name, argv, lang)
  {
    var fg, bg, args := COLOR_DEFAULT, COLOR_DEFAULT, argv;
    while |args| >= 2 && (args[0] == "-c" || args[0] == "-b")
      invariant TakeColors(args, fg, bg, lang) == TakeColors(argv, COLOR_DEFAULT, COLOR_DEFAULT, lang)
      decreases |args|
    {
      var c := LookupColor(args[1], lang.colors);
      if c != COLOR_INVALID {
        if args[0] == "-c" { fg := c; } else { bg := c; }
      }
      args := args[2..];
    }
    var root, _ := ParseExpressionAt(args, 0, lang, true);
    f := if root == None then None else Some(Filter(name, fg, bg, root.value));
  }

  // ------------------------------------------------------------------- printer

  function Print(e: Element): string {
    match e
    case True => "true"
    case False => "false"
    case Regex(field, re) => field + " " + Quote(re)
    case FilterRef(name) => "filter " + Quote(name)
    case Perl(name) => "perl " + Quote(name)
    case Group(inner) => "( " + Print(inner) + " )"
    case Not(op) => " not " + Print(op)
    case And(l, r) => Print(l) + " and " + Print(r)
    case Or(l, r) => Print(l) + " or " + Print(r)
  }

  function PrintColor(flag: string, color: CInt): string
    requires color >= COLOR_DEFAULT
  {
    if color == COLOR_DEFAULT then "" else flag + " " + ColorText(color) + " "
  }

  function PrintFilter(f: Filter): string
    requires f.fgcolor >= COLOR_DEFAULT && f.bgcolor >= COLOR_DEFAULT
  {
    PrintColor("-c", f.fgcolor) + PrintColor("-b", f.bgcolor) + Print(f.root) + "\n"
  }

  lemma Append2(buf: string, a: string, b: string)
    ensures buf + a + b == buf + (a + b)
  {
  }

  lemma Append3(buf: string, a: string, b: string, c: string)
    ensures buf + a + b + c == buf + (a + b + c)
  {
  }

  /** The print functions: each appends to the buffer it is given. */
  method AppendElement(e: Element, buf: string) returns (out: string)
    ensures out == buf + Print(e)
  {
    hide Quote;
    match e
    case True => out := buf + "true";
    case False => out := buf + "false";
    case Regex(field, re) =>
      out := AppendQuotedArg(buf + field + " ", re);
      Append3(buf, field, " ", Quote(re));
    case FilterRef(name) =>
      out := AppendQuotedArg(buf + "filter ", name);
      Append2(buf, "filter ", Quote(name));
    case Perl(name) =>
      out := AppendQuotedArg(buf + "perl ", name);
      Append2(buf, "perl ", Quote(name));
    case Group(inner) =>
      out := AppendElement(inner, buf + "( ");
      out := out + " )";
      Append3(buf, "( ", Print(inner), " )");
    case Not(op) =>
      out := AppendElement(op, buf + " not ");
      Append2(buf, " not ", Print(op));
    case And(l, r) =>
      out := AppendElement(l, buf);
      out := AppendElement(r, out + " and ");
      Append3(buf, Print(l), " and ", Print(r));
    case Or(l, r) =>
      out := AppendElement(l, buf);
      out := AppendElement(r, out + " or ");
      Append3(buf, Print(l), " or ", Print(r));
  }

  method FilterToString(f: Filter) returns (out: string)
    requires f.fgcolor >= COLOR_DEFAULT && f.bgcolor >= COLOR_DEFAULT
    ensures out == PrintFilter(f)
  {
    out := "";
    if f.fgcolor != COLOR_DEFAULT {
      out := out + "-c " + ColorText(f.fgcolor) + " ";
    }
    assert out == PrintColor("-c", f.fgcolor);
    ghost var first := out;
    if f.bgcolor != COLOR_DEFAULT {
      out := out + "-b " + ColorText(f.bgcolor) + " ";
    }
    assert out == first + PrintColor("-b", f.bgcolor);
    out := AppendElement(f.root, out);
    out := out + "\n";
  }

  // ---------------------------------------------------- printing undone by parsing

  /** Field names are printed bare, so they must be words the tokenizer keeps whole. */
  predicate PlainFields(e: Element) {
    match e
    case Regex(field, _) => field != "" && NoneNasty(field)
    case Group(inner) => PlainFields(inner)
    case Not(op) => PlainFields(op)
    case And(l, r) => PlainFields(l) && PlainFields(r)
    case Or(l, r) => PlainFields(l) && PlainFields(r)
    case _ => true
  }

  function Texts(words: seq<Word>): (r: seq<string>)
    ensures |r| == |words| && forall i :: 0 <= i < |r| ==> r[i] == words[i].text
  {
    seq(|words|, i requires 0 <= i < |words| => words[i].text)
  }

  lemma TextsConcat(a: seq<Word>, b: seq<Word>)
    ensures Texts(a + b) == Texts(a) + Texts(b)
  {
  }

  /** Reading `text` from a gap after `done` yields `words`, the last still open. */
  ghost predicate Reads(text: string, words: seq<string>) {
    words != [] &&
    forall done: seq<string> :: Run(Scan(done, "", Between), text) ==
      Scan(done + words[..|words| - 1], words[|words| - 1], Plain)
  }

  lemma ReadsQuote(arg: string)
    ensures Reads(Quote(arg), [arg])
  {
    forall done: seq<string>
      ensures Run(Scan(done, "", Between), Quote(arg)) == Scan(done + [arg][..0], arg, Plain)
    {
      RunQuote(done, arg);
      assert done + [arg][..0] == done;
    }
  }

  lemma ReadsWord(word: string)
    requires word != "" && NoneNasty(word)
    ensures Reads(word, [word])
  {
    ReadsQuote(word);
  }

  lemma RunJoin(done: seq<string>, a: string, wa: seq<string>, b: string)
    requires wa != []
    requires Run(Scan(done, "", Between), a) == Scan(done + wa[..|wa| - 1], wa[|wa| - 1], Plain)
    ensures Run(Scan(done, "", Between), a + " " + b) == Run(Scan(done + wa, "", Between), b)
  {
    var st := Scan(done, "", Between);
    RunConcat(st, a + " ", b);
    RunConcat(st, a, " ");
    assert done + wa[..|wa| - 1] + [wa[|wa| - 1]] == done + wa;
  }

  lemma ReadsJoin(a: string, wa: seq<string>, b: string, wb: seq<string>)
    requires Reads(a, wa) && Reads(b, wb)
    ensures Reads(a + " " + b, wa + wb)
  {
    var words := wa + wb;
    forall done: seq<string>
      ensures Run(Scan(done, "", Between), a + " " + b) ==
              Scan(done + words[..|words| - 1], words[|words| - 1], Plain)
    {
      RunJoin(done, a, wa, b);
      hide Run;
      assert (done + wa) + wb[..|wb| - 1] == done + words[..|words| - 1];
    }
  }

  lemma ReadsAfterBlank(a: string, wa: seq<string>)
    requires Reads(a, wa)
    ensures Reads(" " + a, wa)
  {
  }

  lemma {:induction false} PrintReads(e: Element)
    requires PlainFields(e)
    ensures Reads(Print(e), Texts(Spelling(e)))
    decreases e, 1
  {
    hide Reads;
    match e
    case Group(inner) =>
      PrintReads(inner);
      GroupReads(inner);
    case Not(op) =>
      PrintReads(op);
      NotReads(op);
    case And(l, r) =>
      PrintReads(l);
      PrintReads(r);
      ConnectiveReads(e, l, r, "and");
    case Or(l, r) =>
      PrintReads(l);
      PrintReads(r);
      ConnectiveReads(e, l, r, "or");
    case _ => LeafReads(e);
  }

  lemma LeafReads(e: Element)
    requires PlainFields(e) && (e.True? || e.False? || e.Regex? || e.FilterRef? || e.Perl?)
    ensures Reads(Print(e), Texts(Spelling(e)))
  {
    hide Reads;
    match e
    case True =>
      ReadsWord("true");
      assert Texts(Spelling(e)) == ["true"];
    case False =>
      ReadsWord("false");
      assert Texts(Spelling(e)) == ["false"];
    case Regex(field, re) => PairReads(field, re);
      assert Texts(Spelling(e)) == [field, re];
    case FilterRef(name) => PairReads("filter", name);
      assert "filter " == "filter" + " ";
      assert Texts(Spelling(e)) == ["filter", name];
    case Perl(name) => PairReads("perl", name);
      assert "perl " == "perl" + " ";
      assert Texts(Spelling(e)) == ["perl", name];
  }

  lemma PairReads(word: string, arg: string)
    requires word != "" && NoneNasty(word)
    ensures Reads(word + " " + Quote(arg), [word, arg])
  {
    hide Reads;
    ReadsWord(word);
    ReadsQuote(arg);
    ReadsJoin(word, [word], Quote(arg), [arg]);
    assert [word] + [arg] == [word, arg];
  }

  lemma GroupReads(inner: Element)
    requires Reads(Print(inner), Texts(Spelling(inner)))
    ensures Reads(Print(Group(inner)), Texts(Spelling(Group(inner))))
  {
    hide Reads;
    var w, open, close, p := Texts(Spelling(inner)), "(", ")", Print(inner);
    ReadsWord(open);
    ReadsWord(close);
    ReadsJoin(open, [open], p, w);
    ReadsJoin(open + " " + p, [open] + w, close, [close]);
    assert "( " == open + " " && " )" == " " + close;
    assert (open + " ") + p + (" " + close) == open + " " + p + " " + close;
    TextsConcat([Keyword(open)] + Spelling(inner), [Keyword(close)]);
    TextsConcat([Keyword(open)], Spelling(inner));
    assert Texts([Keyword(open)]) == [open] && Texts([Keyword(close)]) == [close];
  }

  lemma NotReads(op: Element)
    requires Reads(Print(op), Texts(Spelling(op)))
    ensures Reads(Print(Not(op)), Texts(Spelling(Not(op))))
  {
    hide Reads;
    var w, word, p := Texts(Spelling(op)), "not", Print(op);
    ReadsWord(word);
    ReadsJoin(word, [word], p, w);
    ReadsAfterBlank(word + " " + p, [word] + w);
    assert " not " == " " + word + " ";
    assert (" " + word + " ") + p == " " + (word + " " + p);
    TextsConcat([Keyword(word)], Spelling(op));
    assert Texts([Keyword(word)]) == [word];
  }

  lemma ConnectiveReads(e: Element, l: Element, r: Element, word: string)
    requires (e == And(l, r) && word == "and") || (e == Or(l, r) && word == "or")
    requires Reads(Print(l), Texts(Spelling(l))) && Reads(Print(r), Texts(Spelling(r)))
    ensures Reads(Print(e), Texts(Spelling(e)))
  {
    hide Reads;
    ReadsWord(word);
    JoinThree(Print(l), Texts(Spelling(l)), word, Print(r), Texts(Spelling(r)));
    ConnectiveTexts(e, l, r, word);
  }

  lemma ConnectiveTexts(e: Element, l: Element, r: Element, word: string)
    requires (e == And(l, r) && word == "and") || (e == Or(l, r) && word == "or")
    ensures Print(e) == Print(l) + " " + word + " " + Print(r)
    ensures Texts(Spelling(e)) == Texts(Spelling(l)) + [word] + Texts(Spelling(r))
  {
    assert " and " == " " + "and" + " " && " or " == " " + "or" + " ";
    var blank, pl, pr := " ", Print(l), Print(r);
    assert pl + (blank + word + blank) + pr == pl + blank + word + blank + pr;
    TextsConcat(Spelling(l) + [Keyword(word)], Spelling(r));
    TextsConcat(Spelling(l), [Keyword(word)]);
    assert Texts([Keyword(word)]) == [word];
  }

  lemma JoinThree(a: string, wa: seq<string>, word: string, b: string, wb: seq<string>)
    requires Reads(a, wa) && Reads(word, [word]) && Reads(b, wb)
    ensures Reads(a + " " + word + " " + b, wa + [word] + wb)
  {
    hide Reads;
    ReadsJoin(a, wa, word, [word]);
    ReadsJoin(a + " " + word, wa + [word], b, wb);
  }

  function ColorWords(flag: string, color: CInt): seq<string>
    requires color >= COLOR_DEFAULT
  {
    if color == COLOR_DEFAULT then [] else [flag, ColorText(color)]
  }

  function FilterWords(f: Filter): seq<string>
    requires f.fgcolor >= COLOR_DEFAULT && f.bgcolor >= COLOR_DEFAULT
  {
    ColorWords("-c", f.fgcolor) + (ColorWords("-b", f.bgcolor) + Texts(Spelling(f.root)))
  }

  lemma PrintColorReads(flag: string, color: CInt, text: string, words: seq<string>)
    requires flag != "" && NoneNasty(flag) && color >= COLOR_DEFAULT && Reads(text, words)
    ensures Reads(PrintColor(flag, color) + text, ColorWords(flag, color) + words)
  {
    if color == COLOR_DEFAULT {
      assert PrintColor(flag, color) + text == text && ColorWords(flag, color) + words == words;
    } else {
      ColorTextIsPlain(color);
      ReadsWord(flag);
      ReadsWord(ColorText(color));
      ReadsJoin(flag, [flag], ColorText(color), [ColorText(color)]);
      assert [flag] + [ColorText(color)] == ColorWords(flag, color);
      ReadsJoin(flag + " " + ColorText(color), ColorWords(flag, color), text, words);
      assert PrintColor(flag, color) + text == (flag + " " + ColorText(color)) + " " + text;
    }
  }

  lemma ReadsLine(line: string, words: seq<string>)
    requires Reads(line, words)
    ensures Parse(line + "\n") == Some(words)
  {
    RunConcat(START, line, "\n");
    assert [] + words[..|words| - 1] + [words[|words| - 1]] == words;
  }

  /** A printed filter, the trailing newline included, splits into its words. */
  lemma PrintFilterParses(f: Filter)
    requires f.fgcolor >= COLOR_DEFAULT && f.bgcolor >= COLOR_DEFAULT && PlainFields(f.root)
    ensures Parse(PrintFilter(f)) == Some(FilterWords(f))
  {
    hide Reads;
    hide Parse;
    PrintReads(f.root);
    var text, words := Print(f.root), Texts(Spelling(f.root));
    PrintColorReads("-b", f.bgcolor, text, words);
    PrintColorReads("-c", f.fgcolor, PrintColor("-b", f.bgcolor) + text, ColorWords("-b", f.bgcolor) + words);
    var line := PrintColor("-c", f.fgcolor) + (PrintColor("-b", f.bgcolor) + text);
    assert PrintFilter(f) == line + "\n";
    ReadsLine(line, FilterWords(f));
  }

  /** The colours a parsed filter can hold. */
  predicate ValidColors(f: Filter, lang: Lang) {
    COLOR_DEFAULT <= f.fgcolor && (f.fgcolor < 8 || f.fgcolor < lang.colors) &&
    COLOR_DEFAULT <= f.bgcolor && (f.bgcolor < 8 || f.bgcolor < lang.colors)
  }

  /** The invariant of a parsed filter: usable colours, a well-shaped tree, and a
      first word that is not itself a colour option with a value. */
  ghost predicate ValidFilter(f: Filter, lang: Lang) {
    ValidColors(f, lang) && IsExpression(f.root, lang) && !StartsWithOption(f.root)
  }

  /** The first word of the tree is a bare "-c" or "-b" used as a field name. */
  predicate StartsWithOption(e: Element) {
    match e
    case Regex(field, _) => field == "-c" || field == "-b"
    case And(l, _) => StartsWithOption(l)
    case Or(l, _) => StartsWithOption(l)
    case _ => false
  }

  lemma {:induction false} FirstWord(e: Element)
    ensures StartsWithOption(e) <==> Spelling(e)[0].text == "-c" || Spelling(e)[0].text == "-b"
    ensures StartsWithOption(e) ==> |Spelling(e)| >= 2 && Spelling(e)[0].Literal?
  {
    match e
    case And(l, r) => FirstWord(l);
    case Or(l, r) => FirstWord(l);
    case _ =>
  }

  lemma {:induction false} TakeColorsKeepsRange(argv: seq<string>, fg: CInt, bg: CInt, lang: Lang)
    requires ValidColors(Filter("", fg, bg, True), lang)
    ensures var c := TakeColors(argv, fg, bg, lang);
            ValidColors(Filter("", c.fgcolor, c.bgcolor, True), lang) &&
            (|c.rest| < 2 || (c.rest[0] != "-c" && c.rest[0] != "-b"))
    decreases |argv|
  {
    if |argv| < 2 || (argv[0] != "-c" && argv[0] != "-b") {
    } else {
      ColorRange(argv[1], lang.colors);
      var c := StringToColor(argv[1], lang.colors);
      if c == COLOR_INVALID { TakeColorsKeepsRange(argv[2..], fg, bg, lang); }
      else if argv[0] == "-c" { TakeColorsKeepsRange(argv[2..], c, bg, lang); }
      else { TakeColorsKeepsRange(argv[2..], fg, c, lang); }
    }
  }

  lemma BuildIsValid(name: string, argv: seq<string>, lang: Lang)
    requires Build(name, argv, lang).Some?
    ensures ValidFilter(Build(name, argv, lang).value, lang)
  {
    TakeColorsKeepsRange(argv, COLOR_DEFAULT, COLOR_DEFAULT, lang);
    var rest := TakeColors(argv, COLOR_DEFAULT, COLOR_DEFAULT, lang).rest;
    var root := Build(name, argv, lang).value.root;
    ParserMatchesGrammar(rest, root, lang);
    FirstWord(root);
  }

  lemma SpelledByTexts(words: seq<Word>)
    ensures Spelled(Texts(words), 0, |words|, words)
  {
  }

  /** A valid filter is rebuilt from its own words. */
  lemma WordsRebuild(f: Filter, lang: Lang)
    requires ValidFilter(f, lang)
    ensures Build(f.name, FilterWords(f), lang) == Some(f)
  {
    var words := Texts(Spelling(f.root));
    FirstWord(f.root);
    SpelledByTexts(Spelling(f.root));
    ParserMatchesGrammar(words, f.root, lang);
    var back := ColorWords("-b", f.bgcolor) + words;
    ColorWordsTaken("-b", f.bgcolor, words, f.fgcolor, COLOR_DEFAULT, lang);
    ColorWordsTaken("-c", f.fgcolor, back, COLOR_DEFAULT, COLOR_DEFAULT, lang);
  }

  lemma ColorWordsTaken(flag: string, color: CInt, rest: seq<string>, fg: CInt, bg: CInt, lang: Lang)
    requires flag == "-c" || flag == "-b"
    requires COLOR_DEFAULT <= color && (color < 8 || color < lang.colors)
    requires flag == "-c" ==> fg == COLOR_DEFAULT
    requires flag == "-b" ==> bg == COLOR_DEFAULT
    ensures TakeColors(ColorWords(flag, color) + rest, fg, bg, lang) ==
            TakeColors(rest, if flag == "-c" then color else fg, if flag == "-b" then color else bg, lang)
  {
    if color == COLOR_DEFAULT {
      assert ColorWords(flag, color) + rest == rest;
    } else {
      ColorRoundTrip(color, lang.colors);
      assert (ColorWords(flag, color) + rest)[2..] == rest;
    }
  }

  /** Print, re-tokenize, re-parse: a filter with plain field names comes back. */
  lemma PlainFieldsReadBack(f: Filter, lang: Lang)
    requires ValidFilter(f, lang) && PlainFields(f.root)
    ensures Parse(PrintFilter(f)).Some? && Build(f.name, Parse(PrintFilter(f)).value, lang) == Some(f)
  {
    PrintFilterParses(f);
    WordsRebuild(f, lang);
  }

  /** A field name that is not a plain word: with a blank in it, which the parser accepts,
      it is printed as two words and the printed filter no longer parses. */
  lemma BlankFieldIsNotPrintable(lang: Lang)
    requires lang.compiles("x")
    ensures var f := Filter("f", COLOR_DEFAULT, COLOR_DEFAULT, Regex("a b", "x"));
            Build("f", ["a b", "x"], lang) == Some(f) &&
            Parse(PrintFilter(f)) == Some(["a", "b", "x"]) && Build("f", ["a", "b", "x"], lang) == None
  {
    var f := Filter("f", COLOR_DEFAULT, COLOR_DEFAULT, Regex("a b", "x"));
    BlankFieldText();
    assert PrintFilter(f) == "a b x" + "\n" by {
      assert Print(f.root) == "a b" + " " + "x" == "a b x";
    }
    BlankFieldArgs(lang);
  }

  lemma BlankFieldArgs(lang: Lang)
    requires lang.compiles("x")
    ensures Build("f", ["a b", "x"], lang) == Some(Filter("f", COLOR_DEFAULT, COLOR_DEFAULT, Regex("a b", "x")))
    ensures Build("f", ["a", "b", "x"], lang) == None
  {
    var two, three := ["a b", "x"], ["a", "b", "x"];
    StartsWithA("a b");
    StartsWithA("a");
    assert ParsePrimitive(two, 0, lang) == ParsePair(two, 0, lang) == Ok(Regex("a b", "x"), 2);
    assert ParsePrimitive(three, 0, lang) == ParsePair(three, 0, lang);
    assert !IsConnective(three[2]);
  }

  lemma StartsWithA(word: string)
    requires word != "" && word[0] == 'a'
    ensures !IsReserved(word)
  {
  }

  lemma BlankFieldText()
    ensures Parse("a b x" + "\n") == Some(["a", "b", "x"])
  {
    hide Reads;
    hide Parse;
    var a, b, x := "a", "b", "x";
    ReadsWord(a);
    PairReads(b, x);
    ReadsJoin(a, [a], b + " " + Quote(x), [b, x]);
    assert [a] + [b, x] == [a, b, x];
    assert Quote(x) == x;
    assert a + " " + (b + " " + x) == "a b x";
    ReadsLine("a b x", [a, b, x]);
  }

  /** `owl_filter_equiv`. */
  predicate Equivalent(a: Filter, b: Filter)
    requires a.fgcolor >= COLOR_DEFAULT && a.bgcolor >= COLOR_DEFAULT
    requires b.fgcolor >= COLOR_DEFAULT && b.bgcolor >= COLOR_DEFAULT
  {
    PrintFilter(a) == PrintFilter(b) && a.name == b.name
  }

  /** Comparing printed forms is comparing filters: name, both colours and tree. Of all
      filters that are printed alike at most one has only plain field names. */
  lemma EquivalentMeansEqual(a: Filter, b: Filter, lang: Lang)
    requires ValidFilter(a, lang) && ValidFilter(b, lang) && PlainFields(a.root)
    ensures PlainFields(b.root) ==> (Equivalent(a, b) <==> a == b)
    ensures Equivalent(a, b) ==> (a == b <==> PlainFields(b.root))
  {
    if Equivalent(a, b) && PlainFields(b.root) {
      PrintFilterParses(a);
      PrintFilterParses(b);
      WordsRebuild(a, lang);
      WordsRebuild(b, lang);
    }
  }

  /** Filters that are printed alike can differ, if one has a field name like this. */
  lemma EquivalentCanDiffer(lang: Lang)
    requires lang.compiles("x")
    ensures var a := Filter("f", COLOR_DEFAULT, COLOR_DEFAULT, And(True, Regex("b", "x")));
      var b := Filter("f", COLOR_DEFAULT, COLOR_DEFAULT, Regex("true and b", "x"));
      ValidFilter(a, lang) && ValidFilter(b, lang) && Equivalent(a, b) && a != b
  {
    var blank, name := " ", "true and b";
    assert Print(And(True, Regex("b", "x"))) == "true" + " and " + ("b" + blank + Quote("x"));
    assert Print(Regex(name, "x")) == name + blank + Quote("x");
    var b, open := "b", "(";
    assert Lower(b[0]) != Lower(open[0]);
    assert !IsReserved(name) && !IsReserved(b);
  }
}

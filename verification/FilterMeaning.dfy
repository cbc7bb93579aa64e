/** What the words of a filter mean: whether a message matches, said with the argument vector
    that was parsed (filter.c, filterelement.c). */
module FilterMeaning {
  import opened Strings
  import opened FilterSyntax
  import opened FilterGraph

  /** Whether the filter with these words holds, v giving the filters' values; None if they
      are no filter. */
  function Truth(args: seq<string>, lang: Lang, w: World, v: string -> bool): Option<bool> {
    var p := ParseExpression(args, 0, lang);
    if p.Ok? && p.next == |args| then Some(Holds(p.e, w, v)) else None
  }

  /** The words read as one filter without a connective outside parentheses. */
  predicate IsOperand(args: seq<string>, lang: Lang) {
    var p := ParseExpression(args, 0, lang);
    p.Ok? && p.next == |args| && !p.e.And? && !p.e.Or?
  }

  lemma SpelledInside(before: seq<string>, args: seq<string>, after: seq<string>, words: seq<Word>)
    requires Spelled(args, 0, |args|, words)
    ensures Spelled(before + args + after, |before|, |before| + |args|, words)
  {
    var all := before + args + after;
    forall k | 0 <= k < |words| ensures Fits(all[|before| + k], words[k]) {
      assert Fits(args[0 + k], words[k]);
    }
  }

  /** The words of the basic filters. */
  lemma LeavesMean(word: string, arg: string, lang: Lang, w: World, v: string -> bool)
    ensures EqualIgnoringCase(word, "true") ==> Truth([word], lang, w, v) == Some(true)
    ensures EqualIgnoringCase(word, "false") ==> Truth([word], lang, w, v) == Some(false)
    ensures EqualIgnoringCase(word, "filter") ==> Truth([word, arg], lang, w, v) == Some(v(arg))
    ensures EqualIgnoringCase(word, "perl") ==> Truth([word, arg], lang, w, v) == Some(w.perl(arg))
    ensures !IsReserved(word) && lang.compiles(arg) ==> Truth([word, arg], lang, w, v) == Some(w.regex(word, arg))
  {
    ParserMatchesGrammar([word], True, lang);
    ParserMatchesGrammar([word], False, lang);
    ParserMatchesGrammar([word, arg], FilterRef(arg), lang);
    ParserMatchesGrammar([word, arg], Perl(arg), lang);
    ParserMatchesGrammar([word, arg], Regex(word, arg), lang);
  }

  /** `and` and `or` combine all that comes before with the operand after. */
  lemma ConnectivesMean(l: seq<string>, word: string, r: seq<string>, lang: Lang, w: World, v: string -> bool)
    requires Truth(l, lang, w, v).Some? && IsOperand(r, lang)
    requires EqualIgnoringCase(word, "and") || EqualIgnoringCase(word, "or")
    ensures var a, b := Truth(l, lang, w, v).value, Truth(r, lang, w, v).value;
      Truth(l + [word] + r, lang, w, v) == Some(if EqualIgnoringCase(word, "and") then a && b else a || b)
  {
    var e1, e2 := ParseExpression(l, 0, lang).e, ParseExpression(r, 0, lang).e;
    ParserMatchesGrammar(l, e1, lang);
    ParserMatchesGrammar(r, e2, lang);
    var all, e := l + [word] + r, Combine(word, e1, e2);
    assert all == [] + l + ([word] + r) && all == (l + [word]) + r + [];
    SpelledInside([], l, [word] + r, Spelling(e1));
    SpelledInside(l + [word], r, [], Spelling(e2));
    assert all[|l|] == word;
    CombinedSpelled(all, 0, |l|, |all|, e1, e2);
    hide Spelled;
    ParserMatchesGrammar(all, e, lang);
    hide ParseExpression;
    assert IsExpression(e, lang);
  }

  /** `not` negates the operand after it, and parentheses change nothing. */
  lemma PrefixesMean(word: string, args: seq<string>, close: string, lang: Lang, w: World, v: string -> bool)
    requires Truth(args, lang, w, v).Some?
    ensures EqualIgnoringCase(word, "not") && IsOperand(args, lang) ==>
      Truth([word] + args, lang, w, v) == Some(!Truth(args, lang, w, v).value) && IsOperand([word] + args, lang)
    ensures EqualIgnoringCase(word, "(") && EqualIgnoringCase(close, ")") ==>
      Truth([word] + args + [close], lang, w, v) == Truth(args, lang, w, v) && IsOperand([word] + args + [close], lang)
  {
    var e := ParseExpression(args, 0, lang).e;
    ParserMatchesGrammar(args, e, lang);
    if EqualIgnoringCase(word, "not") && IsOperand(args, lang) { NotMeans(word, args, e, lang); }
    if EqualIgnoringCase(word, "(") && EqualIgnoringCase(close, ")") { GroupMeans(word, args, close, e, lang); }
  }

  lemma NotMeans(word: string, args: seq<string>, e: Element, lang: Lang)
    requires EqualIgnoringCase(word, "not") && IsPrimitive(e, lang) && Spelled(args, 0, |args|, Spelling(e))
    ensures ParseExpression([word] + args, 0, lang) == Ok(Not(e), |args| + 1)
  {
    var all := [word] + args;
    assert all == [word] + args + [] && all[0] == word;
    SpelledInside([word], args, [], Spelling(e));
    assert Spelled(all, 0, 1, [Keyword("not")]);
    hide Spelled;
    SpelledConcat(all, 0, 1, |all|, [Keyword("not")], Spelling(e));
    ParserMatchesGrammar(all, Not(e), lang);
  }

  lemma GroupMeans(word: string, args: seq<string>, close: string, e: Element, lang: Lang)
    requires EqualIgnoringCase(word, "(") && EqualIgnoringCase(close, ")")
    requires IsExpression(e, lang) && Spelled(args, 0, |args|, Spelling(e))
    ensures ParseExpression([word] + args + [close], 0, lang) == Ok(Group(e), |args| + 2)
  {
    var all, n := [word] + args + [close], |args| + 1;
    SpelledInside([word], args, [close], Spelling(e));
    assert all[0] == word && all[n] == close;
    assert Spelled(all, 0, 1, [Keyword("(")]) && Spelled(all, n, n + 1, [Keyword(")")]);
    hide Spelled;
    SpelledConcat(all, 0, 1, n, [Keyword("(")], Spelling(e));
    SpelledConcat(all, 0, n, n + 1, [Keyword("(")] + Spelling(e), [Keyword(")")]);
    ParserMatchesGrammar(all, Group(e), lang);
  }
}

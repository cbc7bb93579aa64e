/** What filling a paragraph (editwin.c) achieves: the first pass keeps the words and leaves
    single blanks, the second leaves no line too long, and where either falls short. */
module ParagraphFill {
  import opened EditText
  import opened EditWindow

  // -------------------------------------------------------------- the words stay

  /** The text with every run of whitespace replaced by one blank; `after` tells whether
      whitespace is before it. */
  function Squeeze(isSpace: char -> bool, s: seq<char>, after: bool): seq<char>
  {
    if s == [] then []
    else if isSpace(s[0]) then (if after then [] else [' ']) + Squeeze(isSpace, s[1..], true)
    else [s[0]] + Squeeze(isSpace, s[1..], false)
  }

  /** Whether whitespace is at the end. */
  predicate EndsBlank(isSpace: char -> bool, s: seq<char>, after: bool)
  {
    if s == [] then after else isSpace(s[|s| - 1])
  }

  lemma {:induction false} SqueezeConcat(isSpace: char -> bool, a: seq<char>, b: seq<char>, after: bool)
    ensures Squeeze(isSpace, a + b, after) ==
            Squeeze(isSpace, a, after) + Squeeze(isSpace, b, EndsBlank(isSpace, a, after))
    decreases |a|
  {
    if a == [] {
      assert a + b == b;
    } else {
      assert (a + b)[1..] == a[1..] + b;
      SqueezeConcat(isSpace, a[1..], b, isSpace(a[0]));
    }
  }

  /** Replacing a whitespace character by a blank keeps the words. */
  lemma ReplacingKeepsWords(isSpace: char -> bool, b: seq<char>, i: nat, after: bool)
    requires i < |b| && isSpace(b[i]) && isSpace(' ')
    ensures Squeeze(isSpace, b[i := ' '], after) == Squeeze(isSpace, b, after)
  {
    var a, r := b[..i], b[i..];
    var r' := r[0 := ' '];
    assert b == a + r && b[i := ' '] == a + r';
    assert r'[1..] == r[1..];
    SqueezeConcat(isSpace, a, r, after);
    SqueezeConcat(isSpace, a, r', after);
  }

  /** Deleting a whitespace character after another keeps the words. */
  lemma DeletingKeepsWords(isSpace: char -> bool, b: seq<char>, i: nat, after: bool)
    requires 0 < i < |b| && isSpace(b[i - 1]) && isSpace(b[i])
    ensures Squeeze(isSpace, b[..i] + b[i + 1..], after) == Squeeze(isSpace, b, after)
  {
    var a, r := b[..i], b[i..];
    assert b == a + r && r[1..] == b[i + 1..];
    SqueezeConcat(isSpace, a, r, after);
    SqueezeConcat(isSpace, a, r[1..], after);
    assert [] + Squeeze(isSpace, r[1..], true) == Squeeze(isSpace, r[1..], true);
  }

  lemma {:induction false} DroppingKeepsWords(isSpace: char -> bool, b: seq<char>, i: nat, m: int)
    requires 0 < i <= |b| && m <= |b| && isSpace(b[i - 1])
    ensures Squeeze(isSpace, DropBlanks(isSpace, b, i, m).0, false) == Squeeze(isSpace, b, false)
    decreases |b|
  {
    if i >= m || !isSpace(b[i]) {
    } else {
      DeletingKeepsWords(isSpace, b, i, false);
      DroppingKeepsWords(isSpace, b[..i] + b[i + 1..], i, m - 1);
    }
  }

  lemma CollapseAtKeepsWords(isSpace: char -> bool, b: seq<char>, i: nat, m: int, sentence: bool)
    requires i < m <= |b| && isSpace(' ')
    ensures Squeeze(isSpace, CollapseAt(isSpace, b, i, m, sentence).0, false) == Squeeze(isSpace, b, false)
  {
    hide Squeeze;
    hide DropBlanks;
    if isSpace(b[i]) {
      var b1 := b[i := ' '];
      var i2 := if sentence && i + 1 < m && isSpace(b1[i + 1]) then i + 2 else i + 1;
      assert CollapseAt(isSpace, b, i, m, sentence).0 == DropBlanks(isSpace, b1, i2, m).0;
      hide CollapseAt;
      ReplacingKeepsWords(isSpace, b, i, false);
      DroppingKeepsWords(isSpace, b1, i2, m);
    } else {
      NothingCollapsesAtLetters(isSpace, b, i, m, sentence);
    }
  }

  /** The first pass changes no word, joins no two words and splits none: of the whitespace
      between two characters, CJK characters included, something always stays. */
  lemma {:induction false} WordsStay(isSpace: char -> bool, b: seq<char>, i: nat, m: int, before: char, sentence: bool)
    requires i <= |b| && m <= |b| && isSpace(' ')
    ensures Squeeze(isSpace, Collapse(isSpace, b, i, m, before, sentence).0, false) == Squeeze(isSpace, b, false)
    decreases m - i
  {
    hide Squeeze;
    hide CollapseAt;
    hide Collapse;
    hide CanBreakAfter;
    CollapseStep(isSpace, b, i, m, before, sentence);
    if i >= m || b[i..] == "\n." {
    } else if CanBreakAfter(b[i]) || b[i] == '\n' {
      CollapseAtKeepsWords(isSpace, b, i, m, sentence);
      var (b2, i2, m2) := CollapseAt(isSpace, b, i, m, sentence);
      WordsStay(isSpace, b2, Min(i2 + 1, |b2|), m2, b[i], EndsSentence(before, b[i]));
    } else {
      WordsStay(isSpace, b, i + 1, m, b[i], EndsSentence(before, b[i]));
    }
  }

  // ----------------------------------------------------------- what a step leaves

  /** The first position from i up to m that is not whitespace. */
  function NonBlank(isSpace: char -> bool, b: seq<char>, i: nat, m: int): (j: int)
    requires i <= m <= |b|
    ensures i <= j <= m && (j < m ==> !isSpace(b[j])) && forall k :: i <= k < j ==> isSpace(b[k])
    decreases m - i
  {
    if i < m && isSpace(b[i]) then NonBlank(isSpace, b, i + 1, m) else i
  }

  lemma {:induction false} DropsTo(isSpace: char -> bool, b: seq<char>, i: nat, m: int, j: int)
    requires i <= j <= m <= |b| && (j < m ==> !isSpace(b[j])) && forall k :: i <= k < j ==> isSpace(b[k])
    ensures DropBlanks(isSpace, b, i, m) == (b[..i] + b[j..], m - (j - i))
    decreases j - i
  {
    if i == j {
      assert b[..i] + b[j..] == b;
    } else {
      var b' := b[..i] + b[i + 1..];
      assert forall k :: i <= k < |b'| ==> b'[k] == b[k + 1];
      DropsTo(isSpace, b', i, m - 1, j - 1);
      assert b'[..i] + b'[j - 1..] == b[..i] + b[j..];
    }
  }

  /** A place where the first pass puts a blank. */
  predicate Collapses(isSpace: char -> bool, c: char)
  {
    (CanBreakAfter(c) || c == '\n') && isSpace(c)
  }

  /** What a step of the first pass makes of whitespace: a blank, after a sentence what comes
      second, and then what is not whitespace. */
  lemma BlankStep(isSpace: char -> bool, b: seq<char>, i: nat, m: int, sentence: bool)
    requires i < m <= |b| && isSpace(b[i])
    ensures var (b2, i2, m2) := CollapseAt(isSpace, b, i, m, sentence);
      var j := NonBlank(isSpace, b, i + 1, m);
      i2 == (if sentence && j > i + 1 then i + 2 else i + 1) && m2 == m - (j - i2) && i2 <= j &&
      b2 == b[..i] + [' '] + b[i + 1..i2] + b[j..]
  {
    hide DropBlanks;
    var j := NonBlank(isSpace, b, i + 1, m);
    hide NonBlank;
    var b1 := b[i := ' '];
    var i2 := if sentence && i + 1 < m && isSpace(b1[i + 1]) then i + 2 else i + 1;
    assert i2 == if sentence && j > i + 1 then i + 2 else i + 1;
    DropsTo(isSpace, b1, i2, m, j);
    Rejoined(b, i, i2, j);
  }

  lemma Rejoined(b: seq<char>, i: nat, i2: nat, j: nat)
    requires i < i2 <= j <= |b|
    ensures b[i := ' '][..i2] + b[i := ' '][j..] == b[..i] + [' '] + b[i + 1..i2] + b[j..]
  {
  }

  lemma {:induction false} DropKeepsPrefix(isSpace: char -> bool, b: seq<char>, i: nat, m: int)
    requires i <= |b| && m <= |b|
    ensures DropBlanks(isSpace, b, i, m).0[..i] == b[..i]
    decreases |b|
  {
    if i >= m || !isSpace(b[i]) {
    } else {
      DropKeepsPrefix(isSpace, b[..i] + b[i + 1..], i, m - 1);
    }
  }

  lemma StepKeepsPrefix(isSpace: char -> bool, b: seq<char>, i: nat, m: int, sentence: bool)
    requires i < m <= |b|
    ensures CollapseAt(isSpace, b, i, m, sentence).0[..i] == b[..i]
  {
    var r := CollapseAt(isSpace, b, i, m, sentence);
    var b1 := if isSpace(b[i]) then b[i := ' '] else b;
    DropKeepsPrefix(isSpace, b1, r.1, m);
    assert r.0[..i] == r.0[..r.1][..i] && b1[..r.1][..i] == b1[..i] == b[..i];
  }

  /** What the first pass has gone over stays. */
  lemma {:induction false} PrefixStays(isSpace: char -> bool, b: seq<char>, i: nat, m: int, before: char,
                                       sentence: bool)
    requires i <= |b| && m <= |b|
    ensures Collapse(isSpace, b, i, m, before, sentence).0[..i] == b[..i]
    decreases m - i
  {
    hide CollapseAt;
    hide Collapse;
    hide CanBreakAfter;
    CollapseStep(isSpace, b, i, m, before, sentence);
    if i >= m || b[i..] == "\n." {
    } else {
      var (b2, i2, m2) := if CanBreakAfter(b[i]) || b[i] == '\n' then CollapseAt(isSpace, b, i, m, sentence)
        else (b, i, m);
      if CanBreakAfter(b[i]) || b[i] == '\n' { StepKeepsPrefix(isSpace, b, i, m, sentence); }
      var i' := Min(i2 + 1, |b2|);
      PrefixStays(isSpace, b2, i', m2, b[i], EndsSentence(before, b[i]));
      var r := Collapse(isSpace, b2, i', m2, b[i], EndsSentence(before, b[i])).0;
      assert r[..i] == r[..i'][..i] == b2[..i'][..i] == b2[..i];
    }
  }

  /** What becomes of the blanks and newlines after a character: a blank, and, if the
      character is '.', '!' or '?', or a quote right after one, the second of them as it is.
      The next character that is not whitespace follows. */
  lemma RunOfBlanks(isSpace: char -> bool, b: seq<char>, i: nat, m: int, before: char, sentence: bool)
    requires i + 1 < m <= |b| && !CanBreakAfter(b[i]) && b[i] != '\n'
    requires isSpace(b[i + 1]) && (b[i + 1] == ' ' || b[i + 1] == '\n') && b[i + 1..] != "\n."
    ensures var j := NonBlank(isSpace, b, i + 2, m);
      var ends := b[i] in ".!?" || (b[i] == '"' && before in ".!?");
      var start := b[..i + 1] + [' '] + (if ends && j > i + 2 then [b[i + 2]] else []) + (if j < m then [b[j]] else []);
      start <= Collapse(isSpace, b, i, m, before, sentence).0
  {
    var ends := EndsSentence(before, b[i]);
    assert ends <==> b[i] in ".!?" || (b[i] == '"' && before in ".!?");
    assert CanBreakAfter(b[i + 1]) || b[i + 1] == '\n';
    hide EndsSentence;
    hide Collapse;
    hide NonBlank;
    hide CanBreakAfter;
    CollapseStep(isSpace, b, i, m, before, sentence);
    BlanksBecome(isSpace, b, i + 1, m, b[i], ends);
  }

  lemma BlanksBecome(isSpace: char -> bool, b: seq<char>, k: nat, m: int, before: char, ends: bool)
    requires k < m <= |b| && isSpace(b[k]) && (CanBreakAfter(b[k]) || b[k] == '\n') && b[k..] != "\n."
    ensures var j := NonBlank(isSpace, b, k + 1, m);
      var start := b[..k] + [' '] + (if ends && j > k + 1 then [b[k + 1]] else []) + (if j < m then [b[j]] else []);
      start <= Collapse(isSpace, b, k, m, before, ends).0
  {
    hide CollapseAt;
    hide Collapse;
    hide NonBlank;
    hide CanBreakAfter;
    hide EndsSentence;
    var j := NonBlank(isSpace, b, k + 1, m);
    CollapseStep(isSpace, b, k, m, before, ends);
    BlankStep(isSpace, b, k, m, ends);
    var (b2, i2, m2) := CollapseAt(isSpace, b, k, m, ends);
    var i', ends' := Min(i2 + 1, |b2|), EndsSentence(before, b[k]);
    PrefixStays(isSpace, b2, i', m2, b[k], ends');
    RunStart(b, b2, Collapse(isSpace, b2, i', m2, b[k], ends').0, k, i2, i', j, m);
    SecondKept(b, k, i2, ends && j > k + 1);
  }

  lemma SecondKept(b: seq<char>, k: nat, i2: nat, kept: bool)
    requires k + 1 <= i2 <= |b| && i2 == if kept then k + 2 else k + 1
    ensures b[k + 1..i2] == if kept then [b[k + 1]] else []
  {
  }

  lemma RunStart(b: seq<char>, b2: seq<char>, r: seq<char>, k: nat, i2: nat, i': nat, j: nat, m: int)
    requires k + 1 <= i2 <= j <= m <= |b| && b2 == b[..k] + [' '] + b[k + 1..i2] + b[j..]
    requires i' == Min(i2 + 1, |b2|) && i' <= |r| && r[..i'] == b2[..i']
    ensures b[..k] + [' '] + b[k + 1..i2] + (if j < m then [b[j]] else []) <= r
  {
    var start := b[..k] + [' '] + b[k + 1..i2] + (if j < m then [b[j]] else []);
    assert start <= b2 && |start| <= i';
    assert b2[..i'][..|start|] == start;
    assert r[..i'][..|start|] == r[..|start|];
  }

  /** A trailing dot is kept on its own line, unless whitespace comes before that line. */
  lemma TrailingDot(isSpace: char -> bool)
    requires isSpace(' ') && isSpace('\n') && !isSpace('a')
    ensures Collapse(isSpace, "a\n.", 0, 2, '\0', false).0 == "a\n."
    ensures Collapse(isSpace, "a \n.", 0, 3, '\0', false).0 == "a ."
  {
    var b, c := "a\n.", "a \n.";
    assert !CanBreakAfter('a') && CanBreakAfter(' ') && b[1..] == "\n." && c[1..] == " \n.";
    assert !EndsSentence('\0', 'a') && c[..1] + [' '] + c[2..2] + c[3..] == "a .";
    DotAfterBlank(isSpace);
    hide *;
    CollapseStep(isSpace, b, 0, 2, '\0', false);
    CollapseStep(isSpace, b, 1, 2, 'a', false);
    CollapseStep(isSpace, c, 0, 3, '\0', false);
    CollapseStep(isSpace, c, 1, 3, 'a', false);
    CollapseStep(isSpace, "a .", 3, 2, ' ', EndsSentence('a', ' '));
    MinIs();
  }

  lemma DotAfterBlank(isSpace: char -> bool)
    requires isSpace(' ') && isSpace('\n')
    ensures CollapseAt(isSpace, "a \n.", 1, 3, false) == ("a .", 2, 2)
  {
    var c := "a \n.";
    BlankStep(isSpace, c, 1, 3, false);
    assert NonBlank(isSpace, c, 2, 3) == NonBlank(isSpace, c, 3, 3) == 3;
    assert c[..1] + [' '] + c[2..2] + c[3..] == "a .";
  }

  // ------------------------------------------------------------- the normal form

  /** The text from s up to x ends a sentence. */
  predicate SentenceBefore(b: seq<char>, s: nat, x: nat)
    requires x <= |b|
  {
    s < x && (b[x - 1] in ".!?" || (b[x - 1] == '"' && s < x - 1 && b[x - 2] in ".!?"))
  }

  /** From s up to e a blank or newline is followed by whitespace only after a sentence, and
      then by no more than one character of it. */
  predicate Normal(isSpace: char -> bool, b: seq<char>, s: nat, e: int)
    requires e <= |b|
  {
    forall k :: s <= k < e - 1 && (b[k] == ' ' || b[k] == '\n') && isSpace(b[k + 1]) ==>
      SentenceBefore(b, s, k) && (k + 2 < e ==> !isSpace(b[k + 2]))
  }

  /** Before position i the first pass has just gone over a character that is no blank. */
  predicate PastBlanks(isSpace: char -> bool, b: seq<char>, s: nat, i: nat)
    requires i <= |b|
  {
    (s < i ==> b[i - 1] != ' ' && b[i - 1] != '\n') &&
    (s < i - 1 && (b[i - 2] == ' ' || b[i - 2] == '\n') ==> !isSpace(b[i - 1]))
  }

  /** What the first pass remembers is so. */
  predicate Remembers(b: seq<char>, s: nat, i: nat, before: char, sentence: bool)
    requires i <= |b|
  {
    (before in ".!?" ==> s < i && b[i - 1] == before) && (sentence ==> SentenceBefore(b, s, i))
  }

  lemma PlainStepIsNormal(isSpace: char -> bool, b: seq<char>, s: nat, i: nat, m: int, before: char, sentence: bool)
    requires s <= i < m <= |b| && Normal(isSpace, b, s, i) && PastBlanks(isSpace, b, s, i)
    requires Remembers(b, s, i, before, sentence) && b[i] != ' ' && b[i] != '\n'
    ensures Normal(isSpace, b, s, i + 1) && PastBlanks(isSpace, b, s, i + 1)
    ensures Remembers(b, s, i + 1, b[i], EndsSentence(before, b[i]))
  {
  }

  /** b2 is what a step makes of the whitespace at i, and goes on at i2. */
  predicate Stepped(isSpace: char -> bool, b: seq<char>, i: nat, sentence: bool, b2: seq<char>, i2: nat, m2: int)
  {
    i < i2 <= i + 2 && i2 <= m2 <= |b2| && i <= |b| && b2[..i] == b[..i] && b2[i] == ' ' &&
    (i2 == i + 2 ==> sentence) && (i2 < m2 ==> !isSpace(b2[i2]))
  }

  lemma BlankSteps(isSpace: char -> bool, b: seq<char>, i: nat, m: int, sentence: bool)
    requires i < m <= |b| && isSpace(b[i])
    ensures var (b2, i2, m2) := CollapseAt(isSpace, b, i, m, sentence);
      Stepped(isSpace, b, i, sentence, b2, i2, m2) && |b2| - m2 == |b| - m
  {
    BlankStep(isSpace, b, i, m, sentence);
    var (b2, i2, m2) := CollapseAt(isSpace, b, i, m, sentence);
    var j := NonBlank(isSpace, b, i + 1, m);
    hide CollapseAt;
    hide NonBlank;
    assert i2 < m2 ==> b2[i2] == b[j];
  }

  lemma SameSentence(b: seq<char>, b2: seq<char>, s: nat, i: nat, x: nat)
    requires x <= i <= |b| && i <= |b2| && b2[..i] == b[..i]
    ensures SentenceBefore(b2, s, x) == SentenceBefore(b, s, x)
  {
    assert forall k :: 0 <= k < i ==> b2[k] == b2[..i][k] && b[k] == b[..i][k];
  }

  lemma BlankStepIsNormal(isSpace: char -> bool, b: seq<char>, s: nat, i: nat, sentence: bool, b2: seq<char>, i2: nat,
                          m2: int)
    requires s <= i < |b| && Normal(isSpace, b, s, i) && PastBlanks(isSpace, b, s, i)
    requires sentence ==> SentenceBefore(b, s, i)
    requires Stepped(isSpace, b, i, sentence, b2, i2, m2)
    ensures Normal(isSpace, b2, s, Min(i2 + 1, m2))
  {
    hide SentenceBefore;
    assert forall k :: 0 <= k < i ==> b2[k] == b2[..i][k] && b[k] == b[..i][k];
    forall k | s <= k < Min(i2 + 1, m2) - 1 && (b2[k] == ' ' || b2[k] == '\n') && isSpace(b2[k + 1])
      ensures SentenceBefore(b2, s, k) && (k + 2 < Min(i2 + 1, m2) ==> !isSpace(b2[k + 2]))
    {
      assert k + 1 != i;
      assert k <= i;
      SameSentence(b, b2, s, i, k);
    }
  }

  lemma BlankStepRemembers(isSpace: char -> bool, b: seq<char>, s: nat, i: nat, before: char)
    requires s <= i < |b| && Collapses(isSpace, b[i])
    ensures b[i] !in ".!?" && !EndsSentence(before, b[i])
  {
  }

  lemma RememberedSentence(b: seq<char>, s: nat, i: nat, before: char, sentence: bool)
    requires i <= |b| && Remembers(b, s, i, before, sentence)
    ensures sentence ==> SentenceBefore(b, s, i)
  {
  }

  lemma NothingRemembered(isSpace: char -> bool, b2: seq<char>, s: nat, i2: nat, m2: int, c: char)
    requires isSpace(' ') && isSpace('\n') && s < i2 <= m2 <= |b2| && c !in ".!?" && (i2 < m2 ==> !isSpace(b2[i2]))
    ensures var i' := Min(i2 + 1, |b2|); Remembers(b2, s, i', c, false) && (i' < m2 ==> PastBlanks(isSpace, b2, s, i'))
  {
  }

  /** The first pass ends in the normal form. */
  lemma {:induction false} CollapseIsNormal(isSpace: char -> bool, b: seq<char>, s: nat, i: nat, m: int, before: char,
                                            sentence: bool)
    requires isSpace(' ') && isSpace('\n') && s <= i <= |b| && m <= |b|
    requires Normal(isSpace, b, s, Min(i, m)) && (i < m ==> PastBlanks(isSpace, b, s, i))
    requires Remembers(b, s, i, before, sentence)
    ensures var r := Collapse(isSpace, b, i, m, before, sentence); Normal(isSpace, r.0, s, r.2)
    ensures var r := Collapse(isSpace, b, i, m, before, sentence);
      |r.0| - r.2 != |b| - m ==> 0 <= r.2 && PastBlanks(isSpace, r.0, s, r.2)
    decreases m - i
  {
    hide CollapseAt;
    hide Collapse;
    hide CanBreakAfter;
    hide Normal;
    hide PastBlanks;
    hide Remembers;
    hide EndsSentence;
    CollapseStep(isSpace, b, i, m, before, sentence);
    if i >= m || b[i..] == "\n." {
    } else if Collapses(isSpace, b[i]) {
      BlankSteps(isSpace, b, i, m, sentence);
      var (b2, i2, m2) := CollapseAt(isSpace, b, i, m, sentence);
      RememberedSentence(b, s, i, before, sentence);
      BlankStepIsNormal(isSpace, b, s, i, sentence, b2, i2, m2);
      BlankStepRemembers(isSpace, b, s, i, before);
      NothingRemembered(isSpace, b2, s, i2, m2, b[i]);
      CollapseIsNormal(isSpace, b2, s, Min(i2 + 1, |b2|), m2, b[i], EndsSentence(before, b[i]));
    } else {
      if CanBreakAfter(b[i]) || b[i] == '\n' { NothingCollapsesAtLetters(isSpace, b, i, m, sentence); }
      BlankCanBreak();
      PlainStepIsNormal(isSpace, b, s, i, m, before, sentence);
      CollapseIsNormal(isSpace, b, s, i + 1, m, b[i], EndsSentence(before, b[i]));
    }
  }

  lemma BlankCanBreak()
    ensures CanBreakAfter(' ')
  {
  }

  /** So does filling, from where the text of the paragraph starts. */
  lemma FirstPassIsNormal(isSpace: char -> bool, b: seq<char>, i: nat, m: int)
    requires isSpace(' ') && isSpace('\n') && i <= |b| && m <= |b|
    ensures var r := Collapse(isSpace, b, i, m, '\0', false);
      Normal(isSpace, r.0, i, r.2) &&
      (|r.0| - r.2 != |b| - m ==> 0 <= r.2 && PastBlanks(isSpace, r.0, i, r.2))
  {
    CollapseIsNormal(isSpace, b, i, i, m, '\0', false);
  }

  /** A run of tabs is left as it is. */
  lemma TabsStay(isSpace: char -> bool)
    ensures Collapse(isSpace, "a\t\tb", 0, 4, '\0', false).0 == "a\t\tb"
  {
    var b := "a\t\tb";
    assert !CanBreakAfter('a') && !CanBreakAfter('\t') && !CanBreakAfter('b');
    CollapseStep(isSpace, b, 0, 4, '\0', false);
    CollapseStep(isSpace, b, 1, 4, 'a', false);
    CollapseStep(isSpace, b, 2, 4, '\t', false);
    CollapseStep(isSpace, b, 3, 4, '\t', false);
  }

  /** After a sentence the second whitespace character is left as it is, here a newline. */
  lemma SecondBlankStays(isSpace: char -> bool)
    requires isSpace(' ') && isSpace('\n') && !isSpace('b')
    ensures Collapse(isSpace, ". \nb", 0, 4, '\0', false).0 == ". \nb"
  {
    var b := ". \nb";
    assert !CanBreakAfter('.') && b[1 := ' '] == b;
    CollapseStep(isSpace, b, 0, 4, '\0', false);
    CollapseStep(isSpace, b, 1, 4, '.', true);
    assert CollapseAt(isSpace, b, 1, 4, true) == (b, 3, 4);
  }

  // ------------------------------------------------------- where the second pass starts

  /** The whitespace from i up to m leaves a newline before a newline. */
  predicate StopsAtNewline(b: seq<char>, i: nat, m: int, sentence: bool)
    requires i < m <= |b|
  {
    sentence && m > i + 1 && b[i + 1] == '\n' && m < |b| && b[m] == '\n'
  }

  /** Of the text s, n characters of which are to be filled: after a sentence its last
      whitespace starts with a blank and a newline, and it is followed by a newline. */
  predicate KeepsNewline(isSpace: char -> bool, s: seq<char>, n: int, before: char, sentence: bool)
    requires n <= |s|
    decreases n
  {
    if n <= 0 || s == "\n." then false
    else if Collapses(isSpace, s[0]) then
      var j := NonBlank(isSpace, s, 1, n);
      if j == n then StopsAtNewline(s, 0, n, sentence)
      else KeepsNewline(isSpace, s[j + 1..], n - j - 1, s[0], false)
    else KeepsNewline(isSpace, s[1..], n - 1, s[0], EndsSentence(before, s[0]))
  }

  lemma {:induction false} NonBlankFrom(isSpace: char -> bool, b: seq<char>, o: nat, i: nat, m: int)
    requires o <= i <= m <= |b|
    ensures NonBlank(isSpace, b[o..], i - o, m - o) == NonBlank(isSpace, b, i, m) - o
    decreases m - i
  {
    if i >= m || !isSpace(b[i]) {
    } else {
      NonBlankFrom(isSpace, b, o, i + 1, m);
    }
  }

  /** No empty line strictly between p and i. */
  predicate NoEmptyLine(b: seq<char>, p: nat, i: int)
  {
    forall x :: p < x < i ==> !EmptyLine(b, x)
  }

  /** The result of the first pass from i up to m: no empty line is left up to where it
      ended, except at the mark if the text keeps a newline; what comes later is untouched;
      and the mark has moved along, or is at a trailing dot. */
  predicate Passed(b: seq<char>, p: nat, i: nat, m: int, r: (seq<char>, nat, int), keeps: bool)
    requires i <= |b| && m <= |b|
  {
    i <= r.1 <= |r.0| && r.2 <= |r.0| && r.0[..i] == b[..i] &&
    |r.0| - r.1 <= |b| - i && r.0[r.1..] == b[|b| - (|r.0| - r.1)..] &&
    (r.2 == |r.0| - (|b| - m) || (r.2 == r.1 && r.0[r.1..] == "\n." && i < m && |b| - m <= 1)) &&
    (if i <= m then i <= r.2 else r.2 == m) &&
    0 <= r.2 && |r.0| - r.2 <= |b| && r.0[r.2..] == b[|b| - (|r.0| - r.2)..] &&
    if keeps then r.1 == r.2 + 1 && p < r.2 && NoEmptyLine(r.0, p, r.2) && EmptyLine(r.0, r.2)
    else NoEmptyLine(r.0, p, r.1)
  }

  lemma BlankPasses(isSpace: char -> bool, b: seq<char>, p: nat, i: nat, m: int, sentence: bool)
    requires i < m <= |b| && Collapses(isSpace, b[i]) && isSpace('\n') && NoEmptyLine(b, p, i)
    ensures var (b2, i2, m2) := CollapseAt(isSpace, b, i, m, sentence);
      var j := NonBlank(isSpace, b, i + 1, m);
      i < i2 <= m2 <= |b2| && b2[..i] == b[..i] && m2 == |b2| - (|b| - m) && NoEmptyLine(b2, p, i2) &&
      if j < m then i2 < m2 && NoEmptyLine(b2, p, i2 + 1) && b2[i2 + 1..] == b[j + 1..]
      else i2 == m2 && b2[i2..] == b[m..] && (EmptyLine(b2, i2) <==> StopsAtNewline(b, i, m, sentence))
  {
    BlankStep(isSpace, b, i, m, sentence);
    var (b2, i2, m2) := CollapseAt(isSpace, b, i, m, sentence);
    var j := NonBlank(isSpace, b, i + 1, m);
    hide CollapseAt;
    hide NonBlank;
    hide CanBreakAfter;
    assert forall k :: 0 <= k < i ==> b2[k] == b[k];
    assert b2[i] == ' ' && (i2 == i + 2 ==> b2[i + 1] == b[i + 1]);
    assert b2[i2..] == b[j..];
    assert i2 < |b2| ==> b2[i2] == b2[i2..][0] == b[j..][0] == b[j];
    assert j < m ==> b2[i2 + 1..] == b2[i2..][1..] == b[j..][1..];
    forall x | p < x < i2 ensures !EmptyLine(b2, x) {
      if x < i { assert EmptyLine(b2, x) == EmptyLine(b, x); }
    }
  }

  lemma StopsFrom(b: seq<char>, i: nat, m: int, sentence: bool)
    requires i < m <= |b|
    ensures StopsAtNewline(b[i..], 0, m - i, sentence) == StopsAtNewline(b, i, m, sentence)
  {
  }

  lemma KeepsUnfold(isSpace: char -> bool, s: seq<char>, n: int, before: char, sentence: bool)
    requires 0 < n <= |s| && s != "\n."
    ensures KeepsNewline(isSpace, s, n, before, sentence) ==
      if Collapses(isSpace, s[0]) then
        var j := NonBlank(isSpace, s, 1, n);
        if j == n then StopsAtNewline(s, 0, n, sentence) else KeepsNewline(isSpace, s[j + 1..], n - j - 1, s[0], false)
      else KeepsNewline(isSpace, s[1..], n - 1, s[0], EndsSentence(before, s[0]))
  {
  }

  lemma KeepsFurther(isSpace: char -> bool, b: seq<char>, i: nat, m: int, before: char, sentence: bool)
    requires i < m <= |b| && b[i..] != "\n."
    ensures KeepsNewline(isSpace, b[i..], m - i, before, sentence) ==
      if Collapses(isSpace, b[i]) then
        var j := NonBlank(isSpace, b, i + 1, m);
        if j == m then StopsAtNewline(b, i, m, sentence)
        else KeepsNewline(isSpace, b[j + 1..], m - j - 1, b[i], false)
      else KeepsNewline(isSpace, b[i + 1..], m - i - 1, b[i], EndsSentence(before, b[i]))
  {
    hide KeepsNewline;
    hide Collapses;
    hide EndsSentence;
    KeepsUnfold(isSpace, b[i..], m - i, before, sentence);
    var j := NonBlank(isSpace, b, i + 1, m);
    NonBlankFrom(isSpace, b, i, i + 1, m);
    hide NonBlank;
    StopsFrom(b, i, m, sentence);
    hide StopsAtNewline;
    assert b[i..][1..] == b[i + 1..];
    assert j < m ==> b[i..][j - i + 1..] == b[j + 1..];
  }

  lemma BlankPassed(b: seq<char>, b2: seq<char>, p: nat, i: nat, i2: nat, m: int, m2: int, r: (seq<char>, nat, int),
                    keeps: bool, o: nat)
    requires i < i2 < m2 <= |b2| && i <= o < m <= |b| && b2[..i] == b[..i] && m2 == |b2| - (|b| - m)
    requires b2[i2 + 1..] == b[o + 1..] && Passed(b2, p, i2 + 1, m2, r, keeps)
    ensures Passed(b, p, i, m, r, keeps)
  {
    hide NoEmptyLine;
    assert r.0[..i] == r.0[..i2 + 1][..i] == b2[..i];
    var n := |r.0| - r.1;
    SameEnd(b, b2, i2 + 1, o + 1, n);
    SameEnd(b, b2, i2 + 1, o + 1, |r.0| - r.2);
  }

  lemma SameEnd(b: seq<char>, b2: seq<char>, i2: nat, o: nat, n: nat)
    requires i2 <= |b2| && o <= |b| && b2[i2..] == b[o..] && n <= |b2| - i2
    ensures n <= |b| - o && b2[|b2| - n..] == b[|b| - n..]
  {
    assert b2[|b2| - n..] == b2[i2..][|b2| - n - i2..] == b[o..][|b| - n - o..] == b[|b| - n..];
  }

  /** How the first pass ends. */
  lemma {:induction false} PassEnds(isSpace: char -> bool, b: seq<char>, p: nat, i: nat, m: int, before: char,
                                    sentence: bool)
    requires isSpace('\n') && p <= i <= |b| && 0 <= m <= |b| && NoEmptyLine(b, p, i)
    ensures Passed(b, p, i, m, Collapse(isSpace, b, i, m, before, sentence),
                   KeepsNewline(isSpace, b[i..], m - i, before, sentence))
    decreases m - i, 1
  {
    hide Collapse;
    hide CanBreakAfter;
    hide EndsSentence;
    hide KeepsNewline;
    CollapseStep(isSpace, b, i, m, before, sentence);
    if i >= m || b[i..] == "\n." {
      KeepsNothing(isSpace, b[i..], m - i, before, sentence);
    } else if Collapses(isSpace, b[i]) {
      BlankPassEnds(isSpace, b, p, i, m, before, sentence);
    } else {
      KeepsFurther(isSpace, b, i, m, before, sentence);
      if CanBreakAfter(b[i]) || b[i] == '\n' { NothingCollapsesAtLetters(isSpace, b, i, m, sentence); }
      hide CollapseAt;
      PassEnds(isSpace, b, p, i + 1, m, b[i], EndsSentence(before, b[i]));
      PlainPassed(b, p, i, m, Collapse(isSpace, b, i + 1, m, b[i], EndsSentence(before, b[i])),
                  KeepsNewline(isSpace, b[i + 1..], m - i - 1, b[i], EndsSentence(before, b[i])));
    }
  }

  lemma {:induction false} BlankPassEnds(isSpace: char -> bool, b: seq<char>, p: nat, i: nat, m: int, before: char,
                                         sentence: bool)
    requires isSpace('\n') && p <= i < m <= |b| && NoEmptyLine(b, p, i) && Collapses(isSpace, b[i]) && b[i..] != "\n."
    ensures Passed(b, p, i, m, Collapse(isSpace, b, i, m, before, sentence),
                   KeepsNewline(isSpace, b[i..], m - i, before, sentence))
    decreases m - i, 0
  {
    hide *;
    KeepsFurther(isSpace, b, i, m, before, sentence);
    BlankPasses(isSpace, b, p, i, m, sentence);
    BlankCollapses(isSpace, b, i, m, before, sentence);
    var (b2, i2, m2) := CollapseAt(isSpace, b, i, m, sentence);
    var j := NonBlank(isSpace, b, i + 1, m);
    if j < m {
      PassEnds(isSpace, b2, p, i2 + 1, m2, b[i], false);
      BlankPassed(b, b2, p, i, i2, m, m2, Collapse(isSpace, b2, i2 + 1, m2, b[i], false),
                  KeepsNewline(isSpace, b[j + 1..], m - j - 1, b[i], false), j);
    } else {
      AllPassed(b, b2, p, i, i2, m, sentence);
    }
  }

  lemma BlankCollapses(isSpace: char -> bool, b: seq<char>, i: nat, m: int, before: char, sentence: bool)
    requires i < m <= |b| && Collapses(isSpace, b[i]) && b[i..] != "\n."
    ensures var (b2, i2, m2) := CollapseAt(isSpace, b, i, m, sentence);
      Collapse(isSpace, b, i, m, before, sentence) ==
      if i2 < m2 then Collapse(isSpace, b2, i2 + 1, m2, b[i], false) else (b2, Min(i2 + 1, |b2|), m2)
    ensures NonBlank(isSpace, b, i + 1, m) <= m
  {
    CollapseStep(isSpace, b, i, m, before, sentence);
    BlankStepRemembers(isSpace, b, i, i, before);
    hide Collapses;
    hide CollapseAt;
    var (b2, i2, m2) := CollapseAt(isSpace, b, i, m, sentence);
    assert i2 >= m2 ==> i2 == m2;
    if i2 >= m2 { NothingMore(isSpace, b2, i2, m2, b[i]); }
  }

  lemma NothingMore(isSpace: char -> bool, b2: seq<char>, i2: nat, m2: int, c: char)
    requires i2 == m2 <= |b2|
    ensures Collapse(isSpace, b2, Min(i2 + 1, |b2|), m2, c, false) == (b2, Min(i2 + 1, |b2|), m2)
  {
  }

  lemma KeepsNothing(isSpace: char -> bool, s: seq<char>, n: int, before: char, sentence: bool)
    requires n <= |s| && (n <= 0 || s == "\n.")
    ensures !KeepsNewline(isSpace, s, n, before, sentence)
  {
  }

  lemma PlainPassed(b: seq<char>, p: nat, i: nat, m: int, r: (seq<char>, nat, int), keeps: bool)
    requires i < m <= |b| && Passed(b, p, i + 1, m, r, keeps)
    ensures Passed(b, p, i, m, r, keeps)
  {
    hide NoEmptyLine;
    assert r.0[..i] == r.0[..i + 1][..i] == b[..i + 1][..i];
  }

  /** All that was left was whitespace. */
  lemma AllPassed(b: seq<char>, b2: seq<char>, p: nat, i: nat, i2: nat, m: int, sentence: bool)
    requires p <= i < i2 <= |b2| && i < m <= |b| && b2[..i] == b[..i] && i2 == |b2| - (|b| - m)
    requires NoEmptyLine(b2, p, i2)
    requires b2[i2..] == b[m..] && (EmptyLine(b2, i2) <==> StopsAtNewline(b, i, m, sentence))
    ensures Passed(b, p, i, m, (b2, Min(i2 + 1, |b2|), i2), StopsAtNewline(b, i, m, sentence))
  {
    var i' := Min(i2 + 1, |b2|);
    assert b2[i'..] == b2[i2..][i' - i2..] == b[m..][i' - i2..] == b[|b| - (|b2| - i')..];
  }

  lemma ParagraphStartIs(b: seq<char>, lock: nat, i: nat, p: nat)
    requires lock <= p <= i && (p == lock || EmptyLine(b, p)) && NoEmptyLine(b, p, i + 1)
    ensures ParagraphStart(b, lock, i) == p
  {
    var s := ParagraphStart(b, lock, i);
    assert p < s ==> !EmptyLine(b, s);
  }

  /** The second pass starts where the paragraph does, or at the mark. */
  lemma StartsAgain(b: seq<char>, lock: nat, p: nat, q: nat, r: (seq<char>, nat, int), keeps: bool)
    requires lock <= p <= q <= |b| && (p == lock || EmptyLine(b, p)) && Passed(b, p, TextStart(b, p), q, r, keeps)
    ensures ParagraphStart(r.0, lock, Max(r.1 - 1, lock)) == if keeps then r.2 else p
  {
    hide EmptyLine;
    if keeps {
      ParagraphStartIs(r.0, lock, r.2, r.2);
    } else {
      if p > lock { SameEmptyLine(b, r.0, p); }
      ParagraphStartIs(r.0, lock, Max(r.1 - 1, lock), p);
    }
  }

  lemma SameEmptyLine(b: seq<char>, b2: seq<char>, p: nat)
    requires EmptyLine(b, p) && TextStart(b, p) <= |b2| && b2[..TextStart(b, p)] == b[..TextStart(b, p)]
    ensures TextStart(b, p) == p + 1 && EmptyLine(b2, p)
  {
    assert b2[p] == b2[..p + 1][p] && b2[p - 1] == b2[..p + 1][p - 1];
  }

  /** The paragraph from p to q ends in a newline that the first pass keeps. */
  predicate ParagraphKeepsNewline(isSpace: char -> bool, b: seq<char>, p: nat, q: nat)
    requires p <= q <= |b|
  {
    KeepsNewline(isSpace, b[TextStart(b, p)..], q - TextStart(b, p), '\0', false)
  }

  /** The text has a newline after position q, or nothing. If not, q is its last character,
      which filling does not look at. */
  predicate NewlineFollows(b: seq<char>, q: nat)
    requires q <= |b|
  {
    q == |b| || b[q] == '\n'
  }

  /** In the filled paragraph no line is too long that could be broken, if a newline follows;
      but if the first pass keeps a newline at the end, the second has nowhere to start and
      breaks no line. In a paragraph that ends with the text, without a newline, all of it
      fits exactly if its last character happens to: nothing looks at that one. */
  lemma FilledLinesFit(isSpace: char -> bool, widths: char -> nat, fillcol: int, b: seq<char>, lock: nat, i: nat)
    requires isSpace('\n') && lock <= i <= |b|
    ensures var (p, q) := Paragraph(b, lock, i);
      var r := Filled(isSpace, widths, fillcol, b, lock, i);
      if ParagraphKeepsNewline(isSpace, b, p, q) then r == Collapse(isSpace, b, TextStart(b, p), q, '\0', false).0
      else if NewlineFollows(b, q) then LinesFit(widths, fillcol, r, lock, p, |r| - (|b| - q))
      else
        q == |b| - 1 && p < |r| && TextFits(widths, fillcol, r, lock, p, |r| - 1) &&
        (TextFits(widths, fillcol, r, lock, p, |r|) <==> NotTooLong(widths, fillcol, r, lock, |r| - 1))
  {
    hide *;
    var (p, q) := Paragraph(b, lock, i);
    ParagraphFacts(b, lock, i);
    FirstPassEnds(isSpace, b, p, q);
    FilledIs(isSpace, widths, fillcol, b, lock, i);
    SecondPassFits(widths, fillcol, b, lock, p, q, Collapse(isSpace, b, TextStart(b, p), q, '\0', false),
                   ParagraphKeepsNewline(isSpace, b, p, q));
    if !ParagraphKeepsNewline(isSpace, b, p, q) {
      WholeParagraph(widths, fillcol, b, lock, p, q, Filled(isSpace, widths, fillcol, b, lock, i));
    }
  }

  /** The text ends in a line with a dot, and q is the dot. */
  predicate AtTrailingDot(b: seq<char>, q: nat)
  {
    |b| >= 2 && q == |b| - 1 && b[|b| - 2..] == "\n."
  }

  /** The second pass, after a first one that ended like this. */
  lemma SecondPassFits(widths: char -> nat, fillcol: int, b: seq<char>, lock: nat, p: nat, q: nat,
                       r: (seq<char>, nat, int), keeps: bool)
    requires lock <= p <= q <= |b| && (p == lock || EmptyLine(b, p)) && TextStart(b, p) <= |b|
    requires p == q || q < |b|
    requires Passed(b, p, TextStart(b, p), q, r, keeps) && r.1 <= |r.0| && r.2 <= |r.0|
    ensures var w := Wrap(widths, fillcol, r.0, lock, ParagraphStart(r.0, lock, Max(r.1 - 1, lock)), r.2);
      if keeps then w == r.0
      else Fills(widths, fillcol, b, lock, p, q, w, |b| - q) ||
           (AtTrailingDot(b, q) && Fills(widths, fillcol, b, lock, p, q, w, 2))
  {
    hide *;
    StartsAgain(b, lock, p, q, r, keeps);
    TextStartIs(b, p);
    PassedEnd(b, p, TextStart(b, p), q, r, keeps);
    if keeps {
      WrapStep(widths, fillcol, r.0, lock, r.2, r.2);
    } else {
      WrapFits(widths, fillcol, r.0, lock, p, r.2);
      WrapKeepsRest(widths, fillcol, r.0, lock, p, r.2);
      FillsFrom(widths, fillcol, b, lock, p, q, Wrap(widths, fillcol, r.0, lock, p, r.2), r);
    }
  }

  /** The text w fits up to its last n characters, which are those of b. */
  predicate Fills(widths: char -> nat, fillcol: int, b: seq<char>, lock: nat, p: nat, q: nat, w: seq<char>, n: nat)
    requires lock <= p
  {
    n <= |b| && p + n <= |w| && w[|w| - n..] == b[|b| - n..] && LinesFit(widths, fillcol, w, lock, p, |w| - n)
  }

  lemma FillsFrom(widths: char -> nat, fillcol: int, b: seq<char>, lock: nat, p: nat, q: nat, w: seq<char>,
                  r: (seq<char>, nat, int))
    requires lock <= p <= q <= |b| && p <= r.2 <= |r.0| <= |w| && |r.0| - r.2 <= |b|
    requires w[|w| - (|r.0| - r.2)..] == r.0[r.2..] == b[|b| - (|r.0| - r.2)..]
    requires LinesFit(widths, fillcol, w, lock, p, |w| - (|r.0| - r.2))
    ensures Fills(widths, fillcol, b, lock, p, q, w, |r.0| - r.2)
  {
  }

  lemma {:induction false} WrapKeepsRest(widths: char -> nat, fillcol: int, b: seq<char>, lock: nat, i: nat, m: nat)
    requires lock <= i <= |b| && m <= |b|
    ensures var r := Wrap(widths, fillcol, b, lock, i, m); |b| <= |r| && r[|r| - (|b| - m)..] == b[m..]
    decreases m - i
  {
    hide Wrap;
    hide BreakLine;
    hide ColumnAt;
    WrapStep(widths, fillcol, b, lock, i, m);
    if i >= m {
    } else {
      var b2 := if ColumnAt(widths, b, lock, i) >= fillcol then BreakLine(b, lock, i) else b;
      BreakKeepsRest(b, lock, i, m);
      WrapKeepsRest(widths, fillcol, b2, lock, i + (|b2| - |b|) + 1, m + (|b2| - |b|));
    }
  }

  lemma BreakKeepsRest(b: seq<char>, lock: nat, i: nat, m: nat)
    requires lock <= i <= m <= |b|
    ensures var r := BreakLine(b, lock, i); r[m + (|r| - |b|)..] == b[m..]
  {
  }

  /** What that means for the characters of the paragraph. */
  lemma WholeParagraph(widths: char -> nat, fillcol: int, b: seq<char>, lock: nat, p: nat, q: nat, w: seq<char>)
    requires lock <= p <= q <= |b| && (NewlineFollows(b, q) || q == |b| - 1)
    requires Fills(widths, fillcol, b, lock, p, q, w, |b| - q) ||
             (AtTrailingDot(b, q) && Fills(widths, fillcol, b, lock, p, q, w, 2))
    ensures
      if NewlineFollows(b, q) then LinesFit(widths, fillcol, w, lock, p, |w| - (|b| - q))
      else
        q == |b| - 1 && p < |w| && TextFits(widths, fillcol, w, lock, p, |w| - 1) &&
        (TextFits(widths, fillcol, w, lock, p, |w|) <==> NotTooLong(widths, fillcol, w, lock, |w| - 1))
  {
    hide NotTooLong;
    if !NewlineFollows(b, q) {
      assert w[|w| - 1] == b[|b| - 1] by {
        if Fills(widths, fillcol, b, lock, p, q, w, |b| - q) {
          assert w[|w| - 1..][0] == b[|b| - 1..][0];
        } else {
          assert w[|w| - 2..][1] == b[|b| - 2..][1];
        }
      }
      if AtTrailingDot(b, q) && Fills(widths, fillcol, b, lock, p, q, w, 2) {
        assert w[|w| - 2] == w[|w| - 2..][0] == b[|b| - 2..][0] == '\n';
      }
    }
  }

  /** No character up to `stop`, but for newlines, is too far right. */
  predicate TextFits(widths: char -> nat, fillcol: int, r: seq<char>, lock: nat, p: nat, stop: int)
    requires lock <= p
  {
    forall x :: p <= x < stop && x < |r| && r[x] != '\n' ==> NotTooLong(widths, fillcol, r, lock, x)
  }

  predicate LinesFit(widths: char -> nat, fillcol: int, r: seq<char>, lock: nat, p: nat, stop: int)
    requires lock <= p
  {
    forall x :: p <= x < stop && x <= |r| ==> NotTooLong(widths, fillcol, r, lock, x)
  }

  lemma WrapFits(widths: char -> nat, fillcol: int, b: seq<char>, lock: nat, p: nat, m: int)
    requires lock <= p <= |b| && m <= |b|
    ensures var r := Wrap(widths, fillcol, b, lock, p, m); LinesFit(widths, fillcol, r, lock, p, |r| - (|b| - m))
  {
    hide NotTooLong;
    hide Wrap;
    WrapShortens(widths, fillcol, b, lock, p, m, p);
  }

  lemma ParagraphFacts(b: seq<char>, lock: nat, i: nat)
    requires lock <= i <= |b|
    ensures var (p, q) := Paragraph(b, lock, i); p == lock || EmptyLine(b, p)
    ensures var (p, q) := Paragraph(b, lock, i); p <= TextStart(b, p) <= |b|
    ensures var (p, q) := Paragraph(b, lock, i); (p == q || q < |b|) && (NewlineFollows(b, q) || q == |b| - 1)
  {
  }

  lemma FirstPassEnds(isSpace: char -> bool, b: seq<char>, p: nat, q: nat)
    requires isSpace('\n') && p <= q <= |b| && p <= TextStart(b, p) <= |b|
    ensures Passed(b, p, TextStart(b, p), q, Collapse(isSpace, b, TextStart(b, p), q, '\0', false),
                   ParagraphKeepsNewline(isSpace, b, p, q))
  {
    PassEnds(isSpace, b, p, TextStart(b, p), q, '\0', false);
  }

  lemma TextStartIs(b: seq<char>, p: nat)
    ensures p <= TextStart(b, p) <= p + 1
  {
  }

  lemma PassedEnd(b: seq<char>, p: nat, i: nat, m: int, r: (seq<char>, nat, int), keeps: bool)
    requires p <= i <= p + 1 && i <= |b| && p <= m <= |b| && (p == m || m < |b|) && Passed(b, p, i, m, r, keeps)
    ensures p <= r.2 <= |r.0| && (keeps ==> p < r.2)
    ensures |r.0| - r.2 <= |b| && r.0[r.2..] == b[|b| - (|r.0| - r.2)..]
    ensures |r.0| - r.2 == |b| - m || (|r.0| - r.2 == 2 && AtTrailingDot(b, m))
  {
  }

  lemma FilledIs(isSpace: char -> bool, widths: char -> nat, fillcol: int, b: seq<char>, lock: nat, i: nat)
    requires lock <= i <= |b|
    ensures var (p, q) := Paragraph(b, lock, i);
      p <= q && TextStart(b, p) <= |b| &&
      var r := Collapse(isSpace, b, TextStart(b, p), q, '\0', false);
      r.1 <= |r.0| && Filled(isSpace, widths, fillcol, b, lock, i) ==
        Wrap(widths, fillcol, r.0, lock, ParagraphStart(r.0, lock, Max(r.1 - 1, lock)), r.2)
  {
  }

  lemma ParagraphEndIs(b: seq<char>, i: nat, q: nat)
    requires i <= q < |b| && EmptyLine(b, q) && forall k :: i <= k < q ==> !EmptyLine(b, k)
    ensures ParagraphEnd(b, i) == q
  {
    var e := ParagraphEnd(b, i);
    assert q < e ==> !EmptyLine(b, q);
  }

  const LONG_LINE := "a b. \n \n\n"

  lemma LongParagraph()
    ensures Paragraph(LONG_LINE, 0, 0) == (0, 7) && TextStart(LONG_LINE, 0) == 0
  {
    var b := LONG_LINE;
    assert b[7] == '\n' && b[8] == '\n' && b[6] == ' ' && b[5] == '\n' && b[4] == ' ' && b[3] == '.';
    ParagraphEndIs(b, 1, 8);
    ParagraphStartIs(b, 0, 6, 0);
  }

  lemma LongLineKeeps(isSpace: char -> bool)
    requires isSpace(' ') && isSpace('\n') && !isSpace('a') && !isSpace('b') && !isSpace('.')
    ensures KeepsNewline(isSpace, LONG_LINE, 7, '\0', false)
  {
    var b := LONG_LINE;
    assert b[0..] == b && NonBlank(isSpace, b, 2, 7) == 2 && NonBlank(isSpace, b, 5, 7) == 7;
    assert Collapses(isSpace, ' ') && EndsSentence(' ', '.');
    assert !Collapses(isSpace, 'a') && !Collapses(isSpace, '.') && StopsAtNewline(b, 4, 7, true);
    hide *;
    KeepsFurther(isSpace, b, 0, 7, '\0', false);
    KeepsFurther(isSpace, b, 1, 7, 'a', EndsSentence('\0', 'a'));
    KeepsFurther(isSpace, b, 3, 7, ' ', false);
    KeepsFurther(isSpace, b, 4, 7, '.', true);
  }

  /** The first pass up to the blank after the sentence. */
  lemma LongLinePasses(isSpace: char -> bool, b: seq<char>)
    requires isSpace(' ') && !isSpace('b')
    requires |b| == 9 && b[0] == 'a' && b[1] == ' ' && b[2] == 'b' && b[3] == '.'
    ensures Collapse(isSpace, b, 0, 7, '\0', false) == Collapse(isSpace, b, 4, 7, '.', true)
  {
    assert !CanBreakAfter('a') && !CanBreakAfter('.') && CanBreakAfter(' ');
    assert !EndsSentence('\0', 'a') && !EndsSentence('a', ' ') && EndsSentence(' ', '.');
    SingleBlank(isSpace, b, 1, 7);
    MinIs();
    hide *;
    CollapseStep(isSpace, b, 0, 7, '\0', false);
    CollapseStep(isSpace, b, 1, 7, 'a', false);
    CollapseStep(isSpace, b, 3, 7, ' ', false);
  }

  lemma TooLongAtDot(widths: char -> nat, r: seq<char>)
    requires widths('a') == widths('b') == widths(' ') == 1 && 4 <= |r| && r[..4] == "a b."
    ensures !NotTooLong(widths, 2, r, 0, 3)
  {
    var line := "a b.";
    assert r[0] == r[..4][0] == line[0] && r[1] == r[..4][1] == line[1] && r[2] == r[..4][2] == line[2];
    LineStartUnique(r, 0, 3, 0);
    assert r[0..3] == [line[0], line[1], line[2]];
    var x := [line[0], line[1], line[2]];
    var y, z := x[..2], x[..1];
    assert y[..1] == z && z[..0] == [];
    assert RegionEnd(widths, z, 0) == 1 && RegionEnd(widths, y, 0) == 2 && RegionEnd(widths, x, 0) == 3;
    assert !CanBreakAfter('b') && LastBreak(r, 0, 3) == 1;
  }

  /** A paragraph whose last sentence is followed by a blank, a newline and a line of blanks:
      filled to two columns, "a b." stays on one line. */
  lemma LongLineStays(isSpace: char -> bool, widths: char -> nat)
    requires isSpace(' ') && isSpace('\n') && !isSpace('a') && !isSpace('b') && !isSpace('.')
    requires widths('a') == widths('b') == widths(' ') == 1
    ensures var r := Filled(isSpace, widths, 2, LONG_LINE, 0, 0);
      Paragraph(LONG_LINE, 0, 0) == (0, 7) && ParagraphKeepsNewline(isSpace, LONG_LINE, 0, 7) &&
      4 <= |r| && r[..4] == "a b." && !NotTooLong(widths, 2, r, 0, 3)
  {
    var b, line := LONG_LINE, "a b.";
    LongParagraph();
    LongLinePasses(isSpace, b);
    LongLineKeeps(isSpace);
    assert b[0..] == b && b[..4] == line;
    PassEnds(isSpace, b, 0, 4, 7, '.', true);
    FilledLinesFit(isSpace, widths, 2, b, 0, 0);
    hide Collapse;
    hide Filled;
    TooLongAtDot(widths, Filled(isSpace, widths, 2, b, 0, 0));
  }

  // ------------------------------------------------------------ the last character

  /** Before position m a blank has not been followed by what it may be, or has been followed
      by all it may be. */
  predicate AfterBlank(isSpace: char -> bool, b: seq<char>, s: nat, m: nat)
    requires m <= |b|
  {
    (s < m && (b[m - 1] == ' ' || b[m - 1] == '\n') && !SentenceBefore(b, s, m - 1)) ||
    (s + 1 < m && (b[m - 2] == ' ' || b[m - 2] == '\n') && isSpace(b[m - 1]))
  }

  lemma OneCharacterMore(isSpace: char -> bool, b: seq<char>, s: nat, m: nat)
    requires m < |b| && Normal(isSpace, b, s, m)
    ensures Normal(isSpace, b, s, m + 1) <==> !isSpace(b[m]) || !AfterBlank(isSpace, b, s, m)
  {
    hide SentenceBefore;
  }

  /** The first pass over a paragraph leaves all of its text in the normal form, if a newline
      follows. In a text without a newline at its end, all but the last character; that one
      fits the normal form exactly if it is not whitespace that should have been deleted. */
  lemma ParagraphIsNormal(isSpace: char -> bool, b: seq<char>, lock: nat, i: nat)
    requires isSpace(' ') && isSpace('\n') && lock <= i <= |b|
    ensures var (p, q) := Paragraph(b, lock, i);
      var s := TextStart(b, p);
      var r := Collapse(isSpace, b, s, q, '\0', false);
      0 <= r.2 && Normal(isSpace, r.0, s, r.2) &&
      (NewlineFollows(b, q) ==> |r.0| - r.2 == |b| - q && r.0[r.2..] == b[q..]) &&
      (!NewlineFollows(b, q) && r.0[r.2..] != "\n." ==>
        r.2 == |r.0| - 1 && r.0[r.2] == b[|b| - 1] &&
        (Normal(isSpace, r.0, s, |r.0|) <==> !isSpace(b[|b| - 1]) || !AfterBlank(isSpace, r.0, s, r.2))) &&
      (!NewlineFollows(b, q) && r.0[r.2..] == "\n." && !isSpace('.') ==> Normal(isSpace, r.0, s, |r.0|))
  {
    hide *;
    var (p, q) := Paragraph(b, lock, i);
    ParagraphFacts(b, lock, i);
    TextStartIs(b, p);
    var s := TextStart(b, p);
    var r := Collapse(isSpace, b, s, q, '\0', false);
    FirstPassIsNormal(isSpace, b, s, q);
    FirstPassEnds(isSpace, b, p, q);
    PassedEnd(b, p, s, q, r, ParagraphKeepsNewline(isSpace, b, p, q));
    EndOfText(b, q, r);
    if r.2 == |r.0| - 1 {
      assert r.0[r.2] == r.0[r.2..][0] == b[|b| - 1..][0];
      OneCharacterMore(isSpace, r.0, s, r.2);
    }
    if !NewlineFollows(b, q) && r.0[r.2..] == "\n." && !isSpace('.') { DotMore(isSpace, r.0, s, r.2); }
  }

  lemma DotMore(isSpace: char -> bool, b: seq<char>, s: nat, m: nat)
    requires m <= |b| && b[m..] == "\n." && !isSpace('.')
    requires Normal(isSpace, b, s, m) && PastBlanks(isSpace, b, s, m)
    ensures Normal(isSpace, b, s, |b|)
  {
    hide SentenceBefore;
    assert b[m] == b[m..][0] == '\n' && b[m + 1] == b[m..][1] == '.' && |b| == m + 2;
  }

  lemma EndOfText(b: seq<char>, q: nat, r: (seq<char>, nat, int))
    requires q <= |b| && 0 <= r.2 <= |r.0| && |r.0| - r.2 <= |b| && (NewlineFollows(b, q) || q == |b| - 1)
    requires r.0[r.2..] == b[|b| - (|r.0| - r.2)..]
    requires |r.0| - r.2 == |b| - q || (|r.0| - r.2 == 2 && AtTrailingDot(b, q))
    ensures NewlineFollows(b, q) ==> |r.0| - r.2 == |b| - q && r.0[r.2..] == b[q..]
    ensures !NewlineFollows(b, q) && r.0[r.2..] == "\n." ==> |r.0| - r.2 != |b| - q
    ensures !NewlineFollows(b, q) && r.0[r.2..] != "\n." ==> r.2 == |r.0| - 1
  {
    assert AtTrailingDot(b, q) ==> b[q] == b[|b| - 2..][1] == '.';
  }

  /** Of the blanks at the end of a text two stay, although no sentence ends there. */
  lemma TwoBlanksStay(isSpace: char -> bool)
    requires isSpace(' ') && !isSpace('a') && !isSpace('b')
    ensures Collapse(isSpace, "a b   ", 0, 5, '\0', false).0 == "a b  "
  {
    var b, r := "a b   ", "a b  ";
    assert !CanBreakAfter('a') && CanBreakAfter(' ') && !EndsSentence('\0', 'a') && !EndsSentence('a', ' ');
    assert !EndsSentence(' ', ' ') && b[3] == b[4] == b[5] == ' ' && b[..4] + b[5..] == r;
    hide *;
    SingleBlank(isSpace, b, 1, 5);
    BlanksToEnd(isSpace, b, 3, 5);
    CollapseStep(isSpace, b, 0, 5, '\0', false);
    CollapseStep(isSpace, b, 1, 5, 'a', false);
    CollapseStep(isSpace, b, 3, 5, ' ', false);
    NothingMore(isSpace, r, 4, 4, ' ');
    MinIs();
  }

  lemma MinIs()
    ensures forall x: int, y: int :: Min(x, y) == if x < y then x else y
  {
  }

  /** A single blank stays. */
  lemma SingleBlank(isSpace: char -> bool, b: seq<char>, i: nat, m: int)
    requires i + 1 < m <= |b| && b[i] == ' ' && isSpace(' ') && !isSpace(b[i + 1])
    ensures CollapseAt(isSpace, b, i, m, false) == (b, i + 1, m)
  {
    BlankStep(isSpace, b, i, m, false);
    assert b[..i] + [' '] + b[i + 1..i + 1] + b[i + 1..] == b;
  }

  /** Of blanks up to the mark one stays. */
  lemma BlanksToEnd(isSpace: char -> bool, b: seq<char>, i: nat, m: int)
    requires i < m <= |b| && isSpace(' ') && forall k :: i <= k < m ==> b[k] == ' '
    ensures CollapseAt(isSpace, b, i, m, false) == (b[..i + 1] + b[m..], i + 1, i + 1)
  {
    BlankStep(isSpace, b, i, m, false);
    assert b[..i] + [' '] + b[i + 1..i + 1] == b[..i + 1];
  }

  /** Filled to three columns "a bc" stays on one line: its last character is not looked at. */
  lemma LastCharacterLeft(isSpace: char -> bool, widths: char -> nat)
    requires isSpace(' ') && !isSpace('a') && !isSpace('b') && !isSpace('c')
    requires widths('a') == widths('b') == widths(' ') == 1
    ensures Paragraph("a bc", 0, 0) == (0, 3) && !NewlineFollows("a bc", 3)
    ensures Filled(isSpace, widths, 3, "a bc", 0, 0) == "a bc" && !NotTooLong(widths, 3, "a bc", 0, 3)
  {
    var b := "a bc";
    assert b[0] == 'a' && b[1] == ' ' && b[2] == 'b' && b[3] == 'c';
    assert ParagraphEnd(b, 1) == 4 by { assert forall k :: 0 <= k < 4 ==> !EmptyLine(b, k); }
    ParagraphStartIs(b, 0, 2, 0);
    ShortTextPasses(isSpace);
    ShortTextColumns(widths);
    hide Collapse;
    hide Paragraph;
    WrapStep(widths, 3, b, 0, 0, 3);
    WrapStep(widths, 3, b, 0, 1, 3);
    WrapStep(widths, 3, b, 0, 2, 3);
    WrapStep(widths, 3, b, 0, 3, 3);
  }

  lemma ShortTextPasses(isSpace: char -> bool)
    requires isSpace(' ') && !isSpace('a') && !isSpace('b') && !isSpace('c')
    ensures Collapse(isSpace, "a bc", 0, 3, '\0', false) == ("a bc", 3, 3)
  {
    var b := "a bc";
    assert !CanBreakAfter('a') && CanBreakAfter(' ') && !EndsSentence('\0', 'a') && !EndsSentence('a', ' ');
    SingleBlank(isSpace, b, 1, 3);
    MinIs();
    hide *;
    CollapseStep(isSpace, b, 0, 3, '\0', false);
    CollapseStep(isSpace, b, 1, 3, 'a', false);
    CollapseStep(isSpace, b, 3, 3, ' ', false);
  }

  lemma ShortTextColumns(widths: char -> nat)
    requires widths('a') == widths('b') == widths(' ') == 1
    ensures var b := "a bc";
      ColumnAt(widths, b, 0, 0) == 0 && ColumnAt(widths, b, 0, 1) == 1 && ColumnAt(widths, b, 0, 2) == 2 &&
      !NotTooLong(widths, 3, b, 0, 3)
  {
    var b := "a bc";
    assert b[0] == 'a' && b[1] == ' ' && b[2] == 'b';
    forall k | 0 <= k <= 3 ensures LineStart(b, 0, k) == 0 { LineStartUnique(b, 0, k, 0); }
    var x, y, z := b[..3], b[..2], b[..1];
    assert b[0..3] == x && b[0..2] == y && b[0..1] == z && b[0..0] == [];
    assert x[..2] == y && y[..1] == z && z[..0] == [];
    assert RegionEnd(widths, z, 0) == 1 && RegionEnd(widths, y, 0) == 2 && RegionEnd(widths, x, 0) == 3;
    assert !CanBreakAfter('b') && LastBreak(b, 0, 3) == 1;
  }
}

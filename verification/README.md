# BarnOwl: a verified model of its stateful core

BarnOwl is a curses client for instant messaging. This project models the parts of it that
have real state or a real grammar, and proves what they promise. `dafny verify
dfyconfig.toml` checks everything.

| files | what they model |
|---|---|
| `Quoting`, `CommandLines`, `Colors`, `Strings`, `Lists` | tokenizing and quoting of command lines, skipping arguments, colour names (util.c) |
| `FilterSyntax`, `FilterRoundTrip` | filter parser and printer, and when a printed filter is read back (filter.c, filterelement.c) |
| `Dictionary` | the sorted, growing array behind every registry (dict.c) |
| `FilterGraph`, `FilterMeaning`, `FilterRegistry` | filter references, what a filter's words mean, the loop check, the registry over whole runs, matching |
| `Zwrites`, `ZwriteArguments` | zwrite command lines and the reply line (zwrite.c) |
| `Commands`, `CommandRuns`, `Answers` | the command interpreter with aliases, `multi` and `with-history`, what its commands run and in which order, and with `yes` and `no` for a limited number of steps (cmd.c, commands.c) |
| `MessagePane` | scrolling the message pane, nearest message (functions.c, view.c) |
| `FormattedText`, `FormattedLines`, `FormattedColumns` | formatted text: in-band styles, slicing, line and column windows, tabs (fmtext.c) |
| `WindowTree` | lazy realization and scheduled redraws of the window tree (window.c) |
| `EditText`, `EditWindow`, `ParagraphFill` | the edit window: edits, saved points, columns, words, paragraph fill (editwin.c) |

Functions are specifications or pure code of the source; methods follow the source's loops
and in-place updates and are proved equal to those functions, or against an independent
description. Names are the source's, without the `owl_` prefix.

## What is proved

* **Filters.** The parser accepts exactly an unambiguous grammar. What `owl_filter_new` accepts
  is printed, tokenized again and parsed again to the same filter if and only if its field names
  are plain words; among such filters, comparing printed forms compares filters. The loop check
  ends on any registry, even a cyclic one, and refuses a filter exactly when following
  references from it comes back to a name on the way. From an empty registry no sequence of
  checked definitions, replacements and removals makes a cycle; this is why matching ends and
  why the filters, read as equations between names, have exactly one solution, which is what
  matching computes.
* **Command lines.** Every line is spelled as a list of arguments or ends inside a quote, and
  the tokenizer finds exactly the arguments that are spelled. Quoting and tokenizing undo each
  other for every argument vector. Skipping never cuts through an argument, and skips exactly
  the arguments asked for where only blanks separate them. A `multi` runs the pieces of its text
  in order, all of them and nothing else. Every argument vector of `zwrite` is spelled as
  options, recipients and a message, and the zwrite created is exactly the one that is spelled;
  its reply line reads back as the same conversation, with the one exception stated exactly.
  Every line of the commands modelled ends that does not run `yes` or `no`, and at most 51 alias
  expansions nest; a question whose yes-command is `yes` is never answered, whatever the number
  of steps.
* **Windows.** One invariant is kept by every operation but two, and these do so exactly as
  stated: unlinking a realized screen, and taking a window's redraw handler away after a request
  of its own was lost. Whatever windows the redraw handlers dirty, a window still dirty after a
  scheduled redraw, under a realized parent, leaves the screen marked for the next. Once no mark
  is left the realized windows are exactly those that are shown and sized with all their
  ancestors, each repainted since anything but its own redraw handler last asked for that, and
  no window with a realized parent is dirty; if handlers dirty only their own window and those
  below, one scheduled redraw gets there.
* **Formatted text.** Slices render the same cells in the same styles, unless a character that
  is no style character, but looks like one to the scan, is in front. On a screen as wide as the
  column window every source line prints as one row, a beginning of the row that shows the line
  with each character at its own column. It is all of that row if and only if the line loses
  nothing, and in a window at least three columns wide all it can lose is a wide character on
  the last two columns.
* **Edit window.** Point, mark and saved points stay inside the unlocked text through every
  command except `owl_editwin_set_locktext`, for which the corner cases are stated exactly.
  Saved points are exactly where the edits since moved them, and keep their two neighbouring
  characters when no edit touches them. Over any run an excursion is forgotten exactly if the
  window is cleared while it is open. The cached column is always that of the point. Filling a
  paragraph changes only whitespace, only in that paragraph, and ends. Its first pass keeps the
  words apart and together as they were and leaves a blank or newline followed by whitespace
  only after a sentence; its second leaves no line of the paragraph too long that could be
  broken. Both hold for all of the paragraph's text, up to the newline that ends it, except that
  nothing looks at the last character of a text without a newline at its end, and that one way
  to end a paragraph, stated exactly, keeps the second pass from starting.
* **Scrolling.** In every mode the current message stays on screen.

## Where the code does something else than its words, or than one expects

* Recolouring a filter's foreground succeeds but reports failure (functions.c:2157-2170).
* A field name is printed bare. A filter whose field name is empty, or has a blank, tab, newline
  or quote in it, is never read back as itself (`PrintParseRoundTrip`), and two different
  filters can be printed alike (`EquivalentCanDiffer`).
* Ending an excursion aborts exactly if the window was cleared while it was open, and Perl can
  do that: `save_excursion` (perlglue.xs:535-564) runs a sub between saving and ending, and the
  sub may run `edit:delete-all` (commands.c:866), which sets the list of excursions to NULL
  (`ForgottenIffCleared`, `SaveExcursionAround`).
* `owl_editwin_backward_word` passes over a word that follows a single blank at the lock, unless
  the word has one letter before a blank (`PassesOver`; from the end of " ab" it does,
  `PassesOverSome`).
* The first pass of filling says it removes blanks after CJK characters (editwin.c:1171-1174).
  At such a character it changes nothing (`NothingCollapsesAtLetters`), and a blank stays
  (`BlankAfterCjkStays`); none ever disappears entirely (`WordsStay`).
* Nor does the first pass replace all whitespace: a run of tabs stays (`TabsStay`), and after a
  sentence the second whitespace character stays as it is, even a newline (`SecondBlankStays`).
* If a newline kept in this way comes right before the newline that ends the paragraph, with
  nothing but deleted whitespace between, the two make an empty line, the second pass takes it
  for the start of the paragraph, and no line is broken (`FilledLinesFit`, `LongLineStays`).
* The second pass breaks a line before a CJK character even where the line already starts with
  it, and so adds an empty line (`BreakAddsEmptyLine`). If the rest of the line cannot be broken
  it does so once for every later position that is too far right (`OneNewlineEach`,
  `CjkBeforeLongWord`).
* `owl_editwin_set_locktext` leaves the mark before the lock when the mark was at 0, a wrong
  column when the point was at 0 with its column known, and saved points behind when an
  excursion is open; `SetLocktext` says exactly when (`MarkLeftBehind`, `ColumnLeftBehind`).
* The scan for the style in force reads some plane-16 characters that are shown as text as style
  characters; `ScanReadsUnmistakable` says which.
* Filling skips the newline at the end of the paragraph without looking (editwin.c:1161-1163).
  If the text ends without one, its last character is left out: the blanks of "a b   " stay two
  (`TwoBlanksStay`, `ParagraphIsNormal`), and "a bc" filled to three columns stays on one line
  (`LastCharacterLeft`, `FilledLinesFit`).
* The first pass of filling stops at a trailing dot, but not if it meets whitespace before the
  newline in front of the dot: "a \n." becomes "a ." (`TrailingDot`).
* Where fewer lines than asked for follow, moving down ends at the end of the text, whatever the
  goal column (`LineMove`).
* `skiptokens` separates arguments at blanks only, the tokenizer at tabs and newlines too: of
  "a\tb" skipping one argument leaves nothing (`TabsAreNotSkipped`).
* For a colour name that is not known the code returns -2, its comment says -1 (util.c:335-353).
  A number too large for a long is -1, the default colour (`LargeNumbersWrap`).
* For an unusable colour option of a filter the message says that the default colour is used
  (filter.c:31); a usable one given before it stays (`LeadingColors`).
* A colour above 255 is ORed into the style character as it is and asks for another style; 256
  is the default colour (`StyleReached`, `Color256IsDefault`).
* A column window ends at bcol, but a wide character on bcol - 1 and bcol, for which there is
  room, is dropped (fmtext.c:393, 414-418; `WideCharacterLost`), and column windows fewer than
  three columns wide can also lose a narrow character on bcol (`NarrowWindowLosesText`). The
  exact condition is `Loses`.
* A window's own redraw handler cannot ask for another redraw, as `oe_redraw` does by way of
  `oe_reframe` (editwin.c:484-510): the window is still dirty then, and is marked clean when the
  handler returns (window.c:429-443). `Redraw` says so.
* `owl_window_unlink` of the realized screen leaves it unrealized and unmarked, until it is
  dirtied or shown again. Nothing in the program unlinks the screen.

## Model

| member | source | states |
|---|---|---|
| Quoting.ParseLine | util.c:110-184 | the tokenizer loop computes the fold `Parse`; an open quote is an error |
| Quoting.AppendQuotedArg | util.c:188-216 | the two quoting loops append `Quote(arg)` |
| Quoting.ArgvQuote | util.c:271-281 | the loop joins the quoted arguments with blanks |
| Quoting.QuotingRoundTrip | util.c:110-216 | tokenizing a quoted argument vector gives it back, for all arguments, empty, blank, newline and mixed quotes included |
| Quoting.QuoteArgvInjective | util.c:271-281 | different argument vectors are quoted differently |
| CommandLines.SpelledLine | util.c:110-184 | a line spelled as arguments, made of bare stretches and stretches between quotes, with gaps between them, is read as these arguments without the quotes; one that ends inside a quote is an error |
| CommandLines.EveryLineIsSpelled | util.c:110-184 | every line is spelled like that, so the tokenizer is described on all lines |
| CommandLines.TextFollows | util.c:110-184 | text after a line, its quotes closed, and a blank is read after the arguments of the line |
| Quoting.SkipTokensFrom | util.c:8-25 | the three pointer loops compute `SkipTokens`, described by the next rows |
| Quoting.SkipTokensRoundTrip | util.c:8-25 | skipping n arguments of a quoted vector leaves the rest of it, quoted |
| CommandLines.SkippingCutsBetween | util.c:8-25 | on every line what is skipped and what is left are read apart as they are read together; what is left are all but the first n arguments if and only if n are skipped |
| CommandLines.SkipTokensSkipsArguments | util.c:8-25 | exactly n arguments are skipped, whatever blanks and quotes the line has, if no tab or newline is outside quotes |
| CommandLines.WithoutTabsAndNewlines | util.c:8-25 | for instance on every line without tabs and newlines |
| CommandLines.TabsAreNotSkipped | util.c:8-25 | at a tab skipping does not stop: of two arguments both go, not one |
| Quoting.SkipTokensShrinks | util.c:8-25 | skipping an argument of a non-empty line shortens it, which is why interpretation ends |
| Colors.LookupColor | util.c:338-353 | table loop and number parsing compute `StringToColor`, with the clamping and truncation of `strtol` into an int |
| Colors.ColorNumber | util.c:319-347 | the number of each of the ten names, in any case of letters and on every terminal |
| Colors.CaseIsIgnored | util.c:345-347 | only letters are compared without case |
| Colors.NumberIsColor | util.c:349-352 | what does not start with a letter is the number it starts with, if the terminal has that colour, else -2 |
| Colors.NumbersAreDecimal | util.c:349-352 | numbers are decimal, after blanks and a sign, up to the first other character; without a digit there is none |
| Colors.LargeNumbersWrap | util.c:349-352 | of a number too large for an int the low 32 bits are kept; a number too large for a long is -1 |
| Colors.ColorRoundTrip | util.c:338-360 | a usable colour is read back from its printed form on any terminal |
| Colors.ColorRange | util.c:338-353 | a string is refused or denotes a usable colour |
| Colors.ColorTextIsPlain | util.c:355-360 | printed colours need no quoting |
| FilterSyntax.ParsePrimitiveAt | filter.c:64-118 | the descent for one primitive, with its reserved words and error cases, agrees with `ParsePrimitive` |
| FilterSyntax.ParseExpressionAt | filter.c:120-157 | the and/or loop agrees with `ParseExpression`; without `next` leftover words are an error |
| FilterSyntax.ParserMatchesGrammar | filter.c:64-157 | a whole vector parses as e if and only if it spells e and e is a well-formed, left-associative expression |
| FilterSyntax.GrammarIsUnambiguous | filter.c:64-157 | no vector has two readings |
| FilterSyntax.BuildFilter | filter.c:16-44 | the option loop and the parse compute `Build`; unusable colours are skipped |
| FilterSyntax.LeadingColors | filter.c:24-39 | of the colour options in front the last usable one of each kind counts, an unusable one changes nothing, and the tree is that of the words after them |
| FilterSyntax.BuildIsValid | filter.c:16-44 | what is built has usable colours, a well-formed tree and a first word that is not a colour option |
| FilterSyntax.AppendElement | filterelement.c:129-186 | the print functions append `Print(e)` |
| FilterSyntax.FilterToString | filter.c:201-232 | colours and tree are printed in order |
| FilterSyntax.PrintReads | filterelement.c:129-186 | with plain field names, the printed tree is read as the words that spell it |
| FilterSyntax.PrintFilterParses | filter.c:201-232 | the printed filter splits into exactly its words, the final newline included |
| FilterSyntax.WordsRebuild | filter.c:16-44 | a valid filter is rebuilt from its own words |
| FilterSyntax.PlainFieldsReadBack | filter.c:16-232 | a valid filter with plain field names is printed, tokenized and parsed back to itself |
| FilterRoundTrip.PrintParseRoundTrip | filter.c:16-232 | whatever the constructor accepts comes back from its printed form, colours and tree, if and only if all its field names are plain words |
| FilterRoundTrip.ReadBackMeansPlain | filter.c:201-232 | the hard half: a field name that is no plain word puts the reading behind, and it never catches up |
| FilterRoundTrip.FieldGoes | filterelement.c:139-147 | a bare field name is read as the next argument exactly if it is a plain word, wherever in the line it stands |
| FilterSyntax.BlankFieldIsNotPrintable | filterelement.c:139-147 | a filter the parser accepts, with a blank in a field name, whose printed form no longer parses |
| FilterSyntax.EquivalentMeansEqual | filter.c:234-250 | for plain field names `owl_filter_equiv` holds exactly for equal names, colours and trees; of all filters printed like a plain one, no other is plain |
| FilterSyntax.EquivalentCanDiffer | filter.c:234-250 | two filters the parser accepts that differ and are equivalent, one field name not being plain |
| Dictionary.Dict.FindPos | dict.c:26-43 | binary search finds the key or the one place where it belongs |
| Dictionary.Dict.Find | dict.c:45-53 | lookup in the map |
| Dictionary.Dict.Insert | dict.c:76-103 | insertion refines map update: a taken key is replaced with a callback, and refused with -2 without one |
| Dictionary.Dict.OpenGap | dict.c:93-97 | every entry from the position on moves up one slot |
| Dictionary.Dict.Grow | dict.c:88-92 | growth keeps every entry |
| Dictionary.Dict.Remove | dict.c:107-121 | removal refines removal from the map and returns the value |
| FilterGraph.CycleIsNewOrOld | functions.c:2187-2204 | a cycle after a definition passes through the defined name or was there before |
| FilterGraph.DefineKeepsAcyclic | functions.c:2187-2204 | a definition the check accepts makes no cycle, references to later filters included |
| FilterGraph.RemoveKeepsAcyclic | global.c:559-563 | a removal makes no cycle |
| FilterGraph.RunsKeepAcyclic | functions.c:2187-2204 | any sequence of checked changes keeps an acyclic registry acyclic |
| FilterGraph.RegistryStaysAcyclic | functions.c:2187-2204 | from the empty registry no sequence of checked changes makes a cycle |
| FilterGraph.MatchesMeaning | filterelement.c:68-126 | on an acyclic registry matching is Boolean evaluation against any assignment that gives each name its own filter's value |
| FilterGraph.MatchesAnyChain | filterelement.c:68-79 | a match does not depend on how it was reached |
| FilterGraph.MeaningIsUnique | filterelement.c:68-126 | the filters as equations between names have exactly one solution, the one matching computes |
| FilterGraph.CyclicHasNoMeaning | filterelement.c:284-323 | a filter that negates itself has no solution |
| FilterMeaning.LeavesMean | filter.c:64-118 | what `true`, `false`, `filter`, `perl` and a field with an expression mean, said with the words |
| FilterMeaning.ConnectivesMean | filter.c:120-157 | `and` and `or` combine everything before them with the one operand after them |
| FilterMeaning.PrefixesMean | filter.c:64-118 | `not` negates the one operand after it, parentheses make one operand of what they hold |
| FilterRegistry.Registry.GetFilter | global.c:535-539 | lookup by name |
| FilterRegistry.Registry.IsTooDeepFrom | filterelement.c:301-323 | the search refuses exactly when a chain of references closes on a name being visited, marks everything it finishes, and ends on any registry |
| FilterRegistry.Registry.FollowReference | filterelement.c:306-315 | one reference: unknown names are accepted, names being visited refuse, finished ones are not searched again |
| FilterRegistry.Registry.IsTooDeep | filterelement.c:284-299 | the check refuses if and only if following references from the filter comes back to a name on the way |
| FilterRegistry.Registry.NewFilter | filter.c:16-59 | a filter results exactly when its words parse and the check accepts it |
| FilterRegistry.Registry.AddFilter | global.c:541-557 | any filter is added, a replaced one leaves dictionary and list; the registry stays free of cycles if and only if the loop check would have passed |
| FilterRegistry.Registry.RemoveFilter | global.c:541-563 | dictionary and list agree after a removal |
| FilterRegistry.Registry.Match | filterelement.c:52-126 | matching ends and computes `Matches` on any registry reachable by checked changes |
| FilterRegistry.Registry.MessageMatch | filter.c:192-195 | a filter matches exactly when it evaluates to true |
| FilterRegistry.Registry.CreateFilter | functions.c:2135-2212 | said with the arguments: `-c` sets only the foreground of a registered filter and reports failure, `-b` only the background and reports success; too few arguments, "all", an unknown name and an unusable colour change nothing; all else creates or replaces exactly when the words parse and the new registry is safe, and a refusal changes nothing |
| FilterRegistry.Registry.Recolor | functions.c:2157-2184 | the two colouring branches and what they report |
| FilterRegistry.Registry.Register | functions.c:2198-2204 | the old filter of the name goes, the new one comes |
| Zwrites.ZwriteObject.TakeTurn | zwrite.c:63-134 | one turn of the option loop, with its two early exits, is `TakeOne`, of which `Create` is made |
| Zwrites.ZwriteObject.Fill | zwrite.c:40-162 | the loop fills the fields as `Create` says, described by the next rows, or refuses; the line is kept quoted; a message is tidied and, for a CC to anyone in person, starts with the line naming the recipients |
| ZwriteArguments.SpelledZwrite | zwrite.c:40-162 | of a command word, options, flags, recipients and a message: each option has its last value or its default, recipients are in order, the message is all words after -m; refused exactly without a destination, without words after -m, and with an option without value |
| ZwriteArguments.EveryVectorIsSpelled | zwrite.c:40-162 | every argument vector is spelled like that, so `Create` is described on all of them |
| ZwriteArguments.MessageIsTyped | zwrite.c:104-119 | after what makes a zwrite without a message, -m and words make the same zwrite with these words, a blank between each two, as its message; -m alone is refused |
| ZwriteArguments.ItemIsTyped | zwrite.c:63-134 | one more option with its value, flag or recipient changes just what it names, the signature included |
| Zwrites.ZwriteObject.SetMessage | zwrite.c:200-228 | only the message changes: to the given words, after the CC line if there are personal recipients |
| ZwriteArguments.CopiesAreNamed | zwrite.c:200-228 | exactly if copies are asked for and some recipient is neither empty nor a realm, the text starts with a line "CC: " and all recipients in order, each with the realm if there is one; then the tidied words |
| Zwrites.ReplyLine | zwrite.c:381-424 | the line appended piece by piece is the quoted vector `ReplyArgs` |
| Zwrites.ReplyRoundTrip | zwrite.c:381-424 | the reply line reads back as the same command, class, instance, realm, opcode and flags, to all recipients for a CC and else to the chosen one, without signature and message; refused exactly for the default class and instance without recipients |
| Commands.Interpreter.Execute | cmd.c:71-92 | any line ends, whatever aliases exist or come to exist, computes `Exec`, and the depth counter is back at its old value |
| Commands.Interpreter.ExecuteCommand | cmd.c:54-173 | an alias expands with its arguments below the limit and is refused at it; the other commands as they are |
| Commands.Interpreter.RunMulti | commands.c:1704-1734 | the text after the command word, for `(` without its closing parenthesis, is cut at semicolons and run in order, keeping the counter; what that is the next rows say |
| CommandRuns.SplitUndoesJoin | commands.c:1729 | a text is cut at every ';': pieces without one, joined by ';', are found again |
| CommandRuns.JoinUndoesSplit | commands.c:1729 | and every text is its pieces joined by ';', none of which has one |
| CommandRuns.MultiRunsPieces | commands.c:1704-1734 | a `multi` runs all the pieces of its text one after the other and does nothing else; a text that is no argument is refused |
| CommandRuns.ParenthesesRunPieces | commands.c:1704-1734 | so does `(` with the text up to the last `)`, which only blanks may follow |
| CommandRuns.ParenthesisIsMissed | commands.c:1714-1725 | without that `)` nothing is run |
| CommandRuns.MultiRunsInOrder | commands.c:1704-1734 | of quoted plain commands joined by ';' each is run, in order: exactly these runs are added to the log, and the table is changed by each in turn |
| CommandRuns.ParenthesesRunInOrder | commands.c:1704-1734 | the same between parentheses |
| CommandRuns.HistoryRunsRest | commands.c:2695-2714 | `with-history` stores the line after the word and runs it |
| CommandRuns.StartupRunsRest | commands.c:1218-1233 | `startup` runs the line after the word and then keeps it for the next start |
| CommandRuns.DefinedAliasRuns | commands.c:1737-1746 | defining an alias changes only its name's entry; using it then runs the words it was defined with, and the arguments of the use after them |
| CommandRuns.RefusedLines | cmd.c:54-92 | an open quote, an unknown command and too few arguments only add a complaint |
| Commands.Interpreter.CutAtClose | commands.c:1714-1725 | the backwards loop finds the last closing parenthesis followed by blanks only |
| Commands.MultiShrinks | commands.c:1704-1734 | every piece of a multi is shorter than its line |
| Commands.NestingIsBounded | cmd.c:152-173 | no run nests more than 51 alias expansions |
| Commands.SelfAliasStops | cmd.c:152-173 | an alias for itself is expanded once at every depth up to the limit, then refused |
| Commands.AliasPassesArguments | cmd.c:152-173 | an alias reads as its own words followed by exactly the arguments it was called with, quoted or spelled in any way with blanks alone between them |
| Commands.AliasRunsTarget | cmd.c:54-173 | so an alias for a plain command runs it on these words, at any depth below the limit |
| Answers.RunIsExec | cmd.c:54-173 | without `yes` and `no` some number of steps is enough for every line, and does what the unlimited interpreter does |
| Answers.RunMore | cmd.c:54-173 | more steps than enough change nothing |
| Answers.PlainCommandRuns | cmd.c:54-92 | any other plain command runs, and changes the table, the messages and the current one as it does |
| Answers.QuestionIsAnswered | commands.c:2716-2782 | `yes` runs the yes-command of an open question and `no` its no-command; then the message that was current is answered, and everything else is as that run left it |
| Answers.NothingToAnswer | commands.c:2716-2782 | without a message, or one that is an unanswered question with such a command, there is only a complaint |
| Answers.AnswerEndsIff | commands.c:2716-2782 | answering an open question ends if and only if the line that answers it ends, one step later |
| Answers.AnswerNeverEnds | commands.c:2716-2782 | a question whose answering line answers it again is never answered: no number of steps is enough, since it is marked as answered only afterwards |
| Answers.YesNeverEnds | commands.c:2716-2748 | so a message whose yes-command is `yes` |
| MessagePane.Pane.CalculateTopmsg | functions.c:1023-1061 | all six modes keep the current message on screen; normal and paged show it whole if it fits; each mode meets its own description |
| MessagePane.Pane.TopmsgNearTop | functions.c:1075-1084 | the previous message stays above if it takes less than half the pane |
| MessagePane.Pane.TopmsgCenter | functions.c:1086-1098 | the most messages that fit in half a pane are above |
| MessagePane.Pane.TopmsgPaged | functions.c:1100-1138 | the page turns only when the current message is not wholly on it |
| MessagePane.Pane.BottomFill | functions.c:1104-1113 | the current message ends a full page |
| MessagePane.Pane.TopmsgNormal | functions.c:1140-1209 | scrolling in steps of half a pane, in the direction of movement; nothing without a current message |
| MessagePane.Pane.ScrollUp | functions.c:1171-1190 | the loop stops at the first message from which more than half a pane is above |
| MessagePane.Pane.ScrollDown | functions.c:1192-1206 | the loop stops when more than half a pane has gone |
| MessagePane.NearestToMsgid | view.c:92-119 | no message is nearer to the id; the odd bound test loses nothing |
| FormattedText.SliceRenders | fmtext.c:129-150 | a slice shows exactly the cells of its range in their own styles, and leaves the normal style; stated for texts whose plane-16 characters the scan reads right |
| FormattedText.SlicesJoin | fmtext.c:129-150 | the cells of a text are those of its parts |
| FormattedText.ScanReadsUnmistakable | fmtext.c:115-127 | of the plane-16 characters the scan reads in every style what is shown exactly for the style characters and those with none of the two style bits |
| FormattedText.ScanMisreadsOtherPlane16 | fmtext.c:115-127 | a character that is shown as text and yet changes the style for the scan |
| FormattedText.StyleCharacters | fmtext.c:95-112 | the code points of the 256 foreground and background colours, the default ones and the attributes, and what each sets |
| FormattedText.Fmtext.AppendAttr | fmtext.c:25-47 | any text is shown starting in the given style; the whole can be appended to again if and only if the text is clean and style characters in it set nothing that is not reset |
| FormattedText.Fmtext.AppendNormal | fmtext.c:50-53 | any text is shown starting in the normal style, and can be appended to again if and only if it is clean and ends in that style |
| FormattedText.StyledText | fmtext.c:25-47 | text between the characters that switch a style on and off is shown in that style, and what exactly is left behind |
| FormattedText.StyleReached | fmtext.c:25-41 | the style characters put first reach the style asked for if and only if its colours are below 256 and its attributes known |
| FormattedText.Color256IsDefault | fmtext.c:36-41 | colour 256, foreground or background, is the default colour |
| FormattedText.Fmtext.ScanAttributes | fmtext.c:95-127 | the scan for lead bytes computes `Scan`, which is the style in force if the text is clean |
| FormattedText.Fmtext.AppendFmtext | fmtext.c:129-150 | exactly the rendered cells of the range are appended |
| FormattedText.Fmtext.AppendSpaces | fmtext.c:160-166 | normal blanks are appended |
| FormattedLines.TruncateLines | fmtext.c:330-361 | exactly the requested lines are appended; the result is 0 if and only if all of them end in a newline |
| FormattedLines.LineWindowIs | fmtext.c:330-361 | what is appended is what comes after the first `aline` newlines, up to and with the next `lines` of them, or up to the end if there are fewer; nothing if there are fewer than `aline` |
| FormattedLines.SkipLines | fmtext.c:335-341 | the first loop finds where the lines start |
| FormattedLines.CopyLines | fmtext.c:345-360 | the second loop copies line after line |
| FormattedColumns.PieceIsOneRow | fmtext.c:364-431 | what is written for a line prints as one screen row, always a beginning of the row the window shows, and all of it if and only if the line loses neither a narrow character that comes first and on bcol nor a wide one on the last two columns |
| FormattedColumns.WideWindowLosesNothing | fmtext.c:433-444 | in a window at least three columns wide no line loses a narrow character on bcol |
| FormattedColumns.PiecesAreRows | fmtext.c:364-431 | whatever the window, line after line prints as one row each, `PrintedRow` of the line |
| FormattedColumns.PrintedAsShown | fmtext.c:433-444 | the printed rows are the lines seen through the window if and only if no line loses anything |
| FormattedColumns.NarrowWindowLosesText | fmtext.c:364-431 | a window one column wide loses a line of one character |
| FormattedColumns.WideCharacterLost | fmtext.c:391-418 | two letters and a CJK character fit a window of four columns, and the CJK character is dropped |
| FormattedColumns.RowsAreAligned | fmtext.c:433-444 | row i of a screen as wide as the window shows source line i, each character at its own column, a wide character cut at the left edge as padding, if and only if no line loses anything; in windows of three columns or more that is if and only if no line has a wide character on the last two columns |
| FormattedColumns.TruncateLine | fmtext.c:384-430 | scan and ending of one line write `PieceCells` |
| FormattedColumns.TruncateColsInternal | fmtext.c:364-431 | every complete line becomes its piece, an incomplete last line is dropped |
| FormattedColumns.ExpandTabs | fmtext.c:296-325 | tabs become blanks to the next stop, everything else keeps its style |
| FormattedColumns.TabStops | fmtext.c:296-324 | a tab anywhere becomes one to eight blanks that end at a multiple of eight columns; what comes before and after is expanded as it is |
| FormattedColumns.ExpandedIsPrintable | fmtext.c:296-325 | expanded text has no tabs and fits the column window's condition |
| FormattedColumns.TruncateCols | fmtext.c:445-458 | what is added to the output, printed, shows line i of the expanded text in row i, if and only if no line loses anything |
| WindowTree.CleanBelow | window.c:460-480 | a clean screen means no mark under a realized parent |
| WindowTree.AllShown | window.c:486-508 | a clean screen means every displayable window is realized, and repainted since anything but its own handler last asked |
| WindowTree.OnlyShown | window.c:333-361 | only displayable windows are realized |
| WindowTree.ScreenMarked | window.c:410-421 | a mark under realized ancestors is a mark on the screen: the early stop of the upward loop loses nothing |
| WindowTree.MarksReachScreen | window.c:469-479 | a window still dirty under a realized parent, or the screen itself, leaves the screen marked |
| WindowTree.NothingLeft | window.c:486-508 | if the screen is not marked, exactly the attached windows shown and sized with all ancestors are realized, all repainted since anything but their own handler last asked, and none with a realized parent is dirty |
| WindowTree.NothingInCommon | window.c:185-216 | windows neither of which is below the other have disjoint subtrees |
| WindowTree.Display.constructor | window.c:140-151 | the screen is shown, and realized exactly if it has a size |
| WindowTree.Display.MarkDirty | window.c:410-421 | only w becomes dirty, marks only grow, and nothing outside a marked ancestor's subtree changes |
| WindowTree.Display.MarkUp | window.c:415-419 | the upward loop restores the marks and ends |
| WindowTree.Display.Dirty | window.c:410-421 | a window that should be realized becomes dirty and the screen is marked; the invariant holds afterwards even if this window did not wait as it should |
| WindowTree.Display.New | window.c:155-216 | a hidden window without size is put first among its parent's children |
| WindowTree.Display.Unlink | window.c:185-200 | everything below is unrealized, the window leaves its parent's list and all sets of descendants, nothing else is relinked, the parent is to be repainted; the invariant is kept if and only if it was not the realized screen |
| WindowTree.Display.Unrealize | window.c:363-375 | nothing below stays realized, its own mark goes, nothing outside loses its window or a pending repaint, and the parent is to be repainted |
| WindowTree.Display.CreateCurses | window.c:251-267 | a window is created exactly for the screen or under a realized parent |
| WindowTree.Display.RealizeLater | window.c:339-344 | afterwards the window is dirty if it should be realized |
| WindowTree.Display.Realize | window.c:346-361 | afterwards the window is realized and dirty, or nothing but its own state prevents it; a marked window changes nothing outside its subtree |
| WindowTree.Display.Show | window.c:287-293 | the invariant holds afterwards, also for a screen that was unlinked, and the window is realized at once exactly if it has a size and a realized parent or is the screen |
| WindowTree.Display.Hide | window.c:302-311 | keeps the invariant, nothing below stays realized, the parent is to be repainted; the screen cannot be hidden |
| WindowTree.Display.SetPosition | window.c:529-550 | keeps the invariant through resize handlers that move descendants and dirty any window; a moved window waits to be realized at its new place |
| WindowTree.Display.Move | window.c:520-527 | only the position changes, outside the subtree nothing moves |
| WindowTree.Display.Resize | window.c:552-555 | only the size changes, outside the subtree nothing moves |
| WindowTree.Display.Connect | editwin.c:185-195 | new handlers keep the invariant if and only if the window does not still wait for a redraw that only its old handler had asked for |
| WindowTree.Display.Redraw | window.c:429-443 | the window is no longer dirty, and if realized it is repainted exactly if its own handler did not ask for another redraw; outside the subtree dirty flags and marks only grow, and with a handler that dirties only the window and those below nothing changes there |
| WindowTree.Display.IsSubtreeDirty | window.c:445-458 | dirty itself, or with a marked child |
| WindowTree.Display.RedrawSubtree | window.c:460-480 | the invariant is kept whatever windows the handlers dirty; if each dirties only its own window and those below, the subtree's mark is cleared |
| WindowTree.Display.RedrawScheduled | window.c:486-508 | whatever windows the handlers dirty the invariant is kept and a window still dirty under a realized parent leaves the screen marked; without that mark exactly the windows shown and sized with all ancestors are realized, all repainted since anything but their own handler last asked; with handlers that dirty only their own window and those below no mark is left |
| EditText.PointStays | editwin.c:582-589 | a point outside the replaced region keeps both neighbours, one inside or at its end goes to the end of the insertion, one at its start stays |
| EditText.PointStaysThroughRun | editwin.c:636-678 | through any run of edits a point never touched keeps both neighbours |
| EditText.ColumnIsLineWidth | editwin.c:1267-1295 | counting from the lock with newlines going back to 0 is the width from the later of lock and last newline |
| EditText.ColumnAppend | editwin.c:1267-1282 | the column after more text follows from the column before it |
| EditText.ColumnSteps | editwin.c:411-424 | a tab goes to the next multiple of eight columns, a newline back to 0, any other character as far as it is wide |
| EditText.BreakPlaces | util.c:643-661 | lines can be broken at blanks and CJK characters, not after opening brackets, and at no other character below U+3000 |
| EditText.RespacingKeeps | editwin.c:1146-1219 | replacing whitespace by whitespace keeps all other characters in order |
| EditText.BreakingShortens | editwin.c:684-701 | breaking the line at the point leaves nothing too long up to it |
| EditText.BreakAddsEmptyLine | editwin.c:684-701 | a break leaves an empty line exactly if the place to break is where the line starts |
| EditText.WrapShortens | editwin.c:1210-1216 | after the second pass no position it passed is too far right, unless its line cannot be broken before it |
| EditText.OneNewlineEach | editwin.c:1210-1216 | a line that can only be broken before its first character gets one newline for every position passed that is too far right |
| EditText.CjkBeforeLongWord | editwin.c:1210-1216 | a CJK character before a word of two letters, filled to two columns, gets two newlines |
| EditText.NothingCollapsesAtLetters | editwin.c:1171-1206 | at a character that is not whitespace, CJK or not, the first pass changes nothing |
| EditText.BlankAfterCjkStays | editwin.c:1171-1206 | of two blanks after a CJK character one stays |
| EditWindow.Editwin.constructor | editwin.c:113-147 | an empty window, valid |
| EditWindow.Editwin.SetIndex | editwin.c:92-100 | a moved point forgets its columns |
| EditWindow.Editwin.ColumnOf | editwin.c:1267-1282 | the loop computes the column, newlines going back to 0 |
| EditWindow.Editwin.WidthOf | editwin.c:1284-1295 | the loop computes the width |
| EditWindow.Editwin.SaveExcursion | editwin.c:326-336 | point, mark and goal column are saved first in the list |
| EditWindow.Editwin.ReleaseExcursion | editwin.c:338-349 | the excursion leaves the list and is no longer valid; it aborts if and only if it was not in the list |
| EditWindow.Editwin.RestoreExcursion | editwin.c:351-361 | point, mark and goal column are where the edits moved them; an ended excursion changes nothing; it aborts if and only if the excursion is open and the window has been cleared since |
| EditWindow.Editwin.RestoreMarkOnly | editwin.c:363-370 | only the mark comes back; aborts in the same case |
| EditWindow.Editwin.ForgottenIffCleared | editwin.c:129-349 | over any run, an excursion not yet ended is missing from the list exactly if the window has been cleared since it was saved |
| EditWindow.Editwin.SaveExcursionAround | perlglue.xs:535-564 | for any sub made of insertions, moves, marks, deletions of everything and, to any depth, subs with excursions of their own, it aborts exactly if something deletes everything; else list and excursions are as before |
| EditWindow.Editwin.ReplaceInternal | editwin.c:636-678 | the edit is applied; mark, every saved point and the cached column are exact again; the display starts anew if the edit was not after its start |
| EditWindow.RecentredIs | editwin.c:660-673 | the start of the display stays exactly if the edit is after it |
| EditWindow.Editwin.Perform | editwin.c:636-678 | all but the lock kept by the open excursions: text, point, mark, column, saved points and the start of the display after one edit |
| EditWindow.Editwin.FixExcursions | editwin.c:665-669 | every saved point is moved once |
| EditWindow.Editwin.Replace | editwin.c:615-634 | replacing stops at the end of the text |
| EditWindow.Editwin.InsertString | editwin.c:752-755 | the text is inserted before the point |
| EditWindow.Editwin.DeleteChar | editwin.c:706-709 | the character at the point goes, if there is one |
| EditWindow.Editwin.ReplaceRegion | editwin.c:591-612 | the region becomes s, point and mark move along; without a mark nothing happens |
| EditWindow.Editwin.ExchangePointAndMark | editwin.c:763-771 | the two are exchanged, if there is a mark |
| EditWindow.Editwin.PointMove | editwin.c:773-793 | the point moves as far as it can, between lock and end, and the distance is returned |
| EditWindow.Editwin.AtBeginningOfLine | editwin.c:809-823 | at the lock or after a newline; the excursion leaves no trace |
| EditWindow.Editwin.MoveIfIn | editwin.c:835-845 | step by step, of any size and direction, as long as the character is of the set; with steps of one, over exactly the run of such characters |
| EditWindow.Editwin.MoveIfNotIn | editwin.c:847-857 | the same with characters not of the set |
| EditWindow.Editwin.MoveToBeginningOfLine | editwin.c:859-876 | to the start of the line, the last newline or the lock |
| EditWindow.Editwin.MoveToEndOfLine | editwin.c:878-881 | to the next newline or the end |
| EditWindow.Editwin.LineMove | editwin.c:883-915 | the new line is exactly that many newlines away from the old one, or the first after the lock, and the point is at the goal column in it or at its end; with too few lines below it is at the end of the text; going up it ends before the old line; the goal column is kept |
| EditWindow.Editwin.Backspace | editwin.c:917-924 | the character before the point goes, unless the point is at the lock |
| EditWindow.Editwin.TransposeChars | editwin.c:716-747 | the characters around the point are exchanged, at the end the two before it |
| EditWindow.Editwin.ForwardWord | editwin.c:946-956 | over blanks, then over the whole next word |
| EditWindow.WordEndIs | editwin.c:946-956 | the next word ends after all blanks, tabs and newlines, and then all characters that are none of these |
| EditWindow.Editwin.BackwardWord | editwin.c:965-1003 | to the last start of a word before the point, with the exact exception at the lock; every exit gives the excursion list back |
| EditWindow.PassesOverSome | editwin.c:965-1003 | from the end of " ab" the word is passed over, from that of " a b" or "ab" it is not |
| EditWindow.Editwin.CopyRegion | editwin.c:1066-1081 | the region is in the kill buffer |
| EditWindow.Editwin.KillRegion | editwin.c:1083-1094 | the region is killed and deleted |
| EditWindow.Editwin.Yank | editwin.c:1052-1058 | the kill buffer is inserted |
| EditWindow.Editwin.DeleteNextWord | editwin.c:1010-1019 | one edit from the point to the end of the next word, which goes to the kill buffer; the mark moves along |
| EditWindow.Editwin.DeletePreviousWord | editwin.c:1021-1030 | one edit from the start of the previous word to the point, which goes to the kill buffer; the mark moves along |
| EditWindow.Editwin.DeleteToEndOfLine | editwin.c:1037-1050 | one edit to the end of the line, or over the newline at it, which goes to the kill buffer; point stays, mark moves along |
| EditWindow.Editwin.CurrentColumn | editwin.c:1131-1144 | the display column of the point, cached or not; the excursion leaves no trace |
| EditWindow.Editwin.SetLocktext | editwin.c:271-280 | everything becomes locked text; the invariant holds if and only if the mark is not left at the beginning, no column is known there that the text changes, and no open excursion has a point there or another lock |
| EditWindow.MarkLeftBehind | editwin.c:271-280 | a mark at the beginning of an empty window ends up before the lock |
| EditWindow.ColumnLeftBehind | editwin.c:271-280 | a column asked for at the beginning of an empty window is wrong afterwards |
| EditWindow.Editwin.Clear | editwin.c:290-318 | only the locked text is left and the invariant holds; excursions still open stay valid and are out of the list |
| EditWindow.Editwin.CheckDotsend | editwin.c:1227-1256 | the line with a single dot immediately before the point, or at the lock, is removed exactly when only whitespace follows the point, with point and mark at the end or where they were before it; otherwise nothing changes |
| EditWindow.DotLineIs | editwin.c:1227-1256 | where that line is: right before the point, or, if the point is within three characters of the lock, first after the lock or second after an empty line |
| EditWindow.Editwin.BackwardParagraph | editwin.c:1111-1119 | to the last empty line before the point, or the lock |
| EditWindow.Editwin.ForwardParagraph | editwin.c:1121-1129 | to the first empty line after the point, or the end |
| EditWindow.Editwin.LinewrapWord | editwin.c:684-701 | one newline at the last place the line can be broken; point and mark move along |
| EditWindow.Editwin.FirstPass | editwin.c:1171-1206 | ends although it deletes and moves the mark it runs to; equals `Collapse`; changes whitespace only |
| EditWindow.Editwin.SecondPass | editwin.c:1208-1216 | ends although it inserts; equals `Wrap`; changes whitespace only |
| EditWindow.Editwin.FillParagraph | editwin.c:1146-1219 | the other characters, everything before and after the paragraph, and the locked text are unchanged; the result is the function `Filled`; point and mark are moved along |
| EditWindow.ParagraphIsAround | editwin.c:1159-1169 | the paragraph is around the point, between two empty lines, the lock or the end, with none inside |
| ParagraphFill.WordsStay | editwin.c:1171-1206 | the first pass changes no word, joins no two and splits none: runs of whitespace stay runs of whitespace |
| ParagraphFill.CollapseIsNormal | editwin.c:1171-1206 | after the first pass a blank or newline is followed by whitespace only after a sentence, and then by one character of it |
| ParagraphFill.RunOfBlanks | editwin.c:1171-1206 | of the blanks and newlines after a character one blank is left, and after '.', '!', '?', or a quote right after one of these, the second of them too, as it is; the next other character follows |
| ParagraphFill.TrailingDot | editwin.c:1172-1176 | a trailing dot stays on its line after a letter; with a blank before that line it is joined |
| ParagraphFill.FirstPassIsNormal | editwin.c:1171-1206 | so the text of a paragraph after the whole first pass |
| ParagraphFill.ParagraphIsNormal | editwin.c:1146-1206 | if a newline follows the paragraph, that is all of its text; in a text without a newline at its end it is all of it exactly if the last character is no whitespace after a blank, a dot on its own line included |
| ParagraphFill.TwoBlanksStay | editwin.c:1146-1206 | of three blanks at the end of a text without a newline two stay |
| ParagraphFill.TabsStay | editwin.c:1171-1206 | a run of two tabs is left as it is |
| ParagraphFill.SecondBlankStays | editwin.c:1188-1192 | a newline after a sentence and a blank is left as it is |
| ParagraphFill.PassEnds | editwin.c:1171-1208 | where the first pass ends: no empty line behind it except the one a kept newline makes, nothing after it touched, the mark moved along or at a trailing dot |
| ParagraphFill.FilledLinesFit | editwin.c:1146-1219 | if a newline follows the paragraph, no line of it is too long that could be broken, unless it keeps a newline at its end, and then no line is broken at all; in a text without a newline at its end all of it fits if and only if its last character does |
| ParagraphFill.LongLineStays | editwin.c:1146-1219 | a paragraph that keeps a newline, with a line too long that could be broken |
| ParagraphFill.LastCharacterLeft | editwin.c:1146-1219 | a text without a newline at its end whose last character is too far right, and is left there |

## Left out

- Commands.Interpreter.Execute: commands other than aliases, `multi`, `(`, `startup` and `with-history` are a function of their arguments that may change the table and do not run further lines. `yes` and `no` are in `Answers`, where messages are named by their position in the view; `reply` (functions.c:1917), `source` (functions.c:3330), `start-command` with the line entered there (functions.c:1947-1957), which `edit:done` runs, and `smartzpunt` (functions.c:2712) are not part of this model.
- Commands.Interpreter.ExecuteCommand: the refusals of a command in the wrong context or with the wrong number of arguments (cmd.c:175-199) are part of that function.
- FilterRoundTrip.PrintParseRoundTrip: regular expressions and Perl filters are an uninterpreted validity test and uninterpreted predicates.
- Quoting.ParseLine: a newline between arguments is an ordinary character there, as in the code; text encoding is not modelled, characters are code points.
- FilterRegistry.Registry.AddFilter: an object is added once; adding the same object again would leave a deleted filter in the registry.
- FilterRegistry.Registry.CreateFilter: the refresh of the current view after the change is not modelled, nor is the "all" filter of the start-up code.
- Zwrites.ZwriteObject.Fill: validating the encoding of a message and expanding its tabs is a function given to the model; class, instance, realm, opcode, signature and recipients are taken to be valid text; the default signature is not read.
- FormattedText.Fmtext.AppendAttr: excludes colours above 255, which do not reach the style asked for (`StyleReached`).
- FormattedText.SliceRenders: a text with a character the scan misreads is sliced in a style that depends on it; so it is for AppendFmtext, TruncateLines and CopyLines, which slice.
- FormattedColumns.PieceIsOneRow: characters of width -1, that is control characters other than newline, are excluded here and from TruncateLine, TruncateColsInternal and RowsAreAligned, since what the terminal shows for them is not modelled; combining marks are characters without width like any other, on the column after the character they belong to, so that one after the character on the last column is outside the window (the source drops it, and says so, fmtext.c:438-440).
- FormattedColumns.ExpandTabs: excludes control characters of width -1, other than tab and newline, and so does TruncateCols.
- MessagePane.Pane.CalculateTopmsg: a current message in a view that has one; in an empty view the source counts messages without lines.
- MessagePane.NearestToMsgid: ids must increase strictly; that all messages get increasing ids is not modelled.
- WindowTree.Display.CreateCurses: a curses window is a flag, and creating one succeeds.
- WindowTree.Display.SetPosition: resize handlers are given by the windows they move and dirty, and those moved must be descendants, without which a handler could move its own window for ever.
- WindowTree.Display.RedrawScheduled: redraw handlers are given by the windows they dirty; handlers that show, hide, move or unlink windows are not modelled, nor are panels, the cursor, reference counts and disposal.
- EditWindow.Editwin.FillParagraph: the space and the newline must be whitespace, as in Unicode; so for `FilledLinesFit` and `CollapseIsNormal`.
- EditWindow.Editwin.SaveExcursionAround: other things a Perl sub can do, such as running commands, are not modelled.
- EditWindow.Editwin: the list of excursions is a sequence of objects instead of links; byte capacity, combining marks, display lines and the redraw are not modelled, and of the top of the display only what edits do to it.
- Automatic wrapping while typing (editwin.c:1297-1353): the source calls it wrong in places and it can replace a character; nothing is claimed.
- Drawing, the network protocols, Perl, logging, help, variables, key bindings, popups and the buddy list.

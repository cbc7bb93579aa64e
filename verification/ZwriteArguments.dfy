/** What an argument vector means to zwrite (zwrite.c), said with the arguments themselves:
    which of them are options, values, recipients and words of the message. */
module ZwriteArguments {
  import opened Strings
  import opened Zwrites

  /** An option with its value, a flag, or a recipient. */
  datatype Item = Valued(option: string, value: string) | CarbonCopy | NoPing | Recipient(name: string)

  /** How a vector ends: after an item, with a message, or with an option without value. */
  datatype Ending = Done | Message(words: seq<string>) | Dangling(option: string)

  predicate WantsValue(arg: string) { arg == "-c" || arg == "-i" || arg == "-r" || arg == "-s" || arg == "-O" }

  predicate IsItem(i: Item) {
    match i
    case Valued(option, _) => WantsValue(option)
    case Recipient(name) => !WantsValue(name) && name != "-m" && name != "-C" && name != "-n"
    case _ => true
  }

  predicate AreItems(items: seq<Item>) { forall i :: 0 <= i < |items| ==> IsItem(items[i]) }

  predicate IsEnding(e: Ending) { e.Dangling? ==> WantsValue(e.option) }

  /** The first argument is the command word unless it starts with a '-'. */
  predicate IsCommand(cmd: Option<string>, items: seq<Item>) {
    match cmd
    case Some(word) => word == "" || word[0] != '-'
    case None => items != [] && items[0].Recipient? ==> items[0].name != "" && items[0].name[0] == '-'
  }

  function SpellItem(i: Item): seq<string> {
    match i
    case Valued(option, value) => [option, value]
    case CarbonCopy => ["-C"]
    case NoPing => ["-n"]
    case Recipient(name) => [name]
  }

  function SpellEnding(e: Ending): seq<string> {
    match e
    case Done => []
    case Message(words) => ["-m"] + words
    case Dangling(option) => [option]
  }

  function Spell(items: seq<Item>): seq<string> {
    if items == [] then [] else SpellItem(items[0]) + Spell(items[1..])
  }

  function Vector(cmd: Option<string>, items: seq<Item>, e: Ending): seq<string> {
    (if cmd.Some? then [cmd.value] else []) + (Spell(items) + SpellEnding(e))
  }

  /** The value an option was given last. */
  function Given(items: seq<Item>, option: string): Option<string> {
    if items == [] then None
    else
      var last := items[|items| - 1];
      if last.Valued? && last.option == option then Some(last.value) else Given(items[..|items| - 1], option)
  }

  function Recipients(items: seq<Item>): seq<string> {
    if items == [] then []
    else (if items[0].Recipient? then [items[0].name] else []) + Recipients(items[1..])
  }

  /** Words with a blank between each two. */
  function Sentence(words: seq<string>): string
    requires words != []
  {
    if |words| == 1 then words[0] else Sentence(words[..|words| - 1]) + " " + words[|words| - 1]
  }

  predicate HasDestination(items: seq<Item>) {
    Given(items, "-c") != None || Given(items, "-i") != None || Recipients(items) != []
  }

  /** The zwrite that is meant: each option has its last value or its default, the recipients
      are in order, and the message is all the words after -m. There is none exactly without
      a destination, without words after -m, and with an option without its value. */
  function Meant(cmd: Option<string>, items: seq<Item>, e: Ending): Option<Zwrite> {
    if e.Dangling? || e == Message([]) || !HasDestination(items) then None
    else Some(Zwrite(cmd, OrElse(Given(items, "-c"), "message"), OrElse(Given(items, "-i"), "personal"),
                     OrElse(Given(items, "-r"), ""), OrElse(Given(items, "-O"), ""), Given(items, "-s"),
                     CarbonCopy in items, NoPing in items, Recipients(items),
                     if e.Message? then Some(Sentence(e.words)) else None))
  }

  /** What the items say. */
  function Collected(items: seq<Item>): Options {
    Options(Given(items, "-c"), Given(items, "-i"), Given(items, "-r"), Given(items, "-O"), Given(items, "-s"),
            CarbonCopy in items, NoPing in items, Recipients(items), None)
  }

  lemma {:induction false} RecipientsSnoc(items: seq<Item>, i: Item)
    ensures Recipients(items + [i]) == Recipients(items) + if i.Recipient? then [i.name] else []
    decreases |items|
  {
    var all := items + [i];
    if items == [] {
      assert all[1..] == [];
    } else {
      assert all[1..] == items[1..] + [i];
      RecipientsSnoc(items[1..], i);
    }
  }

  lemma GivenSnoc(items: seq<Item>, i: Item, option: string)
    ensures Given(items + [i], option) ==
            if i.Valued? && i.option == option then Some(i.value) else Given(items, option)
  {
    assert (items + [i])[..|items|] == items;
  }

  /** What a turn makes of an item. */
  function WithItem(o: Options, i: Item): Options {
    match i
    case Valued(option, value) => WithValue(o, option, value)
    case CarbonCopy => o.(cc := true)
    case NoPing => o.(noping := true)
    case Recipient(name) => o.(recips := o.recips + [name])
  }

  lemma CollectedSnoc(items: seq<Item>, i: Item)
    requires IsItem(i)
    ensures Collected(items + [i]) == WithItem(Collected(items), i)
  {
    RecipientsSnoc(items, i);
    GivenSnoc(items, i, "-c");
    GivenSnoc(items, i, "-i");
    GivenSnoc(items, i, "-r");
    GivenSnoc(items, i, "-O");
    GivenSnoc(items, i, "-s");
    hide Given;
    hide Recipients;
    assert Recipients(items) + [] == Recipients(items);
    assert CarbonCopy in items + [i] <==> CarbonCopy in items || i == CarbonCopy;
    assert NoPing in items + [i] <==> NoPing in items || i == NoPing;
  }

  lemma TurnTakesItem(o: Options, i: Item, rest: seq<string>)
    requires IsItem(i)
    ensures Take(SpellItem(i) + rest, o) == Take(rest, WithItem(o, i))
  {
    var args := SpellItem(i) + rest;
    assert args[0] == SpellItem(i)[0];
    assert args[|SpellItem(i)|..] == rest;
  }

  /** One more item, read by one turn of the option loop. */
  lemma TakeItem(items: seq<Item>, i: Item, rest: seq<string>)
    requires IsItem(i)
    ensures Take(SpellItem(i) + rest, Collected(items)) == Take(rest, Collected(items + [i]))
  {
    hide Take;
    hide WithItem;
    CollectedSnoc(items, i);
    TurnTakesItem(Collected(items), i, rest);
  }

  lemma {:induction false} TakeItems(before: seq<Item>, items: seq<Item>, rest: seq<string>)
    requires AreItems(items)
    ensures Take(Spell(items) + rest, Collected(before)) == Take(rest, Collected(before + items))
    decreases |items|
  {
    hide Take;
    hide IsItem;
    hide SpellItem;
    hide Collected;
    if items == [] {
      assert Spell(items) + rest == rest && before + items == before;
    } else {
      var tail := Spell(items[1..]) + rest;
      assert Spell(items) + rest == SpellItem(items[0]) + tail;
      TakeItem(before, items[0], tail);
      TakeItems(before + [items[0]], items[1..], rest);
      assert before + [items[0]] + items[1..] == before + items;
    }
  }

  lemma {:induction false} SentenceJoins(words: seq<string>)
    requires words != []
    ensures JoinWithBlanks(words) == Sentence(words)
    decreases |words|
  {
    if |words| == 1 {
    } else {
      var init, last := words[..|words| - 1], words[|words| - 1];
      SentenceJoins(init);
      JoinSnoc(init, last);
      assert init + [last] == words;
    }
  }

  lemma {:induction false} JoinSnoc(words: seq<string>, last: string)
    requires words != []
    ensures JoinWithBlanks(words + [last]) == JoinWithBlanks(words) + " " + last
    decreases |words|
  {
    var all := words + [last];
    assert all[1..] == words[1..] + [last];
    if |words| == 1 {
      assert all[1..] == [last];
    } else {
      JoinSnoc(words[1..], last);
      var first, mid := words[0] + " ", JoinWithBlanks(words[1..]);
      assert first + (mid + " " + last) == first + mid + " " + last;
    }
  }

  /** What the end of the vector makes of what was collected. */
  lemma TakeEnding(items: seq<Item>, e: Ending)
    requires IsEnding(e)
    ensures Take(SpellEnding(e), Collected(items)) ==
      match e
      case Done => Some(Collected(items))
      case Message(words) =>
        if words == [] || !HasDestination(items) then None
        else Some(Collected(items).(message := Some(Sentence(words))))
      case Dangling(_) => None
  {
    match e
    case Done =>
    case Message(words) =>
      assert SpellEnding(e)[1..] == words;
      if words != [] { SentenceJoins(words); }
    case Dangling(_) =>
  }

  lemma TakeSpelled(items: seq<Item>, e: Ending)
    requires AreItems(items) && IsEnding(e)
    ensures Take(Spell(items) + SpellEnding(e), NO_OPTIONS) ==
      match e
      case Done => Some(Collected(items))
      case Message(words) =>
        if words == [] || !HasDestination(items) then None
        else Some(Collected(items).(message := Some(Sentence(words))))
      case Dangling(_) => None
  {
    hide Take;
    hide IsItem;
    TakeItems([], items, SpellEnding(e));
    assert [] + items == items;
    assert Collected([]) == NO_OPTIONS;
    TakeEnding(items, e);
  }

  lemma NoCommandWord(items: seq<Item>, e: Ending)
    requires AreItems(items) && IsEnding(e) && IsCommand(None, items)
    ensures !IsCommandWord(Spell(items) + SpellEnding(e))
  {
    if items == [] {
    } else {
      ItemStart(items[0]);
      hide SpellItem;
      assert (Spell(items) + SpellEnding(e))[0] == SpellItem(items[0])[0];
    }
  }

  lemma ItemStart(i: Item)
    requires IsItem(i) && (i.Recipient? ==> i.name != "" && i.name[0] == '-')
    ensures SpellItem(i) != [] && SpellItem(i)[0] != "" && SpellItem(i)[0][0] == '-'
  {
  }

  /** `Create` makes of a spelled vector what it means. */
  lemma SpelledZwrite(cmd: Option<string>, items: seq<Item>, e: Ending)
    requires AreItems(items) && IsEnding(e) && IsCommand(cmd, items)
    ensures Create(Vector(cmd, items, e)) == Meant(cmd, items, e)
  {
    TakeSpelled(items, e);
    hide Given;
    hide Recipients;
    hide Take;
    var rest, args := Spell(items) + SpellEnding(e), Vector(cmd, items, e);
    if cmd.Some? {
      hide Spell;
      hide SpellEnding;
      hide AreItems;
      hide IsEnding;
      assert args[0] == cmd.value && args[1..] == rest;
    } else {
      NoCommandWord(items, e);
      hide Spell;
      hide SpellEnding;
      hide AreItems;
      hide IsEnding;
      assert args == rest;
    }
  }

  /** Every vector is spelled like that, so `Create` is described on all of them. */
  lemma EveryVectorIsSpelled(argv: seq<string>) returns (cmd: Option<string>, items: seq<Item>, e: Ending)
    ensures AreItems(items) && IsEnding(e) && IsCommand(cmd, items)
    ensures argv == Vector(cmd, items, e)
  {
    if argv != [] && (argv[0] == "" || argv[0][0] != '-') {
      cmd := Some(argv[0]);
      items, e := ItemsOf(argv[1..]);
      assert argv == [argv[0]] + argv[1..];
    } else {
      cmd := None;
      items, e := ItemsOf(argv);
      assert argv == [] + argv;
      if items != [] { assert argv[0] == SpellItem(items[0])[0]; }
    }
  }

  lemma {:induction false} ItemsOf(argv: seq<string>) returns (items: seq<Item>, e: Ending)
    ensures AreItems(items) && IsEnding(e) && argv == Spell(items) + SpellEnding(e)
    decreases |argv|
  {
    items := [];
    if argv == [] {
      e := Done;
    } else if argv[0] == "-m" {
      e := Message(argv[1..]);
      assert argv == ["-m"] + argv[1..];
    } else if WantsValue(argv[0]) && |argv| == 1 {
      e := Dangling(argv[0]);
    } else {
      var first :=
        if WantsValue(argv[0]) then Valued(argv[0], argv[1])
        else if argv[0] == "-C" then CarbonCopy else if argv[0] == "-n" then NoPing else Recipient(argv[0]);
      var n := if first.Valued? then 2 else 1;
      assert argv[..n] == SpellItem(first);
      items, e := ItemsOf(argv[n..]);
      items := PutItem(first, items, SpellEnding(e));
      assert argv == argv[..n] + argv[n..];
    }
  }

  lemma PutItem(first: Item, items: seq<Item>, rest: seq<string>) returns (all: seq<Item>)
    requires IsItem(first) && AreItems(items)
    ensures AreItems(all) && Spell(all) + rest == SpellItem(first) + (Spell(items) + rest)
  {
    all := [first] + items;
    assert all[1..] == items;
  }

  // -------------------------------------------------------- what is typed at the end

  /** A vector that makes a zwrite without a message ends after an item. */
  lemma Unfinished(pre: seq<string>) returns (cmd: Option<string>, items: seq<Item>)
    requires Create(pre).Some? && Create(pre).value.message == None
    ensures AreItems(items) && IsCommand(cmd, items) && items != [] && HasDestination(items)
    ensures pre == Vector(cmd, items, Done) && Create(pre) == Meant(cmd, items, Done)
  {
    hide Create;
    var e: Ending;
    cmd, items, e := EveryVectorIsSpelled(pre);
    SpelledZwrite(cmd, items, e);
    assert e == Done && items != [];
  }

  /** After -m all words are the message, a blank between each two, and there must be one. */
  lemma MessageIsTyped(pre: seq<string>, words: seq<string>)
    requires Create(pre).Some? && Create(pre).value.message == None
    ensures Create(pre + (["-m"] + words)) ==
            if words == [] then None else Some(Create(pre).value.(message := Some(Sentence(words))))
  {
    hide Create;
    hide AreItems;
    hide IsCommand;
    hide Vector;
    var cmd, items := Unfinished(pre);
    SpelledZwrite(cmd, items, Message(words));
    VectorWithMessage(cmd, items, words);
    hide HasDestination;
    hide Given;
    hide Recipients;
    hide Sentence;
  }

  lemma VectorWithMessage(cmd: Option<string>, items: seq<Item>, words: seq<string>)
    ensures Vector(cmd, items, Message(words)) == Vector(cmd, items, Done) + (["-m"] + words)
  {
    hide Spell;
    assert Spell(items) + [] == Spell(items);
  }

  lemma {:induction false} SpellSnoc(items: seq<Item>, i: Item)
    ensures Spell(items + [i]) == Spell(items) + SpellItem(i)
    decreases |items|
  {
    hide SpellItem;
    var all := items + [i];
    if items == [] {
      assert all[1..] == [];
    } else {
      assert all[1..] == items[1..] + [i];
      SpellSnoc(items[1..], i);
      assert SpellItem(items[0]) + (Spell(items[1..]) + SpellItem(i)) == Spell(items) + SpellItem(i);
    }
  }

  /** One more option, flag or recipient changes just what it names. */
  lemma ItemIsTyped(pre: seq<string>, i: Item)
    requires Create(pre).Some? && Create(pre).value.message == None && IsItem(i)
    ensures Create(pre + SpellItem(i)) == Some(Changed(Create(pre).value, i))
  {
    hide Create;
    hide IsItem;
    hide Changed;
    var cmd, items := Unfinished(pre);
    var all := items + [i];
    ItemChanges(cmd, items, i);
    SpellSnoc(items, i);
    hide Spell;
    hide SpellItem;
    hide HasDestination;
    hide Meant;
    assert all[0] == items[0];
    assert Vector(cmd, all, Done) == pre + SpellItem(i);
    SpelledZwrite(cmd, all, Done);
  }

  function Changed(z: Zwrite, i: Item): Zwrite {
    match i
    case Valued(option, value) =>
      if option == "-c" then z.(cls := value)
      else if option == "-i" then z.(inst := value)
      else if option == "-r" then z.(realm := value)
      else if option == "-O" then z.(opcode := value)
      else z.(zsig := Some(value))
    case CarbonCopy => z.(cc := true)
    case NoPing => z.(noping := true)
    case Recipient(name) => z.(recips := z.recips + [name])
  }

  lemma ItemChanges(cmd: Option<string>, items: seq<Item>, i: Item)
    requires HasDestination(items) && IsItem(i)
    ensures Meant(cmd, items + [i], Done) == Some(Changed(Meant(cmd, items, Done).value, i))
  {
    CollectedSnoc(items, i);
    hide Given;
    hide Recipients;
    var before, after := Collected(items), Collected(items + [i]);
    assert after == WithItem(before, i);
  }

  // --------------------------------------------------------------------- carbon copies

  /** All recipients in order, each with the realm if there is one, and a blank after each. */
  function Addresses(recips: seq<string>, realm: string): string {
    if recips == [] then ""
    else recips[0] + (if realm == "" then "" else "@" + realm) + " " + Addresses(recips[1..], realm)
  }

  lemma {:induction false} AddressesSnoc(recips: seq<string>, realm: string, last: string)
    ensures Addresses(recips + [last], realm) ==
            Addresses(recips, realm) + (last + (if realm == "" then "" else "@" + realm) + " ")
    decreases |recips|
  {
    var all := recips + [last];
    if recips == [] {
      assert all[1..] == [] && Addresses([], realm) == "";
    } else {
      assert all[1..] == recips[1..] + [last];
      AddressesSnoc(recips[1..], realm, last);
    }
  }

  lemma {:induction false} CopiesAreAddresses(recips: seq<string>, realm: string)
    ensures CarbonCopies(recips, realm) == "CC: " + Addresses(recips, realm)
    decreases |recips|
  {
    if recips == [] {
    } else {
      var init, last := recips[..|recips| - 1], recips[|recips| - 1];
      CopiesAreAddresses(init, realm);
      assert init + [last] == recips;
      AddressesSnoc(init, realm, last);
      hide Addresses;
      var head, address := Addresses(init, realm), Address(last, realm);
      assert address == last + (if realm == "" then "" else "@" + realm) by {
        hide CarbonCopies;
        assert last + "" == last;
        assert last + "@" + realm == last + ("@" + realm);
      }
      hide Address;
      assert "CC: " + head + address + " " == "CC: " + (head + (address + " "));
    }
  }

  /** The text that is sent: the tidied words, after a line with all recipients exactly if
      copies were asked for and some recipient is neither empty nor a realm. */
  lemma CopiesAreNamed(z: Zwrite, tidy: string -> string)
    requires z.message.Some?
    ensures WithText(z, tidy) == z.(message := Some(
      (if z.cc && (exists i :: 0 <= i < |z.recips| && z.recips[i] != "" && z.recips[i][0] != '@')
       then "CC: " + Addresses(z.recips, z.realm) + "\n" else "") + tidy(z.message.value)))
  {
    CopiesAreAddresses(z.recips, z.realm);
    assert "" + tidy(z.message.value) == tidy(z.message.value);
    if AnyPersonal(z.recips) {
      var i :| 0 <= i < |z.recips| && IsPersonal(z.recips[i]);
      assert z.recips[i] != "" && z.recips[i][0] != '@';
    } else {
      assert forall i :: 0 <= i < |z.recips| ==> !IsPersonal(z.recips[i]);
    }
  }
}

/** Composing a zwrite from an argument vector and writing the line that replies to it
    (zwrite.c). */
module Zwrites {
  import opened Strings
  import opened Quoting

  /** What the option loop has collected so far. */
  datatype Options = Options(cls: Option<string>, inst: Option<string>, realm: Option<string>,
                             opcode: Option<string>, zsig: Option<string>,
                             cc: bool, noping: bool, recips: seq<string>, message: Option<string>)

  const NO_OPTIONS := Options(None, None, None, None, None, false, false, [], None)

  /** A finished zwrite. */
  datatype Zwrite = Zwrite(cmd: Option<string>, cls: string, inst: string, realm: string, opcode: string,
                           zsig: Option<string>, cc: bool, noping: bool, recips: seq<string>,
                           message: Option<string>)

  predicate TakesValue(arg: string) { arg == "-c" || arg == "-i" || arg == "-r" || arg == "-s" || arg == "-O" }

  function WithValue(o: Options, option: string, value: string): Options {
    if option == "-c" then o.(cls := Some(value))
    else if option == "-i" then o.(inst := Some(value))
    else if option == "-r" then o.(realm := Some(value))
    else if option == "-s" then o.(zsig := Some(value))
    else o.(opcode := Some(value))
  }

  /** `g_strjoinv(" ", argv)`. */
  function JoinWithBlanks(argv: seq<string>): string {
    if argv == [] then "" else if |argv| == 1 then argv[0] else argv[0] + " " + JoinWithBlanks(argv[1..])
  }

  /** One turn of the option loop: refuse, go on with the rest, or stop at a message. */
  datatype Turn = Bad | More(o: Options, rest: seq<string>) | Last(o: Options)

  function TakeOne(argv: seq<string>, o: Options): (t: Turn)
    requires argv != []
    ensures t.More? ==> |t.rest| < |argv|
  {
    if TakesValue(argv[0]) then
      if |argv| < 2 then Bad else More(WithValue(o, argv[0], argv[1]), argv[2..])
    else if argv[0] == "-m" then
      if |argv| < 2 || (o.recips == [] && o.cls == None && o.inst == None) then Bad
      else Last(o.(message := Some(JoinWithBlanks(argv[1..]))))
    else if argv[0] == "-C" then More(o.(cc := true), argv[1..])
    else if argv[0] == "-n" then More(o.(noping := true), argv[1..])
    else More(o.(recips := o.recips + [argv[0]]), argv[1..])
  }

  /** The option loop; None stands for bad arguments. */
  function Take(argv: seq<string>, o: Options): Option<Options>
    decreases |argv|
  {
    if argv == [] then Some(o)
    else match TakeOne(argv, o)
      case Bad => None
      case Last(o') => Some(o')
      case More(o', rest) => Take(rest, o')
  }

  function OrElse(x: Option<string>, default: string): string {
    match x
    case Some(v) => v
    case None => default
  }

  predicate IsCommandWord(argv: seq<string>) { argv != [] && (argv[0] == "" || argv[0][0] != '-') }

  /** What `owl_zwrite_create` builds. */
  function Create(argv: seq<string>): Option<Zwrite> {
    var cmd := if IsCommandWord(argv) then Some(argv[0]) else None;
    match Take(if IsCommandWord(argv) then argv[1..] else argv, NO_OPTIONS)
    case None => None
    case Some(o) =>
      if o.cls == None && o.inst == None && o.recips == [] then None
      else Some(WithDefaults(cmd, o))
  }

  function WithDefaults(cmd: Option<string>, o: Options): Zwrite {
    Zwrite(cmd, OrElse(o.cls, "message"), OrElse(o.inst, "personal"), OrElse(o.realm, ""), OrElse(o.opcode, ""),
           o.zsig, o.cc, o.noping, o.recips, o.message)
  }

  /** `owl_zwrite_get_recip_n_with_realm`. */
  function Address(recip: string, realm: string): string {
    if realm != "" then recip + "@" + realm else recip
  }

  predicate IsPersonal(recip: string) { recip != "" && recip[0] != '@' }

  /** `owl_zwrite_is_personal`. */
  predicate AnyPersonal(recips: seq<string>) { exists i :: 0 <= i < |recips| && IsPersonal(recips[i]) }

  /** The line that names all recipients of a CC. */
  function CarbonCopies(recips: seq<string>, realm: string): string {
    if recips == [] then "CC: "
    else CarbonCopies(recips[..|recips| - 1], realm) + Address(recips[|recips| - 1], realm) + " "
  }

  /** The text sent for the words of a message: a CC to anyone in person starts with a line
      naming all recipients. */
  function MessageText(z: Zwrite, text: string): string {
    if z.cc && AnyPersonal(z.recips) then CarbonCopies(z.recips, z.realm) + "\n" + text else text
  }

  function WithText(z: Zwrite, tidy: string -> string): Zwrite {
    if z.message == None then z else z.(message := Some(MessageText(z, tidy(z.message.value))))
  }

  /** The struct `owl_zwrite` while it is being filled in. */
  class ZwriteObject {
    /** What the validation of the encoding and the expansion of tabs make of a message. */
    const tidy: string -> string
    var cmd: Option<string>
    var cls: Option<string>
    var inst: Option<string>
    var realm: Option<string>
    var opcode: Option<string>
    var zsig: Option<string>
    var message: Option<string>
    var cc: bool
    var noping: bool
    var recips: seq<string>
    var zwriteline: string

    constructor (tidy: string -> string) {
      this.tidy := tidy;
    }

    ghost function Collected(): Options
      reads this
    {
      Options(cls, inst, realm, opcode, zsig, cc, noping, recips, message)
    }

    /** The finished value, once class, instance, realm and opcode are set. */
    function Value(): Option<Zwrite>
      reads this
    {
      if cls == None || inst == None || realm == None || opcode == None then None
      else Some(Zwrite(cmd, cls.value, inst.value, realm.value, opcode.value, zsig, cc, noping, recips, message))
    }

    /** The body of the option loop. `badargs` and `gobbled` are its two early exits. */
    method TakeTurn(argv: seq<string>) returns (rest: seq<string>, badargs: bool, gobbled: bool)
      requires argv != []
      modifies this
      ensures match TakeOne(argv, old(Collected()))
        case Bad => badargs
        case Last(o) => !badargs && gobbled && Collected() == o
        case More(o, r) => !badargs && !gobbled && Collected() == o && rest == r
      ensures cmd == old(cmd) && zwriteline == old(zwriteline)
    {
      rest, badargs, gobbled := argv, false, false;
      if TakesValue(argv[0]) {
        if |argv| < 2 { return rest, true, false; }
        if argv[0] == "-c" { cls := Some(argv[1]); }
        else if argv[0] == "-i" { inst := Some(argv[1]); }
        else if argv[0] == "-r" { realm := Some(argv[1]); }
        else if argv[0] == "-s" { zsig := Some(argv[1]); }
        else { opcode := Some(argv[1]); }
        rest := argv[2..];
      } else if argv[0] == "-m" {
        if |argv| < 2 || (|recips| < 1 && cls == None && inst == None) { return rest, true, false; }
        message := Some(JoinWithBlanks(argv[1..]));
        gobbled := true;
      } else if argv[0] == "-C" {
        cc, rest := true, argv[1..];
      } else if argv[0] == "-n" {
        noping, rest := true, argv[1..];
      } else {
        recips, rest := recips + [argv[0]], argv[1..];
      }
    }

    /** `owl_zwrite_create`: returns 0, or -1 for arguments it refuses. */
    method Fill(args: seq<string>) returns (rv: int)
      modifies this
      ensures rv == if Create(args) == None then -1 else 0
      ensures rv == 0 ==> Value() == Some(WithText(Create(args).value, tidy)) && zwriteline == QuoteArgv(args)
    {
      hide Take;
      hide WithDefaults;
      hide WithText;
      hide QuoteArgv;
      cmd, realm, cls, inst, opcode, zsig, message := None, None, None, None, None, None, None;
      cc, noping, recips := false, false, [];
      zwriteline := ArgvQuote(args);
      var argv := args;
      if IsCommandWord(argv) {
        cmd := Some(argv[0]);
        argv := argv[1..];
      }
      var badargs := TakeAll(argv);
      if badargs { return -1; }
      if cls == None && inst == None && recips == [] { return -1; }
      SetDefaults();
      SetMessage();
      return 0;
    }

    /** The option loop. */
    method TakeAll(args: seq<string>) returns (badargs: bool)
      modifies this
      ensures badargs <==> Take(args, old(Collected())) == None
      ensures !badargs ==> Take(args, old(Collected())) == Some(Collected())
      ensures cmd == old(cmd) && zwriteline == old(zwriteline)
    {
      hide TakeOne;
      var argv := args;
      while argv != []
        invariant Take(argv, Collected()) == Take(args, old(Collected()))
        invariant cmd == old(cmd) && zwriteline == old(zwriteline)
        decreases |argv|
      {
        var rest, bad, gobbled := TakeTurn(argv);
        if bad { return true; }
        argv := if gobbled then [] else rest;
      }
      return false;
    }

    /** `owl_zwrite_set_message`, for the words collected. */
    method SetMessage()
      requires Value() != None
      modifies this`message
      ensures Value() == Some(WithText(old(Value()).value, tidy))
    {
      if message == None { return; }
      hide CarbonCopies;
      hide AnyPersonal;
      var personal := HasPersonal();
      if cc && personal {
        var line := CarbonCopyLine(realm.value);
        message := Some(line + "\n" + tidy(message.value));
      } else {
        message := Some(tidy(message.value));
      }
    }

    method CarbonCopyLine(realm: string) returns (line: string)
      ensures line == CarbonCopies(recips, realm)
    {
      line := "CC: ";
      var i := 0;
      while i < |recips|
        invariant 0 <= i <= |recips| && line == CarbonCopies(recips[..i], realm)
      {
        assert recips[..i + 1][..i] == recips[..i];
        line := line + Address(recips[i], realm) + " ";
        i := i + 1;
      }
      assert recips[..i] == recips;
    }

    /** `owl_zwrite_is_personal`. */
    method HasPersonal() returns (b: bool)
      ensures b <==> AnyPersonal(recips)
    {
      var i := 0;
      while i < |recips|
        invariant 0 <= i <= |recips| && forall j :: 0 <= j < i ==> !IsPersonal(recips[j])
      {
        if IsPersonal(recips[i]) { return true; }
        i := i + 1;
      }
      return false;
    }

    method SetDefaults()
      modifies this
      ensures Value() == Some(WithDefaults(old(cmd), old(Collected()))) && zwriteline == old(zwriteline)
    {
      if cls == None { cls := Some("message"); }
      if inst == None { inst := Some("personal"); }
      if realm == None { realm := Some(""); }
      if opcode == None { opcode := Some(""); }
    }
  }

  // -------------------------------------------------------------- the reply line

  function OptionArgs(option: string, value: string, default: string): seq<string> {
    if value == default then [] else [option, value]
  }

  /** The recipients a reply goes to: all of them for a CC, else the chosen one. */
  function ReplyRecips(z: Zwrite, index: nat): seq<string> {
    if z.cc then z.recips else if index < |z.recips| then [z.recips[index]] else []
  }

  /** The arguments a reply is made of, in the order of the zwrite help. */
  function ReplyArgs(z: Zwrite, index: nat): seq<string> {
    [OrElse(z.cmd, "zwrite")] +
    ((if z.noping then ["-n"] else []) + ((if z.cc then ["-C"] else []) +
    IdentityArgs(z, ReplyRecips(z, index))))
  }

  /** Appending arguments to a line one at a time. */
  function AppendArgs(buf: string, args: seq<string>): string
    decreases |args|
  {
    if args == [] then buf else AppendArgs(buf + " " + Quote(args[0]), args[1..])
  }

  lemma {:induction false} AppendArgsConcat(buf: string, a: seq<string>, b: seq<string>)
    ensures AppendArgs(buf, a + b) == AppendArgs(AppendArgs(buf, a), b)
    decreases |a|
  {
    if a == [] {
      assert a + b == b;
    } else {
      assert (a + b)[1..] == a[1..] + b;
      AppendArgsConcat(buf + " " + Quote(a[0]), a[1..], b);
    }
  }

  lemma {:induction false} AppendArgsQuotes(done: seq<string>, args: seq<string>)
    requires done != []
    ensures AppendArgs(QuoteArgv(done), args) == QuoteArgv(done + args)
    decreases |args|
  {
    hide Quote;
    if args == [] {
      assert done + args == done;
    } else {
      QuoteArgvSnoc(done, args[0]);
      AppendArgsQuotes(done + [args[0]], args[1..]);
      assert (done + [args[0]]) + args[1..] == done + args;
    }
  }

  /** One optional `-x value` of the reply line. */
  method AppendOption(buf: string, option: string, value: string, default: string) returns (out: string)
    requires option != "" && NoneNasty(option)
    ensures out == AppendArgs(buf, OptionArgs(option, value, default))
  {
    out := buf;
    if value != default {
      out := out + " " + option + " ";
      out := AppendQuotedArg(out, value);
      var args := [option, value];
      assert args[1..] == [value];
      assert AppendArgs(buf, args) == AppendArgs(buf + " " + option, [value]) ==
        buf + " " + option + " " + Quote(value);
    }
  }

  /** `owl_zwrite_get_replyline`. */
  method ReplyLine(z: Zwrite, recip_index: nat) returns (buf: string)
    ensures buf == QuoteArgv(ReplyArgs(z, recip_index))
  {
    buf := AppendQuotedArg("", OrElse(z.cmd, "zwrite"));
    hide Quote;
    ghost var first := [OrElse(z.cmd, "zwrite")];
    ghost var flags := if z.noping then ["-n"] else [];
    ghost var flagC := if z.cc then ["-C"] else [];
    ghost var b0 := buf;
    assert b0 == QuoteArgv(first);
    if z.noping {
      FlagText(buf, "-n");
      buf := buf + " -n";
    }
    ghost var b1 := buf;
    if z.cc {
      FlagText(buf, "-C");
      buf := buf + " -C";
    }
    ghost var b2 := buf;
    assert b1 == AppendArgs(b0, flags) && b2 == AppendArgs(b1, flagC);
    ghost var c := OptionArgs("-c", z.cls, "message");
    ghost var i := OptionArgs("-i", z.inst, "personal");
    ghost var r := OptionArgs("-r", z.realm, "");
    ghost var op := OptionArgs("-O", z.opcode, "");
    buf := AppendOption(buf, "-c", z.cls, "message");
    ghost var b3 := buf;
    buf := AppendOption(buf, "-i", z.inst, "personal");
    ghost var b4 := buf;
    buf := AppendOption(buf, "-r", z.realm, "");
    ghost var b5 := buf;
    buf := AppendOption(buf, "-O", z.opcode, "");
    ghost var b6 := buf;
    ghost var to := ReplyRecips(z, recip_index);
    buf := AppendRecips(buf, z, recip_index);
    AppendArgsConcat(b0, flags, flagC + (c + (i + (r + (op + to)))));
    AppendArgsConcat(b1, flagC, c + (i + (r + (op + to))));
    AppendArgsConcat(b2, c, i + (r + (op + to)));
    AppendArgsConcat(b3, i, r + (op + to));
    AppendArgsConcat(b4, r, op + to);
    AppendArgsConcat(b5, op, to);
    AppendArgsQuotes(first, flags + (flagC + (c + (i + (r + (op + to))))));
  }

  lemma FlagText(buf: string, flag: string)
    requires flag != "" && NoneNasty(flag)
    ensures AppendArgs(buf, [flag]) == buf + (" " + flag)
  {
  }

  /** The recipients at the end of the reply line. */
  method AppendRecips(start: string, z: Zwrite, recip_index: nat) returns (buf: string)
    ensures buf == AppendArgs(start, ReplyRecips(z, recip_index))
  {
    hide Quote;
    buf := start;
    if z.cc {
      var i := 0;
      while i < |z.recips|
        invariant 0 <= i <= |z.recips|
        invariant AppendArgs(buf, z.recips[i..]) == AppendArgs(start, z.recips)
      {
        assert z.recips[i..][1..] == z.recips[i + 1..];
        buf := AppendQuotedArg(buf + " ", z.recips[i]);
        i := i + 1;
      }
    } else if recip_index < |z.recips| {
      buf := AppendQuotedArg(buf + " ", z.recips[recip_index]);
      assert [z.recips[recip_index]][1..] == [];
    }
  }

  // ------------------------------------------------------------- the round trip

  predicate IsOption(arg: string) { TakesValue(arg) || arg == "-m" || arg == "-C" || arg == "-n" }

  lemma {:induction false} TakeRecipsAreNotOptions(argv: seq<string>, o: Options)
    requires forall i :: 0 <= i < |o.recips| ==> !IsOption(o.recips[i])
    requires Take(argv, o).Some?
    ensures forall i :: 0 <= i < |Take(argv, o).value.recips| ==> !IsOption(Take(argv, o).value.recips[i])
    decreases |argv|
  {
    if argv == [] {
    } else {
      if TakesValue(argv[0]) {
        TakeRecipsAreNotOptions(argv[2..], WithValue(o, argv[0], argv[1]));
      } else if argv[0] == "-m" {
      } else if argv[0] == "-C" {
        TakeRecipsAreNotOptions(argv[1..], o.(cc := true));
      } else if argv[0] == "-n" {
        TakeRecipsAreNotOptions(argv[1..], o.(noping := true));
      } else {
        TakeRecipsAreNotOptions(argv[1..], o.(recips := o.recips + [argv[0]]));
      }
    }
  }

  lemma {:induction false} TakeRecips(recips: seq<string>, o: Options)
    requires forall i :: 0 <= i < |recips| ==> !IsOption(recips[i])
    ensures Take(recips, o) == Some(o.(recips := o.recips + recips))
    decreases |recips|
  {
    if recips == [] {
      assert o.recips + recips == o.recips;
    } else {
      assert !IsOption(recips[0]);
      TakeRecips(recips[1..], o.(recips := o.recips + [recips[0]]));
      assert o.recips + [recips[0]] + recips[1..] == o.recips + recips;
    }
  }

  lemma TakeOption(option: string, value: string, default: string, rest: seq<string>, o: Options)
    requires TakesValue(option)
    ensures Take(OptionArgs(option, value, default) + rest, o) ==
            Take(rest, if value == default then o else WithValue(o, option, value))
  {
    if value == default {
      assert OptionArgs(option, value, default) + rest == rest;
    } else {
      assert (OptionArgs(option, value, default) + rest)[2..] == rest;
    }
  }

  lemma TakeFlags(noping: bool, cc: bool, rest: seq<string>)
    ensures Take((if noping then ["-n"] else []) + ((if cc then ["-C"] else []) + rest), NO_OPTIONS) ==
            Take(rest, NO_OPTIONS.(noping := noping, cc := cc))
  {
    var c := (if cc then ["-C"] else []) + rest;
    TakeNoPing(noping, c, NO_OPTIONS);
    hide Take;
    TakeCarbonCopy(cc, rest, NO_OPTIONS.(noping := noping));
  }

  lemma TakeNoPing(noping: bool, rest: seq<string>, o: Options)
    requires !o.noping
    ensures Take((if noping then ["-n"] else []) + rest, o) == Take(rest, o.(noping := noping))
  {
    if noping {
      assert (["-n"] + rest)[1..] == rest;
    } else {
      assert [] + rest == rest;
    }
  }

  lemma TakeCarbonCopy(cc: bool, rest: seq<string>, o: Options)
    requires !o.cc
    ensures Take((if cc then ["-C"] else []) + rest, o) == Take(rest, o.(cc := cc))
  {
    if cc {
      assert (["-C"] + rest)[1..] == rest;
    } else {
      assert [] + rest == rest;
    }
  }

  /** Reading the reply's arguments back. */
  lemma TakeReply(z: Zwrite, index: nat)
    requires forall i :: 0 <= i < |z.recips| ==> !IsOption(z.recips[i])
    ensures Take(ReplyArgs(z, index)[1..], NO_OPTIONS) == Some(Options(
      if z.cls == "message" then None else Some(z.cls), if z.inst == "personal" then None else Some(z.inst),
      if z.realm == "" then None else Some(z.realm), if z.opcode == "" then None else Some(z.opcode),
      None, z.cc, z.noping, ReplyRecips(z, index), None))
  {
    var to := ReplyRecips(z, index);
    var o0 := NO_OPTIONS.(noping := z.noping, cc := z.cc);
    TakeIdentity(z, to, o0);
    var o := Identity(z, o0);
    TakeRecips(to, o);
    assert [] + to == to;
    var rest := IdentityArgs(z, to);
    TakeFlags(z.noping, z.cc, rest);
    var all := ReplyArgs(z, index);
    assert all[1..] == (if z.noping then ["-n"] else []) + ((if z.cc then ["-C"] else []) + rest);
  }

  function IdentityArgs(z: Zwrite, to: seq<string>): seq<string> {
    OptionArgs("-c", z.cls, "message") + (OptionArgs("-i", z.inst, "personal") +
    (OptionArgs("-r", z.realm, "") + (OptionArgs("-O", z.opcode, "") + to)))
  }

  function Identity(z: Zwrite, o: Options): Options {
    Options(if z.cls == "message" then o.cls else Some(z.cls), if z.inst == "personal" then o.inst else Some(z.inst),
            if z.realm == "" then o.realm else Some(z.realm), if z.opcode == "" then o.opcode else Some(z.opcode),
            o.zsig, o.cc, o.noping, o.recips, o.message)
  }

  lemma TakeIdentity(z: Zwrite, to: seq<string>, o0: Options)
    ensures Take(IdentityArgs(z, to), o0) == Take(to, Identity(z, o0))
  {
    hide Take;
    hide OptionArgs;
    var rest4 := OptionArgs("-O", z.opcode, "") + to;
    var rest3 := OptionArgs("-r", z.realm, "") + rest4;
    var rest2 := OptionArgs("-i", z.inst, "personal") + rest3;
    TakeOption("-c", z.cls, "message", rest2, o0);
    var o1 := if z.cls == "message" then o0 else o0.(cls := Some(z.cls));
    TakeOption("-i", z.inst, "personal", rest3, o1);
    var o2 := if z.inst == "personal" then o1 else o1.(inst := Some(z.inst));
    TakeOption("-r", z.realm, "", rest4, o2);
    var o3 := if z.realm == "" then o2 else o2.(realm := Some(z.realm));
    TakeOption("-O", z.opcode, "", to, o3);
  }

  lemma CreateFacts(argv: seq<string>)
    requires Create(argv).Some?
    ensures var z := Create(argv).value;
            (forall i :: 0 <= i < |z.recips| ==> !IsOption(z.recips[i])) &&
            (z.cmd.Some? ==> IsCommandWord([z.cmd.value]))
  {
    TakeRecipsAreNotOptions(if IsCommandWord(argv) then argv[1..] else argv, NO_OPTIONS);
  }

  /** Whatever `owl_zwrite_create` accepted, its reply line reads back as the same
      conversation, if and only if the line names anyone or anything to write to: a class
      or an instance that is not the default one, or a recipient. It goes to all recipients
      for a CC, else to the chosen one, and has no signature and no message. */
  lemma ReplyRoundTrip(argv: seq<string>, index: nat)
    requires Create(argv).Some?
    ensures var z := Create(argv).value;
            var line := QuoteArgv(ReplyArgs(z, index));
            var to := if z.cc then z.recips else if index < |z.recips| then [z.recips[index]] else [];
            Parse(line).Some? &&
            Create(Parse(line).value) ==
              if z.cls == "message" && z.inst == "personal" && to == [] then None
              else Some(z.(cmd := if z.cmd == None then Some("zwrite") else z.cmd, recips := to,
                           zsig := None, message := None))
  {
    hide QuoteArgv;
    hide Parse;
    hide Take;
    hide IdentityArgs;
    var z := Create(argv).value;
    CreateFacts(argv);
    QuotingRoundTrip(ReplyArgs(z, index));
    var args := ReplyArgs(z, index);
    assert args[0] == OrElse(z.cmd, "zwrite");
    assert IsCommandWord(args) by {
      if z.cmd.Some? { assert IsCommandWord([z.cmd.value]); }
    }
    TakeReply(z, index);
  }
}

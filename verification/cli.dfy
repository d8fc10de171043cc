/**
 * The option loop of infiping.py's `__main__` block: every argument is looked
 * at in turn, values included, and each flag overwrites its setting. A flag
 * that takes a value in the last position raises `IndexError`; a help flag
 * prints the usage (with the settings seen so far) and exits.
 */
module Cli {
  import opened Strings

  /**
   * A setting that is a number by default but that the command line replaces
   * with the raw text of the following argument (no conversion happens there).
   */
  datatype Setting = Default(number: int) | Given(text: string)

  datatype Config = Config(addresses: seq<string>, filename: string, timeToWait: Setting,
                           warn: bool, minimumTimeUp: Setting)

  /** The DNS servers pinged when `-a` is not given. */
  const DefaultAddresses: seq<string> :=
    ["1.1.1.1", "1.0.0.1", "8.8.8.8", "8.8.4.4", "9.9.9.9", "149.112.112.112", "208.67.222.222",
     "208.67.220.220", "185.228.168.9", "185.228.169.9", "76.76.19.19", "76.223.122.150",
     "94.140.14.14", "94.140.15.15"]

  const Defaults: Config := Config(DefaultAddresses, "ping.csv", Default(10), false, Default(60))

  datatype Flag = Addresses | Output | TimeToWait | Warn | MinimumTimeUp | Help

  /** Which flag an argument is, if any; every spelling the option loop recognises. */
  function FlagOf(option: string): Option<Flag> {
    if option == "-a" || option == "--addresses" then Some(Addresses)
    else if option == "-o" || option == "--output" then Some(Output)
    else if option == "-t" || option == "--time-to-wait" then Some(TimeToWait)
    else if option == "-w" || option == "--warn" then Some(Warn)
    else if option == "-m" || option == "--minimum-time-up" then Some(MinimumTimeUp)
    else if option == "-h" || option == "--help" || option == "h" || option == "help" then Some(Help)
    else None
  }

  predicate TakesValue(f: Flag) {
    f == Addresses || f == Output || f == TimeToWait || f == MinimumTimeUp
  }

  predicate IsHelp(option: string) {
    FlagOf(option) == Some(Help)
  }

  predicate IsValueFlag(option: string) {
    FlagOf(option).Some? && TakesValue(FlagOf(option).value)
  }

  /** How the option loop ends: it runs the monitor, prints the help, or raises `IndexError`. */
  datatype Parsed = Run(config: Config) | HelpShown(config: Config) | MissingValue(position: nat)

  /** The strip chain applied to elements before the closing one: "]" then "[" then ",". */
  function Strip(argument: string): string {
    RemoveSuffix(RemovePrefix(RemoveSuffix(argument, ']'), '['), ',')
  }

  /** What the bracket loop appends for one argument, given whether `end` was already set. */
  function Emitted(argument: string, ended: bool): seq<string> {
    (if EndsWith(argument, "]") then [RemoveSuffix(argument, ']')] else [])
    + (if ended || EndsWith(argument, "]") then [] else [Strip(argument)])
  }

  /** Whether `end` is set once the first `j` arguments after `-a` have been seen. */
  function ClosedWithin(rest: seq<string>, j: nat): (closed: bool)
    requires j <= |rest|
  {
    j > 0 && (ClosedWithin(rest, j - 1) || EndsWith(rest[j - 1], "]"))
  }

  /**
   * The bracket loop over the first `j` arguments after `-a`: an argument ending
   * in "]" is appended with only that "]" removed and sets `end`; until `end` is
   * set, every argument is appended stripped.
   */
  function BracketedUpTo(rest: seq<string>, j: nat): (list: seq<string>)
    requires j <= |rest|
    ensures |list| <= j
  {
    if j == 0 then []
    else BracketedUpTo(rest, j - 1) + Emitted(rest[j - 1], ClosedWithin(rest, j - 1))
  }

  /** The whole bracket loop: every argument after `-a` is looked at. */
  function Bracketed(rest: seq<string>): (list: seq<string>)
    ensures |list| <= |rest|
  {
    BracketedUpTo(rest, |rest|)
  }

  /** Every argument with the strip chain applied. */
  function Stripped(arguments: seq<string>): (list: seq<string>)
    ensures |list| == |arguments|
  {
    seq(|arguments|, k requires 0 <= k < |arguments| => Strip(arguments[k]))
  }

  /** The arguments that end in "]", in order, each with only that "]" removed. */
  function Closers(arguments: seq<string>): seq<string> {
    if arguments == [] then []
    else
      var last := arguments[|arguments| - 1];
      Closers(arguments[..|arguments| - 1]) + (if EndsWith(last, "]") then [RemoveSuffix(last, ']')] else [])
  }

  /** The new address list for `-a` followed by `rest`: reset, then the bracket loop if `rest[0]` opens. */
  function AddressList(rest: seq<string>): (list: seq<string>)
    requires |rest| > 0
    ensures |list| <= |rest|
    ensures !StartsWith(rest[0], '[') ==> list == []
  {
    if StartsWith(rest[0], '[') then Bracketed(rest) else []
  }

  datatype Next = Continue(config: Config) | Stop(result: Parsed)

  /** The effect of the argument at position `i` on the settings seen so far. */
  function Apply(args: seq<string>, i: nat, c: Config): Next
    requires i < |args|
  {
    match FlagOf(args[i])
    case None => Continue(c)
    case Some(f) =>
      if TakesValue(f) && i + 1 == |args| then Stop(MissingValue(i))
      else
        match f
        case Addresses => Continue(c.(addresses := AddressList(args[i + 1..])))
        case Output => Continue(c.(filename := args[i + 1]))
        case TimeToWait => Continue(c.(timeToWait := Given(args[i + 1])))
        case Warn => Continue(c.(warn := true))
        case MinimumTimeUp => Continue(c.(minimumTimeUp := Given(args[i + 1])))
        case Help => Stop(HelpShown(c))
  }

  /** The option loop from position `i` on, with settings `c`. */
  function ParseFrom(args: seq<string>, i: nat, c: Config): Parsed
    requires i <= |args|
    decreases |args| - i
  {
    if i == |args| then Run(c)
    else
      match Apply(args, i, c)
      case Stop(r) => r
      case Continue(c') => ParseFrom(args, i + 1, c')
  }

  /** What the `__main__` block makes of `sys.argv[1:]`. */
  function Parse(args: seq<string>): Parsed {
    ParseFrom(args, 0, Defaults)
  }

  /** The spellings of each flag: the lists the option loop tests `option` against. */
  lemma FlagSpellings(option: string)
    ensures FlagOf(option) == Some(Addresses) <==> option == "-a" || option == "--addresses"
    ensures FlagOf(option) == Some(Output) <==> option == "-o" || option == "--output"
    ensures FlagOf(option) == Some(TimeToWait) <==> option == "-t" || option == "--time-to-wait"
    ensures FlagOf(option) == Some(Warn) <==> option == "-w" || option == "--warn"
    ensures FlagOf(option) == Some(MinimumTimeUp) <==> option == "-m" || option == "--minimum-time-up"
    ensures IsHelp(option) <==> option == "-h" || option == "--help" || option == "h" || option == "help"
  {
  }

  /**
   * The strip chain only drops brackets and a comma at the ends: a leading "[",
   * and a trailing "]", ",", or "," then "]". Text without them is kept as is,
   * and an element written `[text,` yields exactly `text`.
   */
  lemma StripMeaning(argument: string)
    ensures |argument| - 3 <= |Strip(argument)| <= |argument|
    ensures (forall i :: 0 <= i < |argument| ==> argument[i] != '[' && argument[i] != ']' && argument[i] != ',')
            ==> Strip(argument) == argument
    ensures Strip("[" + argument + ",") == argument
  {
    var wrapped := "[" + argument + ",";
    assert !EndsWith(wrapped, "]");
    assert RemovePrefix(wrapped, '[') == argument + ",";
    assert (argument + ",")[..|argument|] == argument;
  }

  /**
   * One argument of the bracket loop appends at most one element: an argument
   * ending in "]" always, with only that "]" removed; any other only before `end`.
   */
  lemma EmittedMeaning(argument: string, ended: bool)
    ensures |Emitted(argument, ended)| <= 1
    ensures EndsWith(argument, "]") ==> Emitted(argument, ended) == [argument[..|argument| - 1]]
    ensures !EndsWith(argument, "]") ==> (Emitted(argument, ended) == [] <==> ended)
  {
  }

  /**
   * One pass of the loop body: it stops at a help flag and at a value flag in
   * the last position (`args[iteration + 1]` raises), and otherwise changes at
   * most the setting of the flag it sees.
   */
  lemma ApplyMeaning(args: seq<string>, i: nat, c: Config)
    requires i < |args|
    ensures Apply(args, i, c).Stop? <==> IsHelp(args[i]) || (IsValueFlag(args[i]) && i + 1 == |args|)
    ensures IsHelp(args[i]) ==> Apply(args, i, c) == Stop(HelpShown(c))
    ensures IsValueFlag(args[i]) && i + 1 == |args| ==> Apply(args, i, c) == Stop(MissingValue(i))
    ensures FlagOf(args[i]).None? ==> Apply(args, i, c) == Continue(c)
    ensures Apply(args, i, c).Continue? && FlagOf(args[i]) != Some(Addresses) ==>
      Apply(args, i, c).config.addresses == c.addresses
    ensures Apply(args, i, c).Continue? && FlagOf(args[i]) != Some(Output) ==>
      Apply(args, i, c).config.filename == c.filename
    ensures Apply(args, i, c).Continue? ==> (Apply(args, i, c).config.warn <==> c.warn || FlagOf(args[i]) == Some(Warn))
  {
  }

  /**
   * Whatever settings the loop starts from at position `i`: `IndexError` can only
   * come from a value flag in the last position, the help only from a help flag
   * at or after `i`, and arguments that are no flag leave the settings as they are.
   */
  lemma {:induction false} ParseFromMeaning(args: seq<string>, i: nat, c: Config)
    requires i <= |args|
    decreases |args| - i
    ensures ParseFrom(args, i, c).MissingValue? ==>
      ParseFrom(args, i, c).position == |args| - 1 && IsValueFlag(args[|args| - 1])
    ensures ParseFrom(args, i, c).HelpShown? ==> exists j :: i <= j < |args| && IsHelp(args[j])
    ensures (forall j :: i <= j < |args| ==> FlagOf(args[j]).None?) ==> ParseFrom(args, i, c) == Run(c)
  {
    if i < |args| {
      ApplyMeaning(args, i, c);
      match Apply(args, i, c)
      case Stop(r) =>
      case Continue(c') =>
        ParseFromMeaning(args, i + 1, c');
    }
  }

  /** The bracket loop of the `-a` branch, with its `end` flag. */
  method ReadBracketList(rest: seq<string>) returns (addresses: seq<string>)
    ensures addresses == Bracketed(rest)
  {
    addresses := [];
    var end := false;
    for j := 0 to |rest|
      invariant addresses == BracketedUpTo(rest, j)
      invariant end == ClosedWithin(rest, j)
    {
      var argument := rest[j];
      if EndsWith(argument, "]") {
        addresses := addresses + [RemoveSuffix(argument, ']')];
        end := true;
      }
      argument := RemoveSuffix(argument, ']');
      argument := RemovePrefix(argument, '[');
      argument := RemoveSuffix(argument, ',');
      if !end {
        addresses := addresses + [argument];
      }
    }
  }

  /**
   * What the bracket loop collects, with `c` the first argument ending in "]"
   * (or the end): every argument before `c` stripped, then every argument from
   * `c` on that ends in "]", with only that "]" removed. So the closing element
   * keeps a leading "[" and a trailing ",", and a later argument ending in "]",
   * even one belonging to another option, still joins the list.
   */
  lemma BracketedShape(rest: seq<string>, c: nat)
    requires c <= |rest|
    requires forall k :: 0 <= k < c ==> !EndsWith(rest[k], "]")
    requires c < |rest| ==> EndsWith(rest[c], "]")
    ensures Bracketed(rest) == Stripped(rest[..c]) + Closers(rest[c..])
  {
    BracketedUpToShape(rest, c, |rest|);
    assert rest[c..|rest|] == rest[c..];
  }

  lemma {:induction false} BracketedUpToShape(rest: seq<string>, c: nat, j: nat)
    requires c <= |rest| && j <= |rest|
    requires forall k :: 0 <= k < c ==> !EndsWith(rest[k], "]")
    requires c < |rest| ==> EndsWith(rest[c], "]")
    ensures j <= c ==> BracketedUpTo(rest, j) == Stripped(rest[..j]) && !ClosedWithin(rest, j)
    ensures j > c ==> BracketedUpTo(rest, j) == Stripped(rest[..c]) + Closers(rest[c..j]) && ClosedWithin(rest, j)
  {
    if j > 0 {
      BracketedUpToShape(rest, c, j - 1);
      if j <= c {
        BeforeCloseStep(rest, j);
      } else {
        AfterCloseStep(rest, c, j);
      }
    }
  }

  lemma BeforeCloseStep(rest: seq<string>, j: nat)
    requires 0 < j <= |rest| && !EndsWith(rest[j - 1], "]")
    requires BracketedUpTo(rest, j - 1) == Stripped(rest[..j - 1]) && !ClosedWithin(rest, j - 1)
    ensures BracketedUpTo(rest, j) == Stripped(rest[..j]) && !ClosedWithin(rest, j)
  {
    assert Stripped(rest[..j]) == Stripped(rest[..j - 1]) + [Strip(rest[j - 1])];
  }

  lemma AfterCloseStep(rest: seq<string>, c: nat, j: nat)
    requires c < j <= |rest| && EndsWith(rest[c], "]")
    requires j - 1 == c ==> BracketedUpTo(rest, c) == Stripped(rest[..c]) && !ClosedWithin(rest, c)
    requires j - 1 > c ==>
               BracketedUpTo(rest, j - 1) == Stripped(rest[..c]) + Closers(rest[c..j - 1]) && ClosedWithin(rest, j - 1)
    ensures BracketedUpTo(rest, j) == Stripped(rest[..c]) + Closers(rest[c..j]) && ClosedWithin(rest, j)
  {
    assert rest[c..j][..|rest[c..j]| - 1] == rest[c..j - 1];
  }

  /** A one-argument list keeps its "[": `-a [1.1.1.1]` pings "[1.1.1.1". */
  lemma SingleArgumentKeepsBracket()
    ensures Bracketed(["[1.1.1.1]"]) == ["[1.1.1.1"]
  {
    var rest := ["[1.1.1.1]"];
    BracketedShape(rest, 0);
    assert rest[..0] == [] && rest[0..] == rest;
    assert rest[0][8..] == "]";
    assert RemoveSuffix(rest[0], ']') == "[1.1.1.1";
    assert Closers(rest) == Closers([]) + [RemoveSuffix(rest[0], ']')];
  }

  /** An argument ending in "]" after the list closed still joins it: `-a [a, b] -o c]`. */
  lemma LaterCloserJoins()
    ensures Bracketed(["[a,", "b]", "-o", "c]"]) == ["a", "b", "c"]
  {
    var rest := ["[a,", "b]", "-o", "c]"];
    assert rest[1][1..] == "]";
    BracketedShape(rest, 1);
    assert rest[..1] == ["[a,"];
    assert rest[0][2..] == ",";
    assert rest[0][2..] != "]";
    assert Strip(rest[0]) == "a";
    var tail := rest[1..];
    assert tail == ["b]", "-o", "c]"];
    assert tail[2][1..] == "]";
    assert tail[1][1..] != "]";
    assert tail[..2][..1] == ["b]"];
    assert tail[..2] == ["b]", "-o"];
    assert tail[..1][..0] == [];
    assert tail[0][..1] == "b";
    assert Closers(tail[..1]) == ["b"];
    assert Closers(tail[..2]) == ["b"];
    assert tail[2][..1] == "c";
    assert tail[..3] == tail;
    assert Closers(tail) == ["b", "c"];
  }

  /**
   * The same arguments as the option loop sees them: `c]` is both the output
   * file and the third address.
   */
  lemma LaterCloserJoinsParse()
    ensures Parse(["-a", "[a,", "b]", "-o", "c]"]) == Run(Config(["a", "b", "c"], "c]", Default(10), false, Default(60)))
  {
    var args := ["-a", "[a,", "b]", "-o", "c]"];
    var rest := args[1..];
    assert rest == ["[a,", "b]", "-o", "c]"];
    LaterCloserJoins();
    assert FlagOf(args[0]) == Some(Addresses) && StartsWith(args[1], '[');
    assert FlagOf(args[1]) == None && FlagOf(args[2]) == None;
    assert FlagOf(args[3]) == Some(Output) && FlagOf(args[4]) == None;
    var c1 := Defaults.(addresses := ["a", "b", "c"]);
    var c2 := c1.(filename := "c]");
    assert Apply(args, 0, Defaults) == Continue(c1);
    assert ParseFrom(args, 3, c1) == ParseFrom(args, 4, c2);
    assert ParseFrom(args, 4, c2) == Run(c2);
  }

  /** The last position before `n` that holds flag `f`: the occurrence whose setting survives. */
  function LastFlag(args: seq<string>, f: Flag, n: nat): (k: Option<nat>)
    requires n <= |args|
    ensures k.Some? ==> k.value < n
  {
    if n == 0 then None
    else if FlagOf(args[n - 1]) == Some(f) then Some(n - 1)
    else LastFlag(args, f, n - 1)
  }

  /** The first help flag at or after position `i`. */
  function FirstHelp(args: seq<string>, i: nat): (h: Option<nat>)
    requires i <= |args|
    ensures h.Some? ==> i <= h.value < |args|
    decreases |args| - i
  {
    if i == |args| then None
    else if IsHelp(args[i]) then Some(i)
    else FirstHelp(args, i + 1)
  }

  /** The address list set by the `-a` at position `last`, or the default list. */
  function ListAfter(args: seq<string>, last: Option<nat>): seq<string>
    requires last.Some? ==> last.value + 1 < |args|
  {
    match last
    case Some(k) => AddressList(args[k + 1..])
    case None => DefaultAddresses
  }

  /** The argument after the flag at position `last`, or `default`. */
  function TextAfter(args: seq<string>, last: Option<nat>, default: string): string
    requires last.Some? ==> last.value + 1 < |args|
  {
    match last
    case Some(k) => args[k + 1]
    case None => default
  }

  /** The raw text after the flag at position `last`, or the numeric `default`. */
  function SettingAfter(args: seq<string>, last: Option<nat>, default: Setting): Setting
    requires last.Some? ==> last.value + 1 < |args|
  {
    match last
    case Some(k) => Given(args[k + 1])
    case None => default
  }

  /**
   * The settings once the first `n` arguments have been looked at, stated
   * without the loop: every setting is what its last flag before `n` made it,
   * or its default when that flag does not occur.
   */
  function Seen(args: seq<string>, n: nat): Config
    requires n <= |args|
    requires n == |args| && n > 0 ==> !IsValueFlag(args[n - 1])
  {
    Config(
      ListAfter(args, LastFlag(args, Addresses, n)),
      TextAfter(args, LastFlag(args, Output, n), Defaults.filename),
      SettingAfter(args, LastFlag(args, TimeToWait, n), Defaults.timeToWait),
      LastFlag(args, Warn, n).Some?,
      SettingAfter(args, LastFlag(args, MinimumTimeUp, n), Defaults.minimumTimeUp))
  }

  /** How the loop ends once `help` is the first help flag (if any) it will meet. */
  function Ending(args: seq<string>, help: Option<nat>): Parsed
    requires help.Some? ==> help.value < |args|
  {
    match help
    case Some(h) => HelpShown(Seen(args, h))
    case None =>
      if |args| > 0 && IsValueFlag(args[|args| - 1]) then MissingValue(|args| - 1)
      else Run(Seen(args, |args|))
  }

  /**
   * How the option loop ends, stated without the loop: the first help flag
   * shows the settings seen before it; otherwise a value flag in the last
   * position has nothing to read; otherwise the monitor runs with every
   * setting as its last flag left it.
   */
  function Declared(args: seq<string>): Parsed {
    Ending(args, FirstHelp(args, 0))
  }

  /** Looking at one more argument changes only the setting of its flag, to the value that follows it. */
  lemma SeenAddressesStep(args: seq<string>, i: nat)
    requires i < |args| && !IsHelp(args[i])
    requires i + 1 == |args| ==> !IsValueFlag(args[i])
    ensures FlagOf(args[i]) != Some(Addresses) ==> Seen(args, i + 1).addresses == Seen(args, i).addresses
    ensures FlagOf(args[i]) == Some(Addresses) ==>
              i + 1 < |args| && Seen(args, i + 1).addresses == AddressList(args[i + 1..])
  {
    var flag := FlagOf(args[i]);
    assert LastFlag(args, Addresses, i + 1) == if flag == Some(Addresses) then Some(i) else LastFlag(args, Addresses, i);
  }

  lemma SeenFilenameStep(args: seq<string>, i: nat)
    requires i < |args| && !IsHelp(args[i])
    requires i + 1 == |args| ==> !IsValueFlag(args[i])
    ensures FlagOf(args[i]) != Some(Output) ==> Seen(args, i + 1).filename == Seen(args, i).filename
    ensures FlagOf(args[i]) == Some(Output) ==> i + 1 < |args| && Seen(args, i + 1).filename == args[i + 1]
  {
    var flag := FlagOf(args[i]);
    assert LastFlag(args, Output, i + 1) == if flag == Some(Output) then Some(i) else LastFlag(args, Output, i);
  }

  lemma SeenTimeToWaitStep(args: seq<string>, i: nat)
    requires i < |args| && !IsHelp(args[i])
    requires i + 1 == |args| ==> !IsValueFlag(args[i])
    ensures FlagOf(args[i]) != Some(TimeToWait) ==> Seen(args, i + 1).timeToWait == Seen(args, i).timeToWait
    ensures FlagOf(args[i]) == Some(TimeToWait) ==>
              i + 1 < |args| && Seen(args, i + 1).timeToWait == Given(args[i + 1])
  {
    var flag := FlagOf(args[i]);
    assert LastFlag(args, TimeToWait, i + 1) == if flag == Some(TimeToWait) then Some(i) else LastFlag(args, TimeToWait, i);
  }

  lemma SeenMinimumTimeUpStep(args: seq<string>, i: nat)
    requires i < |args| && !IsHelp(args[i])
    requires i + 1 == |args| ==> !IsValueFlag(args[i])
    ensures FlagOf(args[i]) != Some(MinimumTimeUp) ==> Seen(args, i + 1).minimumTimeUp == Seen(args, i).minimumTimeUp
    ensures FlagOf(args[i]) == Some(MinimumTimeUp) ==>
              i + 1 < |args| && Seen(args, i + 1).minimumTimeUp == Given(args[i + 1])
  {
    var flag := FlagOf(args[i]);
    assert LastFlag(args, MinimumTimeUp, i + 1)
        == if flag == Some(MinimumTimeUp) then Some(i) else LastFlag(args, MinimumTimeUp, i);
  }

  lemma SeenWarnStep(args: seq<string>, i: nat)
    requires i < |args| && !IsHelp(args[i])
    requires i + 1 == |args| ==> !IsValueFlag(args[i])
    ensures Seen(args, i + 1).warn == (FlagOf(args[i]) == Some(Warn) || Seen(args, i).warn)
  {
    var flag := FlagOf(args[i]);
    assert LastFlag(args, Warn, i + 1) == if flag == Some(Warn) then Some(i) else LastFlag(args, Warn, i);
  }

  /** One argument that neither stops the loop nor is cut off moves the settings from `Seen(i)` to `Seen(i + 1)`. */
  lemma SeenStep(args: seq<string>, i: nat)
    requires i < |args| && !IsHelp(args[i])
    requires i + 1 == |args| ==> !IsValueFlag(args[i])
    ensures Apply(args, i, Seen(args, i)) == Continue(Seen(args, i + 1))
  {
    SeenAddressesStep(args, i);
    SeenFilenameStep(args, i);
    SeenTimeToWaitStep(args, i);
    SeenMinimumTimeUpStep(args, i);
    SeenWarnStep(args, i);
    var c, c' := Seen(args, i), Seen(args, i + 1);
    match FlagOf(args[i])
    case None => assert c' == c;
    case Some(Addresses) => assert c' == c.(addresses := AddressList(args[i + 1..]));
    case Some(Output) => assert c' == c.(filename := args[i + 1]);
    case Some(TimeToWait) => assert c' == c.(timeToWait := Given(args[i + 1]));
    case Some(Warn) => assert c' == c.(warn := true);
    case Some(MinimumTimeUp) => assert c' == c.(minimumTimeUp := Given(args[i + 1]));
  }

  lemma {:induction false} ParseFromSeen(args: seq<string>, i: nat)
    requires i <= |args|
    requires i == |args| && i > 0 ==> !IsValueFlag(args[i - 1])
    ensures ParseFrom(args, i, Seen(args, i)) == Ending(args, FirstHelp(args, i))
    decreases |args| - i
  {
    if i == |args| {
    } else if IsHelp(args[i]) {
      StopsAtHelp(args, i);
    } else if IsValueFlag(args[i]) && i + 1 == |args| {
      StopsCutOff(args, i);
    } else {
      SeenStep(args, i);
      ParseFromContinues(args, i, Seen(args, i), Seen(args, i + 1));
      ParseFromSeen(args, i + 1);
    }
  }

  lemma ParseFromContinues(args: seq<string>, i: nat, c: Config, c': Config)
    requires i < |args| && Apply(args, i, c) == Continue(c')
    ensures ParseFrom(args, i, c) == ParseFrom(args, i + 1, c')
  {
  }

  /** A help flag ends the loop with the settings seen before it. */
  lemma StopsAtHelp(args: seq<string>, i: nat)
    requires i < |args| && IsHelp(args[i])
    ensures ParseFrom(args, i, Seen(args, i)) == HelpShown(Seen(args, i))
  {
    var c := Seen(args, i);
    assert Apply(args, i, c) == Stop(HelpShown(c));
  }

  /** A value flag in the last position ends the loop with `IndexError`. */
  lemma StopsCutOff(args: seq<string>, i: nat)
    requires i + 1 == |args| && IsValueFlag(args[i])
    ensures ParseFrom(args, i, Seen(args, i)) == MissingValue(i)
  {
    var c := Seen(args, i);
    assert Apply(args, i, c) == Stop(MissingValue(i));
  }

  /** `FirstHelp` finds the first help flag from `i` on, and finds none only when there is none. */
  lemma {:induction false} FirstHelpMeaning(args: seq<string>, i: nat)
    requires i <= |args|
    ensures FirstHelp(args, i).Some? ==> IsHelp(args[FirstHelp(args, i).value])
    ensures FirstHelp(args, i).Some? ==> forall j :: i <= j < FirstHelp(args, i).value ==> !IsHelp(args[j])
    ensures FirstHelp(args, i).None? ==> forall j :: i <= j < |args| ==> !IsHelp(args[j])
    decreases |args| - i
  {
    if i < |args| && !IsHelp(args[i]) {
      FirstHelpMeaning(args, i + 1);
    }
  }

  /** `LastFlag` finds the last occurrence of `f` before `n`, and finds none only when there is none. */
  lemma {:induction false} LastFlagMeaning(args: seq<string>, f: Flag, n: nat)
    requires n <= |args|
    ensures LastFlag(args, f, n).Some? ==> FlagOf(args[LastFlag(args, f, n).value]) == Some(f)
    ensures LastFlag(args, f, n).Some? ==> forall j :: LastFlag(args, f, n).value < j < n ==> FlagOf(args[j]) != Some(f)
    ensures LastFlag(args, f, n).None? ==> forall j :: 0 <= j < n ==> FlagOf(args[j]) != Some(f)
  {
    if n > 0 && FlagOf(args[n - 1]) != Some(f) {
      LastFlagMeaning(args, f, n - 1);
    }
  }

  /** The option loop means `Declared`: last occurrence wins, help wins, a cut-off value flag fails. */
  lemma ParseMeaning(args: seq<string>)
    ensures Parse(args) == Declared(args)
  {
    assert Seen(args, 0) == Defaults;
    ParseFromSeen(args, 0);
  }

  /** The usage is printed exactly when some argument, value positions included, is a help flag. */
  lemma HelpIff(args: seq<string>)
    ensures Parse(args).HelpShown? <==> exists j :: 0 <= j < |args| && IsHelp(args[j])
  {
    ParseMeaning(args);
    FirstHelpMeaning(args, 0);
  }

  /** `IndexError` happens exactly when the last argument is a value flag and no help flag comes first. */
  lemma MissingValueIff(args: seq<string>)
    ensures Parse(args).MissingValue? <==>
              |args| > 0 && IsValueFlag(args[|args| - 1]) && forall j :: 0 <= j < |args| ==> !IsHelp(args[j])
    ensures Parse(args).MissingValue? ==> Parse(args).position == |args| - 1
  {
    ParseMeaning(args);
    FirstHelpMeaning(args, 0);
  }

  /** The output file is the argument after the last `-o`/`--output`, whatever came before. */
  lemma LastOutputWins(args: seq<string>, k: nat)
    requires Parse(args).Run?
    requires k < |args| && FlagOf(args[k]) == Some(Output)
    requires forall j :: k < j < |args| ==> FlagOf(args[j]) != Some(Output)
    ensures k + 1 < |args| && Parse(args).config.filename == args[k + 1]
  {
    ParseMeaning(args);
    LastFlagMeaning(args, Output, |args|);
    FirstHelpMeaning(args, 0);
  }

  /** Warnings are on exactly when some argument is `-w` or `--warn`. */
  lemma WarnIff(args: seq<string>)
    requires Parse(args).Run?
    ensures Parse(args).config.warn <==> exists j :: 0 <= j < |args| && FlagOf(args[j]) == Some(Warn)
  {
    ParseMeaning(args);
    LastFlagMeaning(args, Warn, |args|);
  }

  /** A setting whose flag never occurs keeps its default. */
  lemma DefaultsWhenAbsent(args: seq<string>)
    requires Parse(args).Run?
    ensures (forall j :: 0 <= j < |args| ==> FlagOf(args[j]) != Some(Addresses)) ==>
              Parse(args).config.addresses == DefaultAddresses
    ensures (forall j :: 0 <= j < |args| ==> FlagOf(args[j]) != Some(Output)) ==>
              Parse(args).config.filename == "ping.csv"
    ensures (forall j :: 0 <= j < |args| ==> FlagOf(args[j]) != Some(TimeToWait)) ==>
              Parse(args).config.timeToWait == Default(10)
    ensures (forall j :: 0 <= j < |args| ==> FlagOf(args[j]) != Some(MinimumTimeUp)) ==>
              Parse(args).config.minimumTimeUp == Default(60)
  {
    var n := |args|;
    ParseMeaning(args);
    assert Parse(args) == Run(Seen(args, n));
    if forall j :: 0 <= j < n ==> FlagOf(args[j]) != Some(Addresses) {
      LastFlagMeaning(args, Addresses, n);
    }
    if forall j :: 0 <= j < n ==> FlagOf(args[j]) != Some(Output) {
      LastFlagMeaning(args, Output, n);
    }
    if forall j :: 0 <= j < n ==> FlagOf(args[j]) != Some(TimeToWait) {
      LastFlagMeaning(args, TimeToWait, n);
    }
    if forall j :: 0 <= j < n ==> FlagOf(args[j]) != Some(MinimumTimeUp) {
      LastFlagMeaning(args, MinimumTimeUp, n);
    }
  }

  /**
   * Arguments after a help flag do not change the scalar settings the usage
   * shows (the address list can change: the bracket loop reads to the end).
   */
  lemma HelpIgnoresLater(args: seq<string>, extra: seq<string>)
    requires Parse(args).HelpShown?
    ensures Parse(args + extra).HelpShown?
    ensures Parse(args + extra).config.filename == Parse(args).config.filename
    ensures Parse(args + extra).config.timeToWait == Parse(args).config.timeToWait
    ensures Parse(args + extra).config.warn == Parse(args).config.warn
    ensures Parse(args + extra).config.minimumTimeUp == Parse(args).config.minimumTimeUp
  {
    ParseMeaning(args);
    ParseMeaning(args + extra);
    FirstHelpPrefix(args, extra, 0);
    var h := FirstHelp(args, 0).value;
    LastFlagPrefix(args, extra, Output, h);
    LastFlagPrefix(args, extra, TimeToWait, h);
    LastFlagPrefix(args, extra, Warn, h);
    LastFlagPrefix(args, extra, MinimumTimeUp, h);
  }

  lemma {:induction false} FirstHelpPrefix(args: seq<string>, extra: seq<string>, i: nat)
    requires i <= |args| && FirstHelp(args, i).Some?
    ensures FirstHelp(args + extra, i) == FirstHelp(args, i)
    decreases |args| - i
  {
    assert (args + extra)[i] == args[i];
    if !IsHelp(args[i]) {
      FirstHelpPrefix(args, extra, i + 1);
    }
  }

  lemma {:induction false} LastFlagPrefix(args: seq<string>, extra: seq<string>, f: Flag, n: nat)
    requires n <= |args|
    ensures LastFlag(args + extra, f, n) == LastFlag(args, f, n)
  {
    if n > 0 {
      assert (args + extra)[n - 1] == args[n - 1];
      LastFlagPrefix(args, extra, f, n - 1);
    }
  }

  /** The option loop as the program runs it, setting by setting. */
  method ParseArgs(args: seq<string>) returns (result: Parsed)
    ensures result == Parse(args)
  {
    var addresses, filename, timeToWait, warn, minimumTimeUp :=
      DefaultAddresses, "ping.csv", Default(10), false, Default(60);
    for i := 0 to |args|
      invariant ParseFrom(args, i, Config(addresses, filename, timeToWait, warn, minimumTimeUp)) == Parse(args)
    {
      var flag := FlagOf(args[i]);
      if flag.Some? && TakesValue(flag.value) && i + 1 == |args| {
        return MissingValue(i);
      }
      if flag == Some(Addresses) {
        addresses := [];
        if StartsWith(args[i + 1], '[') {
          addresses := ReadBracketList(args[i + 1..]);
        }
      }
      if flag == Some(Output) {
        filename := args[i + 1];
      }
      if flag == Some(TimeToWait) {
        timeToWait := Given(args[i + 1]);
      }
      if flag == Some(Warn) {
        warn := true;
      }
      if flag == Some(MinimumTimeUp) {
        minimumTimeUp := Given(args[i + 1]);
      }
      if flag == Some(Help) {
        return HelpShown(Config(addresses, filename, timeToWait, warn, minimumTimeUp));
      }
    }
    result := Run(Config(addresses, filename, timeToWait, warn, minimumTimeUp));
  }
}

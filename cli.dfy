/** yotta_cli.cpp, the arguments: the expansion of grouped short flags, the
    option loop, the checks on the options and the filter on what is printed.
    `isInt`, which the source calls but does not define here, is a parameter. */
module Cli {
  import opened Wrappers
  import opened Text
  import opened Decimal
  import opened Order

  /** `isShortArg`: at least two characters, a dash, and no second dash. */
  function IsShortArg(arg: string): (b: bool)
    ensures b <==> |arg| >= 2 && arg[0] == '-' && arg[1] != '-'
  {
    if |arg| < 2 then false
    else
      var firstChar := [arg[0]];
      var secondChar := [arg[1]];
      assert secondChar == "-" <==> arg[1] == '-';
      firstChar == "-" && secondChar != "-"
  }

  /** One two-character flag for every character of `cs`. */
  function Singles(cs: string): seq<string> {
    seq(|cs|, j requires 0 <= j < |cs| => "-" + [cs[j]])
  }

  /** What one command-line argument becomes in `argsBuffer`. */
  function Expansion(arg: string): seq<string> {
    if IsShortArg(arg) then Singles(arg[1..]) else [arg]
  }

  /** The arguments after expansion, in their order. */
  function Expanded(args: seq<string>): (r: seq<string>)
    ensures |r| >= |args|
  {
    if |args| == 0 then [] else Expanded(args[..|args| - 1]) + Expansion(args[|args| - 1])
  }

  /** The loop at the top of `main`: every argument but the command name is
      either split into one flag per character or pushed as it is. */
  method ExpandArgs(argv: seq<string>) returns (argsBuffer: seq<string>)
    ensures argsBuffer == Expanded(if |argv| == 0 then [] else argv[1..])
  {
    argsBuffer := [];
    if |argv| == 0 {
      return;
    }
    var i := 1;
    while i < |argv|
      invariant 1 <= i <= |argv|
      invariant argsBuffer == Expanded(argv[1..i])
    {
      var arg := argv[i];
      ExpandedNext(argv, i);
      if IsShortArg(arg) {
        argsBuffer := PushSingles(argsBuffer, arg);
      } else {
        argsBuffer := argsBuffer + [arg];
      }
      i := i + 1;
    }
    assert argv[1..i] == argv[1..];
  }

  /** The inner loop: one two-character flag pushed per character after the dash. */
  method PushSingles(argsBuffer: seq<string>, arg: string) returns (r: seq<string>)
    requires |arg| >= 1
    ensures r == argsBuffer + Singles(arg[1..])
  {
    r := argsBuffer;
    var j := 1;
    while j < |arg|
      invariant 1 <= j <= |arg|
      invariant r == argsBuffer + Singles(arg[1..j])
    {
      SinglesNext(arg, j);
      var shortArg := "-" + [arg[j]];
      r := r + [shortArg];
      j := j + 1;
    }
  }

  lemma ExpandedNext(argv: seq<string>, i: nat)
    requires 1 <= i < |argv|
    ensures Expanded(argv[1..i + 1]) == Expanded(argv[1..i]) + Expansion(argv[i])
  {
    assert argv[1..i + 1][..i - 1] == argv[1..i];
  }

  lemma SinglesNext(arg: string, j: nat)
    requires 1 <= j < |arg|
    ensures Singles(arg[1..j + 1]) == Singles(arg[1..j]) + ["-" + [arg[j]]]
  {
    var a := Singles(arg[1..j + 1]);
    var b := Singles(arg[1..j]) + ["-" + [arg[j]]];
    forall k | 0 <= k < |a|
      ensures a[k] == b[k]
    {
      assert arg[1..j + 1][k] == arg[k + 1];
    }
  }

  /** Expansion keeps the order of the arguments: expanding a concatenation
      is concatenating the expansions. */
  lemma {:induction false} ExpandedAppend(a: seq<string>, b: seq<string>)
    ensures Expanded(a + b) == Expanded(a) + Expanded(b)
    decreases |b|
  {
    if |b| == 0 {
      assert a + b == a;
    } else {
      var c := b[..|b| - 1];
      assert (a + b)[..|a + b| - 1] == a + c;
      assert (a + b)[|a + b| - 1] == b[|b| - 1];
      ExpandedAppend(a, c);
    }
  }

  /** Arguments that are not grouped short flags come through unchanged. */
  lemma {:induction false} ExpandedKeeps(args: seq<string>)
    requires forall i :: 0 <= i < |args| ==> !IsShortArg(args[i])
    ensures Expanded(args) == args
    decreases |args|
  {
    if |args| > 0 {
      ExpandedKeeps(args[..|args| - 1]);
    }
  }

  /** A grouped flag becomes one flag per character, and "-", "--x" and
      plain words are kept. */
  lemma ExpandedExamples()
    ensures Expanded(["-abc"]) == ["-a", "-b", "-c"]
    ensures Expanded(["-", "--x", "x"]) == ["-", "--x", "x"]
  {
    var s := Singles("-abc"[1..]);
    assert "-abc"[1..] == "abc";
    assert |s| == 3 && s[0] == "-a" && s[1] == "-b" && s[2] == "-c";
    assert s == ["-a", "-b", "-c"];
    assert Expanded(["-abc"]) == Expanded([]) + Expansion("-abc");
    ExpandedKeeps(["-", "--x", "x"]);
  }

  /** What comes out of the expansion: arguments that are not grouped short
      flags, and two-character flags a dash and one character. */
  lemma {:induction false} ExpandedShape(args: seq<string>)
    ensures forall e :: e in Expanded(args) ==> (e in args && !IsShortArg(e)) || (|e| == 2 && e[0] == '-')
    decreases |args|
  {
    if |args| > 0 {
      var front := args[..|args| - 1];
      var last := args[|args| - 1];
      ExpandedShape(front);
      forall e | e in Expanded(args)
        ensures (e in args && !IsShortArg(e)) || (|e| == 2 && e[0] == '-')
      {
        if e in Expanded(front) {
          if e in front {
            assert e in args;
          }
        } else {
          assert e in Expansion(last);
        }
      }
    }
  }

  /** The options `main` collects: the switches that are on (`boot_opt`,
      `allButBoot_opt`, … as the set of flags that set them) and the two
      thresholds (0 when not given). */
  datatype Options = Options(switches: set<Flag>, greater: int, lower: int)

  const NoOptions: Options := Options({}, 0, 0)

  /** What the option loop takes an argument for. */
  datatype Flag = Version | Help | Boot | AllButBoot | Day | Hour | Minute | Second | Jiffy
                | Greater | Lower | Unknown

  /** The chain of comparisons in the option loop, one branch per flag with
      its short and its long spelling.  `dash` starts the long forms of -d,
      -H and -m. */
  function Chain(arg: string, dash: string): Flag {
    if arg == "-v" || arg == "--version" then Version
    else if arg == "-h" || arg == "--help" then Help
    else if arg == "-b" || arg == "--boot" then Boot
    else if arg == "-B" || arg == "--all-but-boot" then AllButBoot
    else if arg == "-d" || arg == dash + "day" then Day
    else if arg == "-H" || arg == dash + "hour" then Hour
    else if arg == "-m" || arg == dash + "minute" then Minute
    else if arg == "-s" || arg == "--second" then Second
    else if arg == "-j" || arg == "--jiffy" then Jiffy
    else if arg == "-g" || arg == "--greater-uptime-than" then Greater
    else if arg == "-l" || arg == "--lower-uptime-than" then Lower
    else Unknown
  }

  /** The flags as the source spells them: "-day", "-hour" and "-minute"
      with a single dash.  Those three are the only recognised arguments
      longer than two characters that the expansion splits. */
  function AsWrittenFlag(arg: string): (r: Flag)
    ensures r == Day <==> arg == "-d" || arg == "-day"
    ensures r == Hour <==> arg == "-H" || arg == "-hour"
    ensures r == Minute <==> arg == "-m" || arg == "-minute"
    ensures r != Unknown && IsShortArg(arg) && |arg| > 2 ==> arg == "-day" || arg == "-hour" || arg == "-minute"
  {
    Chain(arg, "-")
  }

  /** The flags with the double dash every other long form has: every
      recognised argument the expansion would split is a two-character one,
      and only the three long forms are read differently. */
  function CorrectedFlag(arg: string): (r: Flag)
    ensures r == Day <==> arg == "-d" || arg == "--day"
    ensures r == Hour <==> arg == "-H" || arg == "--hour"
    ensures r == Minute <==> arg == "-m" || arg == "--minute"
    ensures r != Unknown && IsShortArg(arg) ==> |arg| == 2
    ensures arg !in ["-day", "-hour", "-minute", "--day", "--hour", "--minute"] ==> r == AsWrittenFlag(arg)
  {
    Chain(arg, "--")
  }

  /** The flags that only turn an option on. */
  predicate IsSwitch(f: Flag) {
    f == Boot || f == AllButBoot || f == Day || f == Hour || f == Minute || f == Second || f == Jiffy
  }

  function Switch(o: Options, f: Flag): Options {
    o.(switches := o.switches + {f})
  }

  /** Every way `main` ends before it lists anything. */
  datatype Exit =
    | ShowVersion
    | ShowHelp
    | NotPositive(flag: string)       // the value of -g or -l is not a positive integer
    | MissingValue(flag: string)      // -g or -l is the last argument: the source reads past the vector
    | NotAnArgument(arg: string)
    | BootConflict                     // -b and -B together
    | EmptyInterval(lower: int, greater: int)
    | StoiFails(text: string)         // std::stoi throws: no number in the text
    | StofFails(text: string)         // std::stof throws
    | NoDataFile

  /** `isInt(value) && stoi(value) > 0`, and the value it then stores. */
  function Threshold(flag: string, value: string, isInt: string -> bool): (r: Result<int, Exit>)
    ensures r.Success? <==> isInt(value) && ParseInt(value).Some? && ParseInt(value).value > 0
    ensures r.Success? ==> r.value == ParseInt(value).value
    ensures r.Failure? ==> r.error == NotPositive(flag) || r.error == StoiFails(value)
  {
    if !isInt(value) then Failure(NotPositive(flag))
    else
      match ParseInt(value)
      case None => Failure(StoiFails(value))
      case Some(v) => if v > 0 then Success(v) else Failure(NotPositive(flag))
  }

  /** What the option loop does with the argument in front: the arguments
      left and the options after it, or the way the run ends. */
  function Step(args: seq<string>, o: Options, isInt: string -> bool, known: string -> Flag): (r: Result<(seq<string>, Options), Exit>)
    requires |args| > 0
    ensures r.Success? ==> r.value.0 == args[1..] || (|args| >= 2 && r.value.0 == args[2..])
  {
    var arg := args[0];
    var f := known(arg);
    if f == Version then Failure(ShowVersion)
    else if f == Help then Failure(ShowHelp)
    else if f == Unknown then Failure(NotAnArgument(arg))
    else if f == Greater || f == Lower then
      if |args| < 2 then Failure(MissingValue(arg))
      else
        match Threshold(arg, args[1], isInt)
        case Failure(e) => Failure(e)
        case Success(v) => Success((args[2..], if f == Greater then o.(greater := v) else o.(lower := v)))
    else Success((args[1..], Switch(o, f)))
  }

  /** What the option loop makes of `args`, starting from `o`. */
  function Parse(args: seq<string>, o: Options, isInt: string -> bool, known: string -> Flag): (r: Result<Options, Exit>)
    ensures r.Failure? && r.error.NotAnArgument? ==> r.error.arg in args && known(r.error.arg) == Unknown
    ensures r.Failure? ==> !r.error.BootConflict? && !r.error.EmptyInterval?
    decreases |args|
  {
    if |args| == 0 then Success(o)
    else
      match Step(args, o, isInt, known)
      case Failure(e) => Failure(e)
      case Success(next) => Parse(next.0, next.1, isInt, known)
  }

  /** The option loop of `main`: takes `argsBuffer[0]`, sets its option (a
      threshold also consumes `argsBuffer[1]`), and erases what it took. */
  method ParseOptions(argsBuffer: seq<string>, isInt: string -> bool) returns (r: Result<Options, Exit>)
    ensures r == Parse(argsBuffer, NoOptions, isInt, AsWrittenFlag)
  {
    var buf := argsBuffer;
    var o := NoOptions;
    while buf != []
      invariant Parse(argsBuffer, NoOptions, isInt, AsWrittenFlag) == Parse(buf, o, isInt, AsWrittenFlag)
      decreases |buf|
    {
      var arg := buf[0];
      var f := AsWrittenFlag(arg);
      if f == Version {
        return Failure(ShowVersion);
      } else if f == Help {
        return Failure(ShowHelp);
      } else if f == Greater || f == Lower {
        if |buf| < 2 {
          return Failure(MissingValue(arg));
        }
        var t := Threshold(arg, buf[1], isInt);
        if t.Failure? {
          return Failure(t.error);
        }
        if f == Greater {
          o := o.(greater := t.value);
        } else {
          o := o.(lower := t.value);
        }
        assert buf[..1] + buf[2..] == [arg] + buf[2..];
        buf := buf[..1] + buf[2..];
      } else if IsSwitch(f) {
        o := Switch(o, f);
      } else {
        return Failure(NotAnArgument(arg));
      }
      buf := buf[1..];
    }
    r := Success(o);
  }

  /** Some argument of `args` is read as `f`. */
  predicate Has(args: seq<string>, f: Flag, known: string -> Flag) {
    exists i :: 0 <= i < |args| && known(args[i]) == f
  }

  /** Each switch sets its own option and no other: a run of switches turns
      on exactly the options named in it and leaves the thresholds alone. */
  lemma {:induction false} SwitchesOnly(args: seq<string>, o: Options, isInt: string -> bool, known: string -> Flag)
    requires forall i :: 0 <= i < |args| ==> IsSwitch(known(args[i]))
    ensures Parse(args, o, isInt, known).Success?
    ensures var r := Parse(args, o, isInt, known).value;
      && (forall f :: f in r.switches <==> f in o.switches || Has(args, f, known))
      && r.greater == o.greater && r.lower == o.lower
    decreases |args|
  {
    if |args| > 0 {
      var f := known(args[0]);
      var rest := args[1..];
      assert Step(args, o, isInt, known) == Success((rest, Switch(o, f)));
      SwitchesOnly(rest, Switch(o, f), isInt, known);
      forall g: Flag
        ensures Has(args, g, known) <==> f == g || Has(rest, g, known)
      {
        if Has(rest, g, known) {
          var i :| 0 <= i < |rest| && known(rest[i]) == g;
          assert rest[i] == args[i + 1];
        }
        if Has(args, g, known) && f != g {
          var i :| 0 <= i < |args| && known(args[i]) == g;
          assert args[i] == rest[i - 1];
        }
      }
    }
  }

  /** -g and -l take the next argument as their value, whatever it looks
      like, and accept it only when it is a positive integer. */
  lemma ThresholdStep(flag: string, value: string, rest: seq<string>, o: Options, isInt: string -> bool, known: string -> Flag)
    requires known(flag) == Greater || known(flag) == Lower
    ensures var r := Parse([flag, value] + rest, o, isInt, known);
      && (isInt(value) && ParseInt(value).Some? && ParseInt(value).value > 0 ==>
            r == Parse(rest, if known(flag) == Greater then o.(greater := ParseInt(value).value)
                             else o.(lower := ParseInt(value).value), isInt, known))
      && (!isInt(value) || (ParseInt(value).Some? && ParseInt(value).value <= 0) ==> r == Failure(NotPositive(flag)))
      && (isInt(value) && ParseInt(value).None? ==> r == Failure(StoiFails(value)))
  {
    var args := [flag, value] + rest;
    assert args[0] == flag && args[1] == value && args[2..] == rest;
  }

  /** A threshold as the last argument has no value to take. */
  lemma ThresholdLast(flag: string, o: Options, isInt: string -> bool, known: string -> Flag)
    requires known(flag) == Greater || known(flag) == Lower
    ensures Parse([flag], o, isInt, known) == Failure(MissingValue(flag))
  {
  }

  /** An argument the loop does not know ends the run, whatever follows. */
  lemma UnknownEnds(arg: string, rest: seq<string>, o: Options, isInt: string -> bool, known: string -> Flag)
    requires known(arg) == Unknown
    ensures Parse([arg] + rest, o, isInt, known) == Failure(NotAnArgument(arg))
  {
    assert ([arg] + rest)[0] == arg;
  }

  /** Options only ever turn on, and a threshold is never negative: the loop
      stores only positive values. */
  lemma {:induction false} ParseGrows(args: seq<string>, o: Options, isInt: string -> bool, known: string -> Flag)
    requires o.greater >= 0 && o.lower >= 0
    requires Parse(args, o, isInt, known).Success?
    ensures var r := Parse(args, o, isInt, known).value;
      && o.switches <= r.switches
      && r.greater >= 0 && r.lower >= 0
      && (o.greater > 0 ==> r.greater > 0) && (o.lower > 0 ==> r.lower > 0)
    decreases |args|
  {
    if |args| > 0 {
      var s := Step(args, o, isInt, known).value;
      StepGrows(args, o, isInt, known);
      ParseGrows(s.0, s.1, isInt, known);
    }
  }

  lemma StepGrows(args: seq<string>, o: Options, isInt: string -> bool, known: string -> Flag)
    requires o.greater >= 0 && o.lower >= 0 && |args| > 0
    requires Step(args, o, isInt, known).Success?
    ensures var r := Step(args, o, isInt, known).value.1;
      && o.switches <= r.switches
      && r.greater >= 0 && r.lower >= 0
      && (o.greater > 0 ==> r.greater > 0) && (o.lower > 0 ==> r.lower > 0)
  {
  }

  /** The long forms "-day", "-hour" and "-minute" never reach the option
      loop: the expansion splits them into one-letter flags first. */
  lemma LongFormsNeverReach(args: seq<string>)
    ensures "-day" !in Expanded(args) && "-hour" !in Expanded(args) && "-minute" !in Expanded(args)
  {
    ExpandedShape(args);
    assert IsShortArg("-day") && IsShortArg("-hour") && IsShortArg("-minute");
  }

  /** As written, "-day" ends the run on its second letter. */
  lemma AsWrittenDayRejected(isInt: string -> bool)
    ensures Expanded(["-day"]) == ["-d", "-a", "-y"]
    ensures Parse(Expanded(["-day"]), NoOptions, isInt, AsWrittenFlag) == Failure(NotAnArgument("-a"))
  {
    assert "-day"[1..] == "day";
    var d := Singles("day");
    assert |d| == 3 && d[0] == "-d" && d[1] == "-a" && d[2] == "-y";
    assert d == ["-d", "-a", "-y"];
    assert Expanded(["-day"]) == Expanded([]) + Expansion("-day");
    var args := ["-d", "-a", "-y"];
    assert AsWrittenFlag("-d") == Day;
    assert args[1..] == ["-a", "-y"];
    assert Step(args, NoOptions, isInt, AsWrittenFlag) == Success((["-a", "-y"], Switch(NoOptions, Day)));
    assert AsWrittenFlag("-a") == Unknown by { UnknownLetter('a'); }
    assert Step(["-a", "-y"], Switch(NoOptions, Day), isInt, AsWrittenFlag) == Failure(NotAnArgument("-a"));
  }

  /** A dash and a letter that no flag uses is not an argument. */
  lemma UnknownLetter(c: char)
    requires c !in "vhbBdHmsjgl"
    ensures AsWrittenFlag("-" + [c]) == Unknown
  {
    var arg := "-" + [c];
    assert arg[1] == c && |arg| == 2;
    assert forall f :: f in ["-v", "-h", "-b", "-B", "-d", "-H", "-m", "-s", "-j", "-g", "-l"] ==> f != arg;
  }

  /** With the double dash, each long form passes the expansion unchanged
      and sets its own option. */
  lemma CorrectedLongForms(isInt: string -> bool)
    ensures Expanded(["--day"]) == ["--day"] && Expanded(["--hour"]) == ["--hour"] && Expanded(["--minute"]) == ["--minute"]
    ensures Parse(["--day"], NoOptions, isInt, CorrectedFlag) == Success(Switch(NoOptions, Day))
    ensures Parse(["--hour"], NoOptions, isInt, CorrectedFlag) == Success(Switch(NoOptions, Hour))
    ensures Parse(["--minute"], NoOptions, isInt, CorrectedFlag) == Success(Switch(NoOptions, Minute))
  {
    SwitchAlone("--day", isInt, CorrectedFlag);
    SwitchAlone("--hour", isInt, CorrectedFlag);
    SwitchAlone("--minute", isInt, CorrectedFlag);
  }

  lemma SwitchAlone(arg: string, isInt: string -> bool, known: string -> Flag)
    requires IsSwitch(known(arg)) && !IsShortArg(arg)
    ensures Expanded([arg]) == [arg]
    ensures Parse([arg], NoOptions, isInt, known) == Success(Switch(NoOptions, known(arg)))
  {
    ExpandedKeeps([arg]);
    assert [arg][1..] == [];
    assert Step([arg], NoOptions, isInt, known) == Success(([], Switch(NoOptions, known(arg))));
  }

  /** The two checks after the loop. */
  function Validate(o: Options): (r: Result<Options, Exit>)
    ensures r.Success? ==> r.value == o
    ensures r == Failure(BootConflict) <==> Boot in o.switches && AllButBoot in o.switches
    ensures r.Failure? ==> r == Failure(BootConflict) || r == Failure(EmptyInterval(o.lower, o.greater))
  {
    if Boot in o.switches && AllButBoot in o.switches then Failure(BootConflict)
    else if o.greater >= o.lower && o.greater != 0 && o.lower != 0 then Failure(EmptyInterval(o.lower, o.greater))
    else Success(o)
  }

  /** The filter of the listing: an entry is printed unless -g is given and
      its uptime is at most that, or -l is given and its uptime is at least that. */
  function Shown(o: Options, uptime: real): (b: bool)
    ensures b <==> (o.greater == 0 || uptime > o.greater as real) && (o.lower == 0 || uptime < o.lower as real)
  {
    !((o.greater != 0 && uptime <= o.greater as real) || (o.lower != 0 && uptime >= o.lower as real))
  }

  /** The options pass the checks exactly when -b and -B are not both given
      and some uptime could be printed: the interval check rejects the empty
      intervals and only those. */
  lemma ValidateIffShowable(o: Options)
    ensures Validate(o).Success? <==> !(Boot in o.switches && AllButBoot in o.switches) && exists v :: Shown(o, v)
    ensures Validate(o).Success? ==> Validate(o).value == o
  {
    var g := o.greater as real;
    var l := o.lower as real;
    if o.greater != 0 && o.lower != 0 {
      if o.greater < o.lower {
        assert Shown(o, (g + l) / 2.0);
      } else {
        forall v | Shown(o, v)
          ensures false
        {
        }
      }
    } else if o.greater != 0 {
      assert Shown(o, g + 1.0);
    } else if o.lower != 0 {
      assert Shown(o, l - 1.0);
    } else {
      assert Shown(o, 0.0);
    }
  }
}

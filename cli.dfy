/** src/cli.rs: the small argument parser and its help text. */
module Cli {
  import opened Util

  /** What an option does when its name is given: the two closures of
      `generate_options`. */
  datatype Oper = SetHelp | SetInput

  /** `cli::Option`: short name, long name, description and operation. */
  datatype Opt = Opt(sh: string, lh: string, descr: string, oper: Oper)

  /** The fields of `Options`, as a value. */
  datatype Settings = Settings(printHelp: bool, inputFilename: string)

  /** Where parsing stands: the result so far, the fields and the arguments not yet consumed. */
  datatype Step = Step(result: Result<()>, settings: Settings, args: seq<string>)

  const MISSING_INPUT := Error("Expected input filename")
  const HELP_HEADER := "Help for \"mo\":\n"
  const HELP_FOOTER := "Created by Geert Fannes\n"

  /** `generate_options`, in order. */
  function GenerateOptions(): seq<Opt>
  {
    [Opt("-h", "--help", "Print this help", SetHelp),
     Opt("-i", "--input", "Input filename", SetInput)]
  }

  /** Whether `o` is the option named `arg`. */
  predicate Named(o: Opt, arg: string)
  {
    o.sh == arg || o.lh == arg
  }

  /** The operation of an option on the fields and the remaining arguments:
      `--input` takes the next argument and fails when there is none. */
  function Operate(oper: Oper, s: Settings, args: seq<string>): (st: Step)
    ensures |st.args| <= |args|
    ensures st.result.Err? <==> oper == SetInput && args == []
    ensures st.result.Err? ==> st.result.error == MISSING_INPUT && st.settings == s && st.args == args
  {
    match oper
    case SetHelp => Step(Ok(()), s.(printHelp := true), args)
    case SetInput =>
      if args == [] then Step(Err(MISSING_INPUT), s, args)
      else Step(Ok(()), s.(inputFilename := args[0]), args[1..])
  }

  /** The inner loop of `parse` for one argument `arg`: every option named
      `arg` runs, in order, until one fails. */
  function MatchOptions(opts: seq<Opt>, arg: string, s: Settings, args: seq<string>): (st: Step)
    ensures |st.args| <= |args|
    decreases |opts|
  {
    if opts == [] then Step(Ok(()), s, args)
    else
      var st := MatchOptions(opts[..|opts| - 1], arg, s, args);
      var o := opts[|opts| - 1];
      if st.result.Err? || !Named(o, arg) then st
      else Operate(o.oper, st.settings, st.args)
  }

  /** `parse`: arguments are taken one at a time from the front; the first
      failing operation ends the parse with its error. */
  function Parsed(args: seq<string>, s: Settings): Step
    decreases |args|
  {
    if args == [] then Step(Ok(()), s, [])
    else
      var st := MatchOptions(GenerateOptions(), args[0], s, args[1..]);
      if st.result.Err? then st else Parsed(st.args, st.settings)
  }

  /** `Options`. */
  class Options {
    var printHelp: bool
    var inputFilename: string

    /** `Options::new`. */
    constructor()
      ensures printHelp == false && inputFilename == ""
    {
      printHelp := false;
      inputFilename := "";
    }

    function Current(): Settings
      reads this
    {
      Settings(printHelp, inputFilename)
    }

    /** Runs the operation `oper` on this object and the remaining arguments. */
    method Invoke(oper: Oper, args: seq<string>) returns (r: Result<()>, rest: seq<string>)
      modifies this
      ensures Step(r, Current(), rest) == Operate(oper, old(Current()), args)
    {
      match oper
      case SetHelp =>
        printHelp := true;
        return Ok(()), args;
      case SetInput =>
        if args == [] {
          return Err(MISSING_INPUT), args;
        }
        inputFilename := args[0];
        return Ok(()), args[1..];
    }

    /** `parse`: consumes `args`, updating the fields; the result and the
        final fields are those `Parsed` gives. */
    method Parse(args: seq<string>) returns (r: Result<()>)
      modifies this
      ensures Parsed(args, old(Current())) == Step(r, Current(), Parsed(args, old(Current())).args)
    {
      var options := GenerateOptions();
      var rest := args;
      while rest != []
        invariant Parsed(rest, Current()) == Parsed(args, old(Current()))
        decreases |rest|
      {
        var arg := rest[0];
        rest := rest[1..];
        ghost var s0 := Current();
        ghost var rest0 := rest;
        for j := 0 to |options|
          invariant MatchOptions(options[..j], arg, s0, rest0) == Step(Ok(()), Current(), rest)
        {
          assert options[..j + 1][..j] == options[..j];
          if Named(options[j], arg) {
            var res;
            res, rest := Invoke(options[j].oper, rest);
            if res.Err? {
              MatchErrorPersists(options, arg, s0, rest0, j + 1);
              return res;
            }
          }
        }
        assert options[..|options|] == options;
      }
      return Ok(());
    }

    /** `help`: the header, one line per option, then the footer. */
    method Help() returns (s: string)
      ensures s == HELP_HEADER + HelpLines(GenerateOptions()) + HELP_FOOTER
    {
      s := HELP_HEADER;
      s := AppendHelpLines(s, GenerateOptions());
      s := s + HELP_FOOTER;
    }
  }

  /** The loop of `help`: pushes each option's help and a line break onto `s`. */
  method AppendHelpLines(s0: string, opts: seq<Opt>) returns (s: string)
    ensures s == s0 + HelpLines(opts)
  {
    s := s0;
    for j := 0 to |opts|
      invariant s == s0 + HelpLines(opts[..j])
    {
      assert opts[..j + 1][..j] == opts[..j];
      s := s + OptionHelp(opts[j]);
      s := s + "\n";
    }
    assert opts[..|opts|] == opts;
  }

  /** Once an option fails on an argument, the options after it do not run. */
  lemma {:induction false} MatchErrorPersists(opts: seq<Opt>, arg: string, s: Settings, args: seq<string>, j: nat)
    requires j <= |opts| && MatchOptions(opts[..j], arg, s, args).result.Err?
    ensures MatchOptions(opts, arg, s, args) == MatchOptions(opts[..j], arg, s, args)
    decreases |opts| - j
  {
    if j < |opts| {
      assert opts[..j + 1][..j] == opts[..j];
      MatchErrorPersists(opts, arg, s, args, j + 1);
    } else {
      assert opts[..j] == opts;
    }
  }

  /** `Option::help`. */
  function OptionHelp(o: Opt): string
  {
    "\t" + o.sh + "\t" + o.lh + "\t" + o.descr
  }

  /** The option lines of the help text. */
  function HelpLines(opts: seq<Opt>): string
    decreases |opts|
  {
    if opts == [] then "" else HelpLines(opts[..|opts| - 1]) + OptionHelp(opts[|opts| - 1]) + "\n"
  }

  /** The number of line breaks in `s`. */
  function LineBreaks(s: string): nat
    decreases |s|
  {
    if s == [] then 0 else (if s[|s| - 1] == '\n' then 1 else 0) + LineBreaks(s[..|s| - 1])
  }

  lemma {:induction false} LineBreaksAppend(a: string, b: string)
    ensures LineBreaks(a + b) == LineBreaks(a) + LineBreaks(b)
    decreases |b|
  {
    if b == [] {
      assert a + b == a;
    } else {
      assert (a + b)[..|a + b| - 1] == a + b[..|b| - 1];
      LineBreaksAppend(a, b[..|b| - 1]);
    }
  }

  predicate SingleLine(s: string)
  {
    forall k :: 0 <= k < |s| ==> s[k] != '\n'
  }

  lemma {:induction false} SingleLineHasNoBreak(s: string)
    requires SingleLine(s)
    ensures LineBreaks(s) == 0
    decreases |s|
  {
    if s != [] {
      assert SingleLine(s[..|s| - 1]);
      SingleLineHasNoBreak(s[..|s| - 1]);
    }
  }

  /** When no name or description spans lines, the help text has exactly
      one line per option between its header and footer. */
  lemma {:induction false} HelpLinePerOption(opts: seq<Opt>)
    requires forall k :: 0 <= k < |opts| ==> SingleLine(OptionHelp(opts[k]))
    ensures LineBreaks(HELP_HEADER + HelpLines(opts) + HELP_FOOTER) == |opts| + 2
  {
    OptionLinesCount(opts);
    LineBreaksAppend(HELP_HEADER, HelpLines(opts));
    LineBreaksAppend(HELP_HEADER + HelpLines(opts), HELP_FOOTER);
    SplitHeader();
  }

  lemma SplitHeader()
    ensures LineBreaks(HELP_HEADER) == 1 && LineBreaks(HELP_FOOTER) == 1
  {
    var h := "Help for \"mo\":";
    var f := "Created by Geert Fannes";
    assert HELP_HEADER == h + "\n" && HELP_FOOTER == f + "\n";
    assert SingleLine(h) && SingleLine(f);
    SingleLineHasNoBreak(h);
    SingleLineHasNoBreak(f);
    LineBreaksAppend(h, "\n");
    LineBreaksAppend(f, "\n");
  }

  lemma {:induction false} OptionLinesCount(opts: seq<Opt>)
    requires forall k :: 0 <= k < |opts| ==> SingleLine(OptionHelp(opts[k]))
    ensures LineBreaks(HelpLines(opts)) == |opts|
    decreases |opts|
  {
    if opts != [] {
      var n := |opts| - 1;
      var init := opts[..n];
      forall k | 0 <= k < |init|
        ensures SingleLine(OptionHelp(init[k]))
      {
        assert init[k] == opts[k];
      }
      OptionLinesCount(init);
      var front, line := HelpLines(init), OptionHelp(opts[n]);
      assert HelpLines(opts) == front + line + "\n";
      SingleLineHasNoBreak(line);
      LineBreaksAppend(front, line);
      LineBreaksAppend(front + line, "\n");
      assert LineBreaks("\n") == 1 by {
        assert "\n"[..0] == [];
      }
    }
  }

  /** The help lines of `generate_options`'s two options, spelled out. */
  lemma HelpText()
    ensures HelpLines(GenerateOptions()) == "\t-h\t--help\tPrint this help\n" + "\t-i\t--input\tInput filename\n"
  {
    var opts := GenerateOptions();
    var first := OptionHelp(opts[0]) + "\n";
    var second := OptionHelp(opts[1]) + "\n";
    HelpLineOfHelp();
    HelpLineOfInput();
    assert opts[..1][..0] == [];
    assert HelpLines(opts[..1]) == "" + first;
    assert "" + first == first;
    assert opts[..2] == opts;
    assert HelpLines(opts) == first + second;
  }

  /** The help line of `-h`, joined piece by piece. */
  lemma HelpLineOfHelp()
    ensures OptionHelp(GenerateOptions()[0]) + "\n" == "\t-h\t--help\tPrint this help\n"
  {
    var s := "\t" + "-h";
    assert s == "\t-h";
    s := s + "\t" + "--help";
    assert s == "\t-h\t--help";
    s := s + "\t" + "Print this help";
    assert s == "\t-h\t--help\tPrint this help";
  }

  /** The help line of `-i`, joined piece by piece. */
  lemma HelpLineOfInput()
    ensures OptionHelp(GenerateOptions()[1]) + "\n" == "\t-i\t--input\tInput filename\n"
  {
    var s := "\t" + "-i";
    assert s == "\t-i";
    s := s + "\t" + "--input";
    assert s == "\t-i\t--input";
    s := s + "\t" + "Input filename";
    assert s == "\t-i\t--input\tInput filename";
  }

  // ---------------------------------------------------------------------
  // Properties of `parse`
  // ---------------------------------------------------------------------

  lemma MatchTwo(arg: string, s: Settings, args: seq<string>)
    ensures var opts := GenerateOptions();
      MatchOptions(opts, arg, s, args)
      == (var st := if Named(opts[0], arg) then Operate(SetHelp, s, args) else Step(Ok(()), s, args);
          if st.result.Err? || !Named(opts[1], arg) then st else Operate(SetInput, st.settings, st.args))
  {
    var opts := GenerateOptions();
    assert opts[..1][..0] == [];
    assert opts[..2] == opts;
  }

  /** `-h` / `--help` sets `print_help` and consumes nothing else. */
  lemma ParseHelp(flag: string, rest: seq<string>, s: Settings)
    requires flag == "-h" || flag == "--help"
    ensures Parsed([flag] + rest, s) == Parsed(rest, s.(printHelp := true))
  {
    MatchTwo(flag, s, rest);
    assert ([flag] + rest)[1..] == rest;
  }

  /** `-i X` / `--input X` sets `input_filename` to `X` and consumes `X`. */
  lemma ParseInput(flag: string, x: string, rest: seq<string>, s: Settings)
    requires flag == "-i" || flag == "--input"
    ensures Parsed([flag, x] + rest, s) == Parsed(rest, s.(inputFilename := x))
  {
    MatchTwo(flag, s, [x] + rest);
    assert ([flag, x] + rest)[1..] == [x] + rest;
    assert ([x] + rest)[1..] == rest;
  }

  /** `-i` / `--input` as the last argument aborts the parse. */
  lemma ParseMissingInput(flag: string, s: Settings)
    requires flag == "-i" || flag == "--input"
    ensures Parsed([flag], s) == Step(Err(MISSING_INPUT), s, [])
  {
    MatchTwo(flag, s, []);
    assert [flag][1..] == [];
  }

  /** An argument that names no option is consumed and ignored. */
  lemma ParseUnknown(arg: string, rest: seq<string>, s: Settings)
    requires forall k :: 0 <= k < |GenerateOptions()| ==> !Named(GenerateOptions()[k], arg)
    ensures Parsed([arg] + rest, s) == Parsed(rest, s)
  {
    MatchTwo(arg, s, rest);
    assert ([arg] + rest)[1..] == rest;
  }

  /** Parsing fails only with the missing-filename error, when the last
      argument is `-i` or `--input`. */
  lemma {:induction false} ParseFailsOnlyOnTrailingInput(args: seq<string>, s: Settings)
    ensures var p := Parsed(args, s);
      p.result.Err? ==> p.result.error == MISSING_INPUT && args != [] && args[|args| - 1] in {"-i", "--input"}
    decreases |args|
  {
    if args != [] {
      var rest := args[1..];
      MatchTwo(args[0], s, rest);
      var st := MatchOptions(GenerateOptions(), args[0], s, rest);
      if st.result.Err? {
        assert rest == [];
        assert args == [args[0]];
      } else {
        ParseFailsOnlyOnTrailingInput(st.args, st.settings);
        if Parsed(st.args, st.settings).result.Err? {
          assert st.args == rest || st.args == rest[1..];
          assert st.args[|st.args| - 1] == args[|args| - 1];
        }
      }
    }
  }

  /** Once set, `print_help` stays set. */
  lemma {:induction false} HelpStaysSet(args: seq<string>, s: Settings)
    requires s.printHelp
    ensures Parsed(args, s).settings.printHelp
    decreases |args|
  {
    if args != [] {
      MatchTwo(args[0], s, args[1..]);
      var st := MatchOptions(GenerateOptions(), args[0], s, args[1..]);
      if st.result.Ok? {
        HelpStaysSet(st.args, st.settings);
      }
    }
  }

  /** The final `input_filename` is the initial one or one of the arguments. */
  lemma {:induction false} InputFromArguments(args: seq<string>, s: Settings)
    ensures var f := Parsed(args, s).settings.inputFilename;
      f == s.inputFilename || f in args
    decreases |args|
  {
    if args != [] {
      var rest := args[1..];
      MatchTwo(args[0], s, rest);
      var st := MatchOptions(GenerateOptions(), args[0], s, rest);
      assert st.settings.inputFilename == s.inputFilename || (rest != [] && st.settings.inputFilename == rest[0]);
      if st.result.Ok? {
        InputFromArguments(st.args, st.settings);
        assert st.args == rest || st.args == rest[1..];
        var f := Parsed(st.args, st.settings).settings.inputFilename;
        if f in st.args {
          var k :| 0 <= k < |st.args| && st.args[k] == f;
          if st.args == rest {
            assert args[k + 1] == f;
          } else {
            assert args[k + 2] == f;
          }
        }
      }
    }
  }
}

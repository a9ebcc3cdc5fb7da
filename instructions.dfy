/** The entry point's routing and the instructions file: with no arguments
    the help text is shown, with -i/--input the commands are read from a
    file and split into tokens, and otherwise the arguments themselves are
    the commands. */
module Instructions {
  import opened Text
  import opened Dispatch

  /** Reading the instructions file: its lines run together with nothing
      between them, then split at every single space. */
  function Tokens(text: string): (comvec: seq<string>)
    ensures |comvec| == Occurrences(' ', StripNewlines(text)) + 1
    ensures NoSpaceIn(comvec) && JoinWithSpace(comvec) == StripNewlines(text)
  {
    SplitCount(StripNewlines(text));
    JoinSplit(StripNewlines(text));
    SplitOnSpace(StripNewlines(text))
  }

  /** The tokenising loop of analyze_from_input_file(): the lines are
      appended one after another, then every character either ends the
      current token (a space) or extends it; the last token is always
      pushed, empty or not. */
  method Tokenize(text: string) returns (comvec: seq<string>)
    ensures comvec == Tokens(text)
  {
    var lines := Lines(text);
    var commands := "";
    var m := 0;
    while m < |lines|
      invariant 0 <= m <= |lines|
      invariant commands == Concat(lines[..m])
    {
      ConcatStep(lines, m);
      commands := commands + lines[m];
      m := m + 1;
    }
    TakeAll(lines);
    LinesCover(text);

    comvec := [];
    var com := "";
    var n := 0;
    while n < |commands|
      invariant 0 <= n <= |commands|
      invariant comvec + [com] == SplitOnSpace(commands[..n])
    {
      var c := commands[n];
      TakeSnoc(commands, n);
      TokenStep(comvec, com, commands[..n], c);
      if c == ' ' {
        comvec := comvec + [com];
        com := "";
      } else {
        com := com + [c];
      }
      n := n + 1;
    }
    TakeAll(commands);
    comvec := comvec + [com];
  }

  /** One character of the tokenising loop: a space pushes the current
      token and starts an empty one, any other character extends it. */
  lemma TokenStep(comvec: seq<string>, com: string, s: string, c: char)
    requires comvec + [com] == SplitOnSpace(s)
    ensures c == ' ' ==> (comvec + [com]) + [[]] == SplitOnSpace(s + [c])
    ensures c != ' ' ==> comvec + [com + [c]] == SplitOnSpace(s + [c])
  {
    SplitSnoc(s, c);
    assert (comvec + [com])[..|comvec|] == comvec;
  }

  /** analyze_from_input_file() as a function of the file name and the
      files. */
  function FromInputFile(filename: string, env: Env): Outcome {
    if filename !in env.files then Aborted(InvalidInputFile(filename))
    else Analyze(Tokens(env.files[filename]), env)
  }

  method AnalyzeFromInputFile(filename: string, env: Env) returns (outcome: Outcome)
    ensures outcome == FromInputFile(filename, env)
  {
    if filename !in env.files {
      return Aborted(InvalidInputFile(filename));
    }
    var comvec := Tokenize(env.files[filename]);
    outcome := AnalyzeCommands(comvec, env);
  }

  /** args_handler() as a function of the arguments after the program name:
      none shows the help text; a first argument spelled exactly -i or
      --input reads the commands from the file named next, ignoring the
      rest (with no file named, the source reads past the argument list);
      anything else is dispatched as it stands. */
  function Handle(args: seq<string>, env: Env): Outcome {
    if args == [] then HelpShown
    else if args[0] == "-i" || args[0] == "--input" then
      if |args| < 2 then Undefined else FromInputFile(args[1], env)
    else Analyze(args, env)
  }

  method ArgsHandler(args: seq<string>, env: Env) returns (outcome: Outcome)
    ensures outcome == Handle(args, env)
  {
    if |args| == 0 {
      return HelpShown;
    }
    if args[0] == "-i" || args[0] == "--input" {
      if |args| < 2 {
        return Undefined;
      }
      outcome := AnalyzeFromInputFile(args[1], env);
      return;
    }
    outcome := AnalyzeCommands(args, env);
  }

  /** The help text appears only for a command line without arguments.
      `--help` given alone is no exception: it reaches the dispatcher,
      which refuses a single token with the invocation error. */
  lemma HelpOnlyWithoutArguments(args: seq<string>, env: Env)
    ensures Handle(args, env) == HelpShown <==> args == []
    ensures Handle(["--help"], env) == Aborted(InvocationParameters)
  {
    if args != [] {
      if args[0] == "-i" || args[0] == "--input" {
        if |args| >= 2 && args[1] in env.files {
          NeverHelp(Tokens(env.files[args[1]]), env);
        }
      } else {
        NeverHelp(args, env);
      }
    }
    assert ["--help"][0] != "-i" && ["--help"][0] != "--input";
    AnalyzeRefuses(["--help"], env);
  }

  /** Only the file name after -i/--input matters; later arguments are
      ignored. */
  lemma InputIgnoresRest(args: seq<string>, more: seq<string>, env: Env)
    requires |args| >= 2 && (args[0] == "-i" || args[0] == "--input")
    ensures Handle(args + more, env) == Handle(args, env) == FromInputFile(args[1], env)
  {
    assert (args + more)[..2] == args[..2];
  }

  /** An instructions file holding the arguments separated by single spaces
      runs exactly as those arguments given directly, provided no argument
      holds a space or a line end (those the file cannot carry). */
  lemma RouteViaFile(args: seq<string>, filename: string, env: Env)
    requires |args| >= 1 && NoSpaceIn(args)
    requires forall i | 0 <= i < |args| :: '\n' !in args[i]
    requires filename in env.files && env.files[filename] == JoinWithSpace(args)
    ensures FromInputFile(filename, env) == Analyze(args, env)
  {
    JoinNoNewline(args);
    StripNewlinesNone(JoinWithSpace(args));
    SplitJoin(args);
  }

  lemma {:induction false} JoinNoNewline(ts: seq<string>)
    requires |ts| >= 1 && forall i | 0 <= i < |ts| :: '\n' !in ts[i]
    ensures '\n' !in JoinWithSpace(ts)
    decreases |ts|
  {
    if |ts| > 1 {
      JoinNoNewline(ts[1..]);
    }
  }

  /** A command run with -i/--input needs its own -f/--file first token:
      an instructions file that starts with anything else, -i/--input again
      included, is refused with the invocation error. */
  lemma NoNestedInput(filename: string, env: Env)
    requires filename in env.files
    requires Flags.Interpret(Tokens(env.files[filename])[0]) != Flags.File
    ensures FromInputFile(filename, env) == Aborted(InvocationParameters)
  {
    AnalyzeRefuses(Tokens(env.files[filename]), env);
  }
}

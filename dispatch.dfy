/** The command dispatcher: checks the shape of the token list, opens the
    analysed file, detects output redirection, splits the scanned tokens
    into flags and operands, and runs the flags in order into one output
    buffer. */
module Dispatch {
  import opened Text
  import opened Flags
  import opened Format
  import P = Primitives

  datatype Error =
    | InvocationParameters
    | InvalidAnalyzedFile(path: string)
    | InvalidInputFile(path: string)

  /** The diagnostic `error()` writes to the error stream before exiting
      with status 1. */
  function Message(e: Error): string {
    match e
    case InvocationParameters => "*** ERROR: INCORRECT INVOCATION PARAMETERS ***"
    case InvalidAnalyzedFile(p) => "*** ERROR: INVALID ANALYZED FILE FILEPATH : " + p + " ***"
    case InvalidInputFile(p) => "*** ERROR: INVALID INPUT FILE FILEPATH: " + p + " ***"
  }

  /** What the program can reach: the files an `std::fstream` opens (it opens
      for reading and writing), with their text, and the paths an
      `std::ofstream` opens in append mode. */
  datatype Env = Env(files: map<string, string>, appendable: set<string>)

  datatype Sink = ToConsole | AppendTo(path: string)

  /** How one run ends. */
  datatype Outcome =
    | Completed(output: string, sink: Sink)  // the buffer reaches its sink, exit status 0
    | Aborted(error: Error)                  // error(): diagnostic, exit status 1
    | Undefined                              // behaviour the C++ language leaves undefined
    | HelpShown                              // help() and nothing else

  /** Where a completed buffer ends up: the console gets the buffer and a
      line end, or the output file gets it between two line ends and the
      console a confirmation naming the file. */
  datatype Delivery = Delivery(console: string, appended: string)

  function Delivered(output: string, sink: Sink): Delivery {
    match sink
    case ToConsole => Delivery(output + "\n", "")
    case AppendTo(p) => Delivery("*** OUTPUT SUCCESSFULLY TRANSFERRED TO: " + p + " ***\n", "\n" + output + "\n")
  }

  // ------------------------------------------------------------ the window

  /** The flags that take the trailing word list. */
  predicate TakesWords(f: Flag) {
    f == Anagrams || f == Palindromes
  }

  /** Output goes to a file when the second-to-last token is -o/--output. */
  function Redirected(comvec: seq<string>): bool
    requires |comvec| >= 2
  {
    Interpret(comvec[|comvec| - 2]) == Output
  }

  /** The tokens scanned for flags: from index 2 up to the end, or up to the
      -o/--output pair when output is redirected; the path after -f/--file
      and the redirection pair are never scanned. */
  function Window(comvec: seq<string>): (w: seq<string>)
    requires |comvec| >= 2
    ensures !Redirected(comvec) ==> w == comvec[2..]
    ensures Redirected(comvec) && |comvec| >= 4 ==> w == comvec[2..|comvec| - 2]
    ensures Redirected(comvec) && |comvec| < 4 ==> w == []
  {
    var limit := if Redirected(comvec) then |comvec| - 2 else |comvec|;
    if limit <= 2 then [] else comvec[2..limit]
  }

  // ------------------------------------------------------- the partition

  /** Every scanned token classified, position by position. */
  function Classify(window: seq<string>): (cs: seq<Flag>)
    ensures |cs| == |window|
  {
    if window == [] then [] else [Interpret(window[0])] + Classify(window[1..])
  }

  /** The classification at each position is that of the token there, and
      never `Help`. */
  lemma {:induction false} ClassifyAt(window: seq<string>, n: nat)
    requires n < |window|
    ensures Classify(window)[n] == Interpret(window[n]) != Help
  {
    if n == 0 {
      InterpretSpec(window[0]);
    } else {
      ClassifyAt(window[1..], n - 1);
    }
  }

  lemma ClassifyNoHelp(window: seq<string>)
    ensures Help !in Classify(window)
    ensures forall n | 0 <= n < |window| :: Classify(window)[n] == Interpret(window[n])
  {
    forall n | 0 <= n < |window| ensures Classify(window)[n] == Interpret(window[n]) != Help {
      ClassifyAt(window, n);
    }
  }

  /** How many tokens are read as flags, given their classifications: up to
      and including the first -a/-p, or all of them when there is none. */
  function LatchEnd(cs: seq<Flag>): (k: nat)
    ensures k <= |cs|
  {
    if cs == [] then 0
    else if TakesWords(cs[0]) then 1
    else 1 + LatchEnd(cs[1..])
  }

  /** Before the first -a/-p every token is a flag; the first -a/-p is the
      last flag. */
  lemma {:induction false} LatchEndAt(cs: seq<Flag>, n: nat)
    requires n < |cs|
    requires forall m | 0 <= m < n :: !TakesWords(cs[m])
    ensures n < LatchEnd(cs)
    ensures TakesWords(cs[n]) ==> LatchEnd(cs) == n + 1
  {
    if n > 0 {
      assert !TakesWords(cs[0]);
      LatchEndAt(cs[1..], n - 1);
    }
  }

  /** Without -a/-p every token is a flag. */
  lemma {:induction false} LatchEndNone(cs: seq<Flag>)
    requires forall m | 0 <= m < |cs| :: !TakesWords(cs[m])
    ensures LatchEnd(cs) == |cs|
  {
    if cs != [] {
      assert !TakesWords(cs[0]);
      LatchEndNone(cs[1..]);
    }
  }

  datatype Scan = Scanned(flags: seq<Flag>, words: seq<string>) | Rejected

  /** The flag/operand split of the scanned tokens `window`, whose
      classifications are `cs`: every token up to the first -a/-p is a flag
      and must classify, every later token is an operand, kept verbatim. */
  function Partition(cs: seq<Flag>, window: seq<string>): Scan
    requires |cs| == |window|
  {
    var k := LatchEnd(cs);
    if exists i | 0 <= i < k :: cs[i] == Invalid then Rejected
    else Scanned(cs[..k], window[k..])
  }

  /** What the split guarantees: the flags are the leading classifications,
      none of them invalid; only the last one can be -a/-p; operands exist
      only after an -a/-p; and all tokens are accounted for. */
  lemma PartitionShape(cs: seq<Flag>, window: seq<string>)
    requires |cs| == |window|
    ensures var r := Partition(cs, window);
      r.Scanned? ==> |r.flags| + |r.words| == |window| && r.flags == cs[..|r.flags|]
                     && r.words == window[|r.flags|..]
    ensures var r := Partition(cs, window);
      r.Scanned? ==> forall i | 0 <= i < |r.flags| :: r.flags[i] != Invalid
    ensures var r := Partition(cs, window);
      r.Scanned? ==> forall i | 0 <= i < |r.flags| - 1 :: !TakesWords(r.flags[i])
    ensures var r := Partition(cs, window);
      r.Scanned? && r.words != [] ==> |r.flags| > 0 && TakesWords(r.flags[|r.flags| - 1])
    ensures Partition(cs, window).Rejected? <==> exists i | 0 <= i < LatchEnd(cs) :: cs[i] == Invalid
  {
    var k := LatchEnd(cs);
    var n := 0;
    while n < |cs| && !TakesWords(cs[n])
      invariant n <= |cs| && forall m | 0 <= m < n :: !TakesWords(cs[m])
    {
      n := n + 1;
    }
    if n < |cs| {
      LatchEndAt(cs, n);
    } else {
      LatchEndNone(cs);
    }
  }

  /** Everything after the first -a/-p is an operand, whatever it is: a
      second -a/-p, any other flag, or a token that is no flag at all. So
      asking for anagrams and palindromes together is never reported as a
      conflict; the later flag is searched for as a word. */
  lemma OperandsAfterFirstListFlag(cs: seq<Flag>, window: seq<string>, n: nat)
    requires n < |cs| == |window|
    requires forall i | 0 <= i < n :: cs[i] != Invalid && !TakesWords(cs[i])
    requires TakesWords(cs[n])
    ensures Partition(cs, window) == Scanned(cs[..n + 1], window[n + 1..])
  {
    LatchEndAt(cs, n);
  }

  /** The second of two -a/-p tokens lands in the word list, at its place
      among the operands. */
  lemma SecondListFlagIsOperand(cs: seq<Flag>, window: seq<string>, i: nat, j: nat)
    requires |cs| == |window| && i < j < |window|
    requires TakesWords(cs[i]) && TakesWords(cs[j])
    ensures Partition(cs, window).Scanned? ==>
      var r := Partition(cs, window); |r.flags| <= j && r.words[j - |r.flags|] == window[j]
  {
    PartitionShape(cs, window);
  }

  // ----------------------------------------------------------- execution

  datatype Exec = Ran(buffer: string) | Halted(outcome: Outcome)

  /** The literal text count_numbers() searches every line for (a regular
      expression, but searched for as plain text). */
  const NumbersPattern: string := "(/\\s|^)-?(\\d+)(\\s|$/gm)"

  /** `p` occurs in `s` at some position (`find` does not answer `npos`). */
  predicate Contains(s: string, p: string) {
    if |s| < |p| then false else s[..|p|] == p || Contains(s[1..], p)
  }

  /** count_numbers() never leaves its inner loop once it finds the text on
      a line: its search position never moves while its `int` counter keeps
      growing. That loop has no observable effect and overflows a signed
      integer, so C++ leaves the whole run undefined. */
  predicate NumbersLoopsForever(text: string) {
    exists k | 0 <= k < |Lines(text)| :: Contains(Lines(text)[k], NumbersPattern)
  }

  /** The message count_numbers() builds around its counter. */
  function NumbersMessage(counter: nat): string {
    "Number of numbers in file: " + NatToString(counter)
    + "*** UNRELIABLE RESULT: THIS FEATURE IS STILL IN DEVELOPMENT, SORRY :( ***"
  }

  /** count_numbers() neither rewinds the file nor counts anything when it
      returns: it reads from where the previous primitive stopped, and its
      counter only moves inside the loop it never leaves. */
  const NumbersReport: string := NumbersMessage(0)

  /** A copy of `p` starts at position `i` of `s`. */
  predicate OccursAt(s: string, p: string, i: nat) {
    i + |p| <= |s| && s[i..i + |p|] == p
  }

  /** `Contains` is the search `find` makes: some position of `s` starts a
      copy of `p`. */
  lemma {:induction false} ContainsAt(s: string, p: string)
    ensures Contains(s, p) <==> exists i: nat :: OccursAt(s, p, i)
    decreases |s|
  {
    if |s| >= |p| && s != [] {
      ContainsAt(s[1..], p);
      if s[..|p|] == p {
        assert s[0..0 + |p|] == p;
        assert OccursAt(s, p, 0);
      }
      if Contains(s[1..], p) {
        var i: nat :| OccursAt(s[1..], p, i);
        assert s[1..][i..i + |p|] == s[i + 1..i + 1 + |p|];
        assert OccursAt(s, p, i + 1);
      }
      if exists i: nat :: OccursAt(s, p, i) {
        var i: nat :| OccursAt(s, p, i);
        if i > 0 {
          assert s[1..][i - 1..i - 1 + |p|] == s[i..i + |p|];
          assert OccursAt(s[1..], p, i - 1);
        } else {
          assert s[..|p|] == s[i..i + |p|];
        }
      }
    } else if |s| >= |p| {
      assert OccursAt(s, p, 0);
    }
  }

  /** Run first, count_numbers() never returns once some line holds its
      search text, at whatever position. */
  lemma NumbersUndefinedOnPattern(text: string, words: seq<string>, k: nat, i: nat)
    requires k < |Lines(text)| && OccursAt(Lines(text)[k], NumbersPattern, i)
    ensures ReportOf(Numbers, text, words, true) == Halted(Undefined)
  {
    ContainsAt(Lines(text)[k], NumbersPattern);
  }

  /** A -dd that stops the run ran first on a file with the search text on
      some line: the lemma names that line and the position. With
      `NumbersUndefinedOnPattern` this decides exactly when -dd stops. */
  lemma NumbersHaltsOnPattern(text: string, words: seq<string>, first: bool) returns (k: nat, i: nat)
    requires ReportOf(Numbers, text, words, first).Halted?
    ensures first && k < |Lines(text)| && OccursAt(Lines(text)[k], NumbersPattern, i)
  {
    k :| 0 <= k < |Lines(text)| && Contains(Lines(text)[k], NumbersPattern);
    ContainsAt(Lines(text)[k], NumbersPattern);
    i :| OccursAt(Lines(text)[k], NumbersPattern, i);
  }

  /** Whenever count_numbers() returns, it reports a count of zero, the
      same whatever the file holds and whichever flags ran before. */
  lemma NumbersCountsNothing(t1: string, t2: string, w1: seq<string>, w2: seq<string>, first1: bool, first2: bool)
    requires ReportOf(Numbers, t1, w1, first1).Ran?
    ensures ReportOf(Numbers, t1, w1, first1).buffer == NumbersMessage(0)
    ensures ReportOf(Numbers, t2, w2, first2).Ran? ==> ReportOf(Numbers, t2, w2, first2) == ReportOf(Numbers, t1, w1, first1)
  {
  }

  /** The buffer reaches exactly one place whole: the console, followed by a
      line end, or the output file, between two line ends. A redirected run
      writes only the confirmation to the console, the same whatever the
      buffer holds. */
  lemma DeliveredOnce(output: string, sink: Sink)
    ensures var d := Delivered(output, sink);
      sink == ToConsole ==> d.appended == [] && d.console[..|output|] == output && d.console[|output|..] == "\n"
    ensures var d := Delivered(output, sink);
      sink.AppendTo? ==> |d.appended| == |output| + 2 && d.appended[1..|output| + 1] == output
                         && d.appended[0] == '\n' && d.appended[|output| + 1] == '\n'
                         && d.console == Delivered([], sink).console
                         && d.console == "*** OUTPUT SUCCESSFULLY TRANSFERRED TO: " + sink.path + " ***\n"
  {
  }

  function Listing(r: P.Option<string>): Exec {
    if r.Some? then Ran(r.value) else Halted(Undefined)
  }

  /** The report one flag appends, or how the run ends at it; `first` says
      that no primitive has read the file yet. The help branch is left out:
      `Interpret` never yields `Help`. */
  function ReportOf(f: Flag, text: string, words: seq<string>, first: bool): (e: Exec)
    requires f != Help
    ensures e.Halted? ==> Stops(e.outcome)
    ensures f == Numbers && e.Halted? ==> first && e.outcome == Undefined
  {
    match f
    case Newlines => Ran("Number of newline characters in file: " + NatToString(P.LineCount(text)))
    case Digits => Ran("Number of digits in file: " + NatToString(DigitCount(text)))
    case Numbers => if first && NumbersLoopsForever(text) then Halted(Undefined) else Ran(NumbersReport)
    case Chars => Ran("Number of characters in file: " + NatToString(|NonSpace(text)|))
    case Anagrams => Listing(P.AnagramsReport(text, words))
    case Palindromes => Listing(P.PalindromesReport(text, words))
    case Sorted => Listing(P.SortedReport(text))
    case ReverseSorted => Listing(P.ReverseSortedReport(text))
    case _ => Halted(Aborted(InvocationParameters))
  }

  /** The ways a run of the flags can stop early: never with output, never
      with the help text. */
  predicate Stops(o: Outcome) {
    o == Undefined || o == Aborted(InvocationParameters)
  }

  /** Running the flags in order after `acc` has been written. A run that
      completes only ever appends to `acc`. */
  function Run(flags: seq<Flag>, text: string, words: seq<string>, acc: string, first: bool): (e: Exec)
    requires Help !in flags
    ensures e.Halted? ==> Stops(e.outcome)
    ensures e.Ran? ==> |acc| <= |e.buffer| && e.buffer[..|acc|] == acc
    decreases |flags|
  {
    if flags == [] then Ran(acc)
    else
      match ReportOf(flags[0], text, words, first)
      case Ran(r) =>
        var e := Run(flags[1..], text, words, acc + r + "\n", false);
        assert e.Ran? ==> e.buffer[..|acc|] == (acc + r + "\n")[..|acc|];
        e
      case Halted(o) => Halted(o)
  }

  /** The output buffer is built piece by piece: running two lists of flags
      one after the other is running the first and then, from its buffer,
      the second. */
  lemma {:induction false} RunAppend(f1: seq<Flag>, f2: seq<Flag>, text: string, words: seq<string>, acc: string, first: bool)
    requires Help !in f1 && Help !in f2
    ensures Help !in f1 + f2
    ensures Run(f1 + f2, text, words, acc, first)
         == match Run(f1, text, words, acc, first)
            case Ran(b) => Run(f2, text, words, b, first && f1 == [])
            case Halted(o) => Halted(o)
    decreases |f1|
  {
    if f1 != [] {
      assert (f1 + f2)[0] == f1[0] && (f1 + f2)[1..] == f1[1..] + f2;
      match ReportOf(f1[0], text, words, first)
      case Ran(r) => RunAppend(f1[1..], f2, text, words, acc + r + "\n", false);
      case Halted(o) =>
    } else {
      assert f1 + f2 == f2;
    }
  }

  /** A flag given twice reports twice: each report is computed anew and
      appended with its line end. */
  lemma RepeatedFlagReportsTwice(f: Flag, text: string, words: seq<string>, acc: string, r: string)
    requires f != Help
    requires ReportOf(f, text, words, true) == Ran(r)
    ensures Run([f, f], text, words, acc, true) == Ran(acc + r + "\n" + r + "\n")
  {
    assert [f, f][1..] == [f] && [f][1..] == [];
    ReportAgain(f, text, words, r);
    assert Run([f], text, words, acc + r + "\n", false) == Ran(acc + r + "\n" + r + "\n");
  }

  /** A report computed once the file has been read is the same as the
      first time: every primitive rewinds the file, and count_numbers()
      then reports zero. */
  lemma ReportAgain(f: Flag, text: string, words: seq<string>, r: string)
    requires f != Help
    requires ReportOf(f, text, words, true) == Ran(r)
    ensures ReportOf(f, text, words, false) == Ran(r)
  {
  }

  /** -f, -o and -i among the scanned flags end the run once execution
      reaches them, throwing away the buffer; when the flags before them
      all returned, the run ends with the invocation error. */
  lemma {:induction false} MisplacedFlagAborts(flags: seq<Flag>, text: string, words: seq<string>, acc: string, first: bool, i: nat)
    requires Help !in flags
    requires i < |flags| && (flags[i] == File || flags[i] == Output || flags[i] == Input)
    ensures Run(flags, text, words, acc, first).Halted?
    ensures Run(flags[..i], text, words, acc, first).Ran? ==>
              Run(flags, text, words, acc, first) == Halted(Aborted(InvocationParameters))
    decreases i
  {
    assert flags == flags[..i] + flags[i..];
    assert flags[i..][0] == flags[i];
    RunAppend(flags[..i], flags[i..], text, words, acc, first);
    if i > 0 {
      match ReportOf(flags[0], text, words, first)
      case Ran(r) => MisplacedFlagAborts(flags[1..], text, words, acc + r + "\n", false, i - 1);
      case Halted(o) =>
    }
  }

  // ------------------------------------------------------------- the whole

  /** analyze_commands() as a function of the token list and the files. */
  function Analyze(comvec: seq<string>, env: Env): Outcome {
    if |comvec| < 2 || Interpret(comvec[0]) != File then Aborted(InvocationParameters)
    else if comvec[1] !in env.files then Aborted(InvalidAnalyzedFile(comvec[1]))
    else if Redirected(comvec) && comvec[|comvec| - 1] !in env.appendable then Aborted(InvocationParameters)
    else
      var window := Window(comvec);
      ClassifyNoHelp(window);
      match Partition(Classify(window), window)
      case Rejected => Aborted(InvocationParameters)
      case Scanned(flags, words) =>
        match Run(flags, env.files[comvec[1]], words, "", true)
        case Ran(output) =>
          Completed(output, if Redirected(comvec) then AppendTo(comvec[|comvec| - 1]) else ToConsole)
        case Halted(o) => o
  }

  /** A run completes only when the first token is -f/--file and names a
      file that opens; its output then goes to the last token exactly when
      the second-to-last is -o/--output. */
  lemma CompletedShape(comvec: seq<string>, env: Env)
    requires Analyze(comvec, env).Completed?
    ensures |comvec| >= 2 && Interpret(comvec[0]) == File && comvec[1] in env.files
    ensures Analyze(comvec, env).sink == if Redirected(comvec) then AppendTo(comvec[|comvec| - 1]) else ToConsole
  {
  }

  /** The dispatcher never shows the help text. */
  lemma NeverHelp(comvec: seq<string>, env: Env)
    ensures Analyze(comvec, env) != HelpShown
  {
  }

  /** Each check of analyze_commands() that fails ends the run with its own
      error, before any flag runs. */
  lemma AnalyzeRefuses(comvec: seq<string>, env: Env)
    ensures |comvec| < 2 || Interpret(comvec[0]) != File ==>
      Analyze(comvec, env) == Aborted(InvocationParameters)
    ensures |comvec| >= 2 && Interpret(comvec[0]) == File && comvec[1] !in env.files ==>
      Analyze(comvec, env) == Aborted(InvalidAnalyzedFile(comvec[1]))
    ensures |comvec| >= 2 && Interpret(comvec[0]) == File && comvec[1] in env.files
            && Redirected(comvec) && comvec[|comvec| - 1] !in env.appendable ==>
      Analyze(comvec, env) == Aborted(InvocationParameters)
    ensures |comvec| >= 2 && Interpret(comvec[0]) == File && comvec[1] in env.files
            && (Redirected(comvec) ==> comvec[|comvec| - 1] in env.appendable)
            && Partition(Classify(Window(comvec)), Window(comvec)).Rejected? ==>
      Analyze(comvec, env) == Aborted(InvocationParameters)
  {
  }

  /** The diagnostics tell the errors apart: equal texts come from the same
      error, with the same path. */
  lemma MessageIdentifies(e1: Error, e2: Error)
    requires Message(e1) == Message(e2)
    ensures e1 == e2
  {
    var m := Message(e1);
    MessageTag(e1);
    MessageTag(e2);
    if e1.InvalidAnalyzedFile? && e2.InvalidAnalyzedFile? {
      assert e1.path == m[44..|m| - 4] == e2.path;
    } else if e1.InvalidInputFile? && e2.InvalidInputFile? {
      assert e1.path == m[40..|m| - 4] == e2.path;
    }
  }

  /** Two letters of a diagnostic that tell its kind. */
  lemma MessageTag(e: Error)
    ensures |Message(e)| > 19
    ensures Message(e)[13] == (if e.InvocationParameters? then 'C' else 'V')
    ensures Message(e)[19] == match e
      case InvocationParameters => 'T'
      case InvalidAnalyzedFile(_) => 'A'
      case InvalidInputFile(_) => 'I'
  {
  }

  /** The scanning loop of analyze_commands(): tokens 2 up to `limit` are
      read as flags until the first -a/-p, and as operands after it; `cs`
      holds the classification of every scanned token. */
  method ScanFlags(comvec: seq<string>, limit: int, ghost cs: seq<Flag>) returns (scan: Scan)
    requires 0 <= limit <= |comvec|
    requires var window := if limit <= 2 then [] else comvec[2..limit];
      |cs| == |window| && forall n | 0 <= n < |window| :: cs[n] == Interpret(window[n])
    ensures var window := if limit <= 2 then [] else comvec[2..limit];
      scan == Partition(cs, window)
  {
    ghost var window := if limit <= 2 then [] else comvec[2..limit];

    var putToWordVec := false;
    var flagList: seq<Flag> := [];
    var wordVec: seq<string> := [];
    var i := 2;
    while i < limit
      invariant 2 <= i <= |window| + 2
      invariant ScanState(cs, window, i - 2, putToWordVec, flagList, wordVec)
    {
      assert window[i - 2] == comvec[i];
      if !putToWordVec {
        var currentFlag := InterpretEntry(comvec[i]);
        if currentFlag == Invalid {
          PartitionRejects(cs, window, i - 2);
          return Rejected;
        }
        ScanFlagStep(cs, window, i - 2, flagList);
        if currentFlag == Anagrams || currentFlag == Palindromes {
          // The source stops here with the "cannot call both" error when
          // word_vec is not empty; it always is, since only this flag
          // starts filling it.
          assert wordVec == [];
          putToWordVec := true;
        }
        flagList := flagList + [currentFlag];
      } else {
        ScanWordStep(cs, window, i - 2, flagList, wordVec);
        wordVec := wordVec + [comvec[i]];
      }
      i := i + 1;
    }
    ScanDone(cs, window, putToWordVec, flagList, wordVec);
    return Scanned(flagList, wordVec);
  }

  /** Where the scan stands after `n` tokens: before the latch the flags
      are the first `n` classifications, none of them -a/-p, and there are
      no operands; after it the flags end at the latch and the operands are
      the tokens since. No flag kept is invalid. */
  ghost predicate ScanState(cs: seq<Flag>, window: seq<string>, n: nat, latched: bool,
                            flags: seq<Flag>, words: seq<string>)
    requires |cs| == |window| && n <= |cs|
  {
    (!latched ==> flags == cs[..n] && words == [] && forall m | 0 <= m < n :: !TakesWords(cs[m]))
    && (latched ==> 0 < LatchEnd(cs) <= n && flags == cs[..LatchEnd(cs)]
                    && words == window[LatchEnd(cs)..n])
    && forall m | 0 <= m < |flags| :: flags[m] != Invalid
  }

  /** A valid token read before the latch becomes the next flag. */
  lemma ScanFlagStep(cs: seq<Flag>, window: seq<string>, n: nat, flags: seq<Flag>)
    requires |cs| == |window| && n < |cs| && cs[n] != Invalid
    requires ScanState(cs, window, n, false, flags, [])
    ensures ScanState(cs, window, n + 1, TakesWords(cs[n]), flags + [cs[n]], [])
  {
    LatchEndAt(cs, n);
    TakeSnoc(cs, n);
  }

  /** A token read after the latch becomes the next operand. */
  lemma ScanWordStep(cs: seq<Flag>, window: seq<string>, n: nat, flags: seq<Flag>, words: seq<string>)
    requires |cs| == |window| && n < |cs|
    requires ScanState(cs, window, n, true, flags, words)
    ensures ScanState(cs, window, n + 1, true, flags, words + [window[n]])
  {
    SliceSnoc(window, LatchEnd(cs), n);
  }

  /** Every token read without rejection: the scan is the split. */
  lemma ScanDone(cs: seq<Flag>, window: seq<string>, latched: bool, flags: seq<Flag>, words: seq<string>)
    requires |cs| == |window|
    requires ScanState(cs, window, |cs|, latched, flags, words)
    ensures Partition(cs, window) == Scanned(flags, words)
  {
    if !latched {
      LatchEndNone(cs);
    }
    PartitionScans(cs, window, flags);
  }

  /** An invalid token met while still reading flags rejects the command. */
  lemma PartitionRejects(cs: seq<Flag>, window: seq<string>, n: nat)
    requires |cs| == |window| && n < |cs| && cs[n] == Invalid
    requires forall m | 0 <= m < n :: !TakesWords(cs[m])
    ensures Partition(cs, window) == Rejected
  {
    LatchEndAt(cs, n);
  }

  /** Flags read up to the latch, none invalid, are the split's flags. */
  lemma PartitionScans(cs: seq<Flag>, window: seq<string>, flags: seq<Flag>)
    requires |cs| == |window|
    requires flags == cs[..LatchEnd(cs)]
    requires forall m | 0 <= m < |flags| :: flags[m] != Invalid
    ensures Partition(cs, window) == Scanned(flags, window[LatchEnd(cs)..])
  {
    var k := LatchEnd(cs);
    forall i | 0 <= i < k ensures cs[i] != Invalid {
      assert cs[i] == flags[i];
    }
  }

  /** The loop around the switch of analyze_commands(): the flags run in
      order, each appending its report and a line end to the buffer. */
  method Execute(flagList: seq<Flag>, text: string, wordVec: seq<string>) returns (e: Exec)
    requires Help !in flagList
    ensures e == Run(flagList, text, wordVec, "", true)
  {
    var output := "";
    var j := 0;
    while j < |flagList|
      invariant 0 <= j <= |flagList|
      invariant Run(flagList, text, wordVec, "", true) == Run(flagList[j..], text, wordVec, output, j == 0)
    {
      assert flagList[j..][0] == flagList[j] && flagList[j..][1..] == flagList[j + 1..];
      var step := ExecuteFlag(flagList[j], text, wordVec, j == 0);
      if step.Halted? {
        return step;
      }
      output := output + step.buffer + "\n";
      j := j + 1;
    }
    assert flagList[|flagList|..] == [];
    return Ran(output);
  }

  /** One case of the switch of analyze_commands(): the report of one flag,
      or how the run ends at it; `first` says that no primitive has read the
      file yet. */
  method ExecuteFlag(flag: Flag, text: string, wordVec: seq<string>, first: bool) returns (e: Exec)
    requires flag != Help
    ensures e == ReportOf(flag, text, wordVec, first)
  {
    match flag {
      case Help =>
        // help() would print the help text here; `Interpret` never yields
        // `Help`.
        assert false;
      case Newlines =>
        var r := P.Newlines(text);
        return Ran(r);
      case Digits =>
        var r := P.CountDigits(text);
        return Ran(r);
      case Numbers =>
        if first && NumbersLoopsForever(text) {
          return Halted(Undefined);
        }
        return Ran(NumbersReport);
      case Chars =>
        var r := P.CountChars(text);
        return Ran(r);
      case Anagrams =>
        e := ExecuteListing(flag, text, wordVec);
      case Palindromes =>
        e := ExecuteListing(flag, text, wordVec);
      case Sorted =>
        e := ExecuteListing(flag, text, wordVec);
      case ReverseSorted =>
        e := ExecuteListing(flag, text, wordVec);
      case _ =>
        return Halted(Aborted(InvocationParameters));
    }
  }

  /** The cases of the switch that end in a "[..]" listing. */
  method ExecuteListing(flag: Flag, text: string, wordVec: seq<string>) returns (e: Exec)
    requires flag == Anagrams || flag == Palindromes || flag == Sorted || flag == ReverseSorted
    ensures e == ReportOf(flag, text, wordVec, false)
  {
    var r: P.Option<string>;
    if flag == Anagrams {
      r := P.Anagrams(text, wordVec);
    } else if flag == Palindromes {
      r := P.Palindromes(text, wordVec);
    } else if flag == Sorted {
      r := P.Sorted(text);
    } else {
      r := P.ReverseSorted(text);
    }
    return Listing(r);
  }

  /** analyze_commands(). */
  method AnalyzeCommands(comvec: seq<string>, env: Env) returns (outcome: Outcome)
    ensures outcome == Analyze(comvec, env)
  {
    if |comvec| < 2 {
      return Aborted(InvocationParameters);
    }
    var firstFlag := InterpretEntry(comvec[0]);
    if firstFlag != File {
      return Aborted(InvocationParameters);
    }
    if comvec[1] !in env.files {
      return Aborted(InvalidAnalyzedFile(comvec[1]));
    }
    var text := env.files[comvec[1]];

    var routeOutputToFile := false;
    var secondToLast := InterpretEntry(comvec[|comvec| - 2]);
    if secondToLast == Output {
      routeOutputToFile := true;
      if comvec[|comvec| - 1] !in env.appendable {
        return Aborted(InvocationParameters);
      }
    }
    var limit := if routeOutputToFile then |comvec| - 2 else |comvec|;
    ClassifyNoHelp(Window(comvec));
    var scan := ScanFlags(comvec, limit, Classify(Window(comvec)));
    if scan.Rejected? {
      return Aborted(InvocationParameters);
    }
    var e := Execute(scan.flags, text, scan.words);
    if e.Halted? {
      return e.outcome;
    }
    if !routeOutputToFile {
      return Completed(e.buffer, ToConsole);
    }
    return Completed(e.buffer, AppendTo(comvec[|comvec| - 1]));
  }
}

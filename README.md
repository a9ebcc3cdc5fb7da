# PJAText in Dafny

PJAText is a command-line text analyser. It is invoked as
`-f <file> <flags...> [-o <output file>]` or as `-i <instructions file>`.
It classifies every token against a table of short and long flag spellings and
checks the shape of the command. It then runs the requested analyses over the
file, in the order they were given:
- line, digit and character counts;
- the sorted and reverse-sorted set of words;
- palindromes and anagrams of operand words.

The reports are collected into one buffer, which goes to the console or is
appended to an output file.

This project models the core of `main.cpp`:

- **`Flags`** models the flag table and `flags::interpret`. The table is kept in
  `std::map` order (by short spelling). A token matches a row when it equals
  either spelling (`flag_strings::operator==`).
- **`Dispatch`** models `analyze_commands`:
  - the arity and first-token checks;
  - output redirection detected from the second-to-last token, which narrows
    the scanned window;
  - the one-way latch that splits the window into `flag_list` and `word_vec`;
  - the execution loop that appends each report and a line end to the buffer;
  - where the buffer goes.
- **`Primitives`** models `newlines`, `count_digits`, `count_chars`, `sorted`,
  `reverse_sorted`, `sorted_vector`, `palindromes` and `anagrams`. Each is a
  method with the source's nested `getline`/`>>` loops, proved equal to a
  specification function of the file's text.
- **`Text`** models lines as `std::getline` yields them, words as
  `stringstream >> word` extracts them, and the split at single spaces.
- **`Order`** models string order, the `std::set` of words as a strictly
  ascending sequence, and sorting a word's letters.
- **`Format`** models `std::to_string` and the `"[a, b, c]"` listing loop.
- **`Instructions`** models:
  - the tokenising loop of `analyze_from_input_file`, which runs the lines
    together with no separator and splits at every single space, keeping empty
    tokens;
  - the routing of `args_handler`.

The environment is a value `Env(files, appendable)`:
- the files an `std::fstream` can open, with their text;
- the paths an append-mode `std::ofstream` can open.

A run ends in one `Outcome`:
- `Completed(output, sink)`;
- `Aborted(error)`, for `error()`, which prints a diagnostic and exits with status 1;
- `Undefined`, for behaviour the C++ language leaves undefined;
- `HelpShown`.

Where the program's documentation and its code disagree, the model
follows the code:
- **A second -a or -p does not conflict.** The latch `put_to_word_vec` is never
  cleared (`main.cpp:377`), so every token after the first `-a`/`-p` is an
  operand, including a second `-a`/`-p`. The "cannot call both" error
  (`main.cpp:375-376`) can never fire, because `word_vec` is empty whenever the
  latch is off. `ScanFlags` asserts this at that point, and
  `SecondListFlagIsOperand` and `OperandsAfterFirstListFlag` state it.
- **Instructions files split at single spaces only.** The lines are run
  together with nothing between them and split at each `' '` character. They
  are not split at arbitrary whitespace, and empty tokens are kept.
- **`count_numbers` never rewinds the file** and counts nothing whenever it
  returns. Its loop never advances its search position (`main.cpp:111-115`).
  Two cases follow:
  - Suppose the literal pattern text occurs on a line while the file is still
    unread (the flag is the first to run). Then the inner loop never ends.
    It has no observable effect and keeps incrementing an `int`, so it
    overflows a signed integer. C++ leaves such a loop undefined, and the
    run is `Undefined`.
  - Otherwise the report is always a count of 0, followed directly by the
    "unreliable" note with no space between them.
- **`--help` given alone ends with the invocation error, not the help page.**
  The help text promises the page for `--help` (`main.cpp:299`), but
  `args_handler` shows it only with no arguments (`main.cpp:480-482`).
  `--help` alone goes to `analyze_commands`, which refuses a single token
  (`main.cpp:343-344`). `HelpOnlyWithoutArguments` states this.
- **`-n` counts lines, not newline characters.** Its documentation speaks of
  newline characters (`main.cpp:66-69, 77, 302`), but it counts the lines
  `getline` returns (`main.cpp:74-76`): `"a\nb"` reports 2 and `"a\n"`
  reports 1. `Primitives.Newlines` reports `LineCount`, and `LinesCount`
  relates it to the `'\n'` characters.
- **`-c` counts only non-whitespace characters.** Its documentation speaks of
  the characters of the file (`main.cpp:122-125, 305`), but it counts the
  characters of the words `>>` extracts (`main.cpp:130-136`), so spaces, tabs
  and line ends are not counted. `Primitives.CountChars` states this.
- **`help_` is unreachable.** `--help` has no row in the table, so `interpret`
  never yields `help_`, and the `help_` branch of the dispatcher
  (`main.cpp:385-388`) cannot be reached.

## Model

| member | source | states |
|---|---|---|
| `Flags.InterpretEntry` | main.cpp:56-61 | the loop over the table returns exactly the flag the lookup specification gives for the entry |
| `Flags.LookupSpec` | main.cpp:56-61 | over rows without `Help`/`Invalid`, the lookup is never `Help`; it is `Invalid` iff no row's short or long spelling equals the token, and otherwise it is the flag of a matching row |
| `Flags.InterpretSpec` | main.cpp:41-61 | interpret never yields `Help`; it yields `Invalid` iff no table row matches the token, and otherwise the flag of a row that matches |
| `Flags.AliasesAgree` | main.cpp:21-54 | both the short and the long spelling of every table row classify as that row's flag |
| `Flags.MatchUnique` | main.cpp:41-54 | the 22 spellings are pairwise distinct: a token matches at most one row |
| `Flags.HelpIsNotAnAlias` | main.cpp:41-61 | `--help` and the empty token both classify as `Invalid` |
| `Flags.TableInMapOrder` | main.cpp:27-29 | the table rows are strictly ascending by short spelling, the order `std::map` iterates them in |
| `Dispatch.Window` | main.cpp:357-369 | the scanned tokens are `comvec[2..]`, or `comvec[2..size-2]` when the second-to-last token is -o/--output (empty when that leaves nothing) |
| `Dispatch.ClassifyAt` | main.cpp:371 | each scanned token's classification is `interpret` of that token, never `Help` |
| `Dispatch.ClassifyNoHelp` | main.cpp:383-388 | no scanned token classifies as `Help`, so the help branch of the switch is unreachable |
| `Dispatch.LatchEndAt` | main.cpp:369-381 | every token before the first -a/-p is read as a flag, and the first -a/-p is the last flag |
| `Dispatch.LatchEndNone` | main.cpp:369-381 | without -a/-p every scanned token is read as a flag |
| `Dispatch.PartitionShape` | main.cpp:369-382 | flags are the leading classifications, none invalid; only the last can be -a/-p; operands exist only after an -a/-p; flags and operands account for every token; the scan is rejected iff an invalid token comes before the latch |
| `Dispatch.PartitionRejects` | main.cpp:371-373 | an invalid token met while the latch is off rejects the command |
| `Dispatch.OperandsAfterFirstListFlag` | main.cpp:369-382 | after the first -a/-p every token, whatever it is, is an operand kept verbatim and in order |
| `Dispatch.SecondListFlagIsOperand` | main.cpp:374-381 | a second -a/-p lands in the word list at its own position, so the conflict error never fires |
| `Dispatch.ScanFlags` | main.cpp:365-382 | the scanning loop with the latch produces exactly the partition of the window into flags and operands, or the rejection |
| `Dispatch.ReportOf` | main.cpp:389-424 | one flag either appends a report or stops the run with undefined behaviour or the invocation error; -dd stops the run only when it runs first, and then as undefined behaviour |
| `Dispatch.Run` | main.cpp:383-426 | a run that stops early never stops with output or help, and a run that completes only appends to the buffer it started from |
| `Dispatch.ContainsAt` | main.cpp:110-112 | the search for the pattern succeeds on a line exactly when a copy of the pattern starts at some position of it |
| `Dispatch.NumbersUndefinedOnPattern` | main.cpp:106-115 | run first, count_numbers never returns once some line holds the pattern text at any position |
| `Dispatch.NumbersHaltsOnPattern` | main.cpp:106-119 | -dd stops the run only when it runs first and some line holds the pattern text, at a line and position it names; with `NumbersUndefinedOnPattern` this is an if and only if |
| `Dispatch.NumbersCountsNothing` | main.cpp:106-119 | whenever count_numbers returns, it reports a count of 0 with the note, the same for every file and every earlier flag |
| `Dispatch.DeliveredOnce` | main.cpp:427-434 | the buffer goes whole to exactly one place: the console followed by a line end, or the output file between two line ends; a redirected run writes to the console only the confirmation naming the output path, the same whatever the buffer |
| `Dispatch.RunAppend` | main.cpp:383-426 | running two flag lists in sequence is running the first and then the second from its buffer: the buffer is the reports concatenated in flag order |
| `Dispatch.RepeatedFlagReportsTwice` | main.cpp:383-426 | a flag given twice appends its report twice, each followed by a line end |
| `Dispatch.MisplacedFlagAborts` | main.cpp:421-424 | a -f, -o or -i among the scanned flags ends the run without output; when every flag before it returned, the run ends with the invocation error |
| `Dispatch.Execute` | main.cpp:383-426 | the loop over the flags computes exactly the run of the flags from an empty buffer |
| `Dispatch.ExecuteFlag` | main.cpp:384-425 | one case of the switch yields exactly the report of its flag, or how the run ends at it |
| `Dispatch.ExecuteListing` | main.cpp:405-420 | the four listing cases yield the report of their primitive, and undefined behaviour when that report would list nothing |
| `Dispatch.AnalyzeCommands` | main.cpp:337-435 | analyze_commands ends exactly as the dispatcher's specification says, for every token list and file system |
| `Dispatch.CompletedShape` | main.cpp:343-365 | a completed run had at least two tokens, -f/--file first and an openable file; its output is appended to the last token exactly when the second-to-last is -o/--output |
| `Dispatch.NeverHelp` | main.cpp:383-388 | the dispatcher never shows the help text |
| `Dispatch.AnalyzeRefuses` | main.cpp:343-373 | fewer than two tokens or a first token other than -f/--file give the invocation error; a file that does not open gives the invalid-file error with its path; an output file that does not open, or an invalid token read as a flag, gives the invocation error |
| `Dispatch.MessageIdentifies` | main.cpp:344-447 | the diagnostics `error()` prints tell the errors apart: equal texts come from the same error with the same path |
| `Format.NatToString` | main.cpp:77 | the text of a count is non-empty, all decimal digits, with no leading zero |
| `Format.ParseNatToString` | main.cpp:77 | the count can be read back from its text |
| `Format.NatToStringInjective` | main.cpp:77 | different counts give different texts |
| `Format.Bracket` | main.cpp:159-162 | the listing loop writes the bracketed listing, from '[' to ']' |
| `Format.ItemsOfBracketed` | main.cpp:159-162 | a listing of items without spaces reads back as exactly those items, in order |
| `Text.LinesHaveNoNewline` | main.cpp:75 | no line read by getline holds a line end |
| `Text.LinesCover` | main.cpp:449-450 | the lines read by getline, appended with nothing between them, are the text without its line ends |
| `Text.LinesCount` | main.cpp:75-76 | getline yields one line per '\n', plus one for a last line without '\n' |
| `Text.Words` | main.cpp:91-92 | every word `>>` extracts is non-empty and holds no whitespace |
| `Text.WordsSplitAtSpace` | main.cpp:91-92 | every whitespace character ends a word: the words on either side of it are the words of each side |
| `Text.WordsOfWord` | main.cpp:91-92 | a non-empty run of non-whitespace characters is one word, all of it |
| `Text.WordsOfBlank` | main.cpp:91-92 | text made only of whitespace holds no word |
| `Text.WordsCover` | main.cpp:91-92 | the words of a line, written one after another, are the line without its whitespace |
| `Text.FileWordsCover` | main.cpp:130-137 | the words of all lines together hold every non-whitespace character of the file, in order |
| `Text.JoinSplit` | main.cpp:455-463 | the tokens hold no space, and joining them with single spaces gives back the string |
| `Text.SplitJoin` | main.cpp:455-463 | tokens without spaces, joined with single spaces and split again, give back the same tokens |
| `Text.SplitCount` | main.cpp:455-463 | there is one token more than there are spaces |
| `Text.SplitSnoc` | main.cpp:455-462 | one more character either starts a new empty token (a space) or extends the last one |
| `Primitives.Newlines` | main.cpp:71-78 | the report shows the number of lines getline yields |
| `Primitives.CountDigits` | main.cpp:85-100 | the report shows the number of digit characters of the file |
| `Text.DigitCountNonSpace` | main.cpp:90-97 | counting digits only inside words counts every digit of the file |
| `Primitives.CountChars` | main.cpp:126-139 | the report shows the number of non-whitespace characters of the file |
| `Primitives.SortedWords` | main.cpp:149-155 | the set filled word by word holds exactly the file's words, strictly ascending |
| `Primitives.SortedWordsEmpty` | main.cpp:159-162 | the word set is empty exactly when the file has no non-whitespace character |
| `Order.Insert` | main.cpp:153 | emplacing keeps the set strictly ascending and adds exactly the new word |
| `Order.SortedSet` | main.cpp:149-155 | the set after emplacing a sequence of words is strictly ascending and holds exactly those words |
| `Order.AscendingUnique` | main.cpp:156-158 | two strictly ascending sequences with the same elements are equal, so sorting the set's copy keeps it |
| `Primitives.EmplaceAll` | main.cpp:206-209 | emplacing a line's words in turn gives the set of all words read so far |
| `Primitives.SortedVector` | main.cpp:201-216 | sorted_vector returns the file's distinct words in ascending order |
| `Primitives.Sorted` | main.cpp:146-165 | the report exists exactly when the file has a word, and is the header followed by the listing of the ascending word set |
| `Order.ReversedDescending` | main.cpp:182-186 | sorting with `>` gives the strictly descending sequence of the same words, the only one there is |
| `Primitives.ReverseSorted` | main.cpp:173-193 | the report exists exactly when the file has a word, and is the listing of the descending word set without header |
| `Primitives.PalindromeMirror` | main.cpp:234-237 | a word equal to its reversal reads the same from both ends |
| `Primitives.PalindromeHitsCount` | main.cpp:233-243 | a word is found as many times as it was requested when it is a palindrome occurring in the file, and never otherwise |
| `Primitives.HitsEmpty` | main.cpp:233-247 | some palindrome is found exactly when some requested word is a palindrome occurring in the file |
| `Primitives.Palindromes` | main.cpp:227-250 | the report exists exactly when a requested palindrome occurs in the file, and lists the hits in request order |
| `Order.SortChars` | main.cpp:265-271 | sorting a word's letters gives a non-decreasing string with the same letters |
| `Order.SortCharsAnagram` | main.cpp:265-272 | two words have equal sorted letters exactly when they hold the same letters the same number of times |
| `Primitives.KeepAnagram` | main.cpp:268-274 | the inner test keeps a word exactly when it is an anagram of the operand not yet kept; the length test is redundant |
| `Primitives.AddMatchesSpec` | main.cpp:267-275 | one operand's pass adds exactly its anagrams among the file words, never twice |
| `Primitives.AnagramHitsSpec` | main.cpp:264-276 | the result holds each file word that is an anagram of some operand, exactly once |
| `Primitives.AddMatchesAppends` | main.cpp:267-275 | one operand's pass over the ascending file words only appends, and what it appends is ascending, made of file words that are anagrams of the operand and were not kept before |
| `Primitives.AnagramHitsOrder` | main.cpp:264-276 | the hits are ordered by the first operand each is an anagram of, and hits of the same operand are in ascending order |
| `Primitives.Anagrams` | main.cpp:259-282 | the report exists exactly when some file word is an anagram of some operand, and is the header followed by the listing of the hits, in the order `AnagramHitsOrder` states |
| `Instructions.Tokens` | main.cpp:449-463 | the tokens are one more than the spaces of the joined lines, hold no space, and joined with single spaces give back the joined lines |
| `Instructions.Tokenize` | main.cpp:449-463 | the two loops produce exactly the tokens of the file's text |
| `Instructions.AnalyzeFromInputFile` | main.cpp:442-467 | a file that does not open aborts with its path, otherwise its tokens are dispatched |
| `Instructions.ArgsHandler` | main.cpp:477-493 | no arguments show the help text; -i/--input routes to the instructions file; anything else is dispatched as it stands |
| `Instructions.HelpOnlyWithoutArguments` | main.cpp:480-492 | the help text appears exactly when there are no arguments; `--help` alone ends with the invocation error |
| `Instructions.InputIgnoresRest` | main.cpp:484-486 | only the file name after -i/--input matters; later arguments are ignored |
| `Instructions.RouteViaFile` | main.cpp:442-493 | a file holding the arguments separated by single spaces runs exactly as the arguments given directly |
| `Instructions.NoNestedInput` | main.cpp:346-348 | an instructions file whose first token is not -f/--file (-i/--input included) is refused with the invocation error |

## Left out

- `help()` prints a fixed text. It is modelled only as the outcome `HelpShown`.
- `error()` prints its diagnostic to the error stream and exits with status 1.
  It is modelled as the outcome `Aborted(error)`. The diagnostic text is
  `Dispatch.Message`; the stream it goes to is not modelled.
- The streams are not modelled:
  - Opening the analysed file, rewinding it with `clear`/`seekg`, opening the
    output file in append mode, and closing files are replaced by the `Env`
    value.
  - The console and the output file are replaced by `Dispatch.Delivered`.
  - A file that does not exist but that `std::ofstream` would create in append
    mode counts as appendable exactly when its path is in `appendable`.
- `int` counters are unbounded here. The source's counters overflow past 2^31-1
  characters, which is not modelled.
- The model's characters stand for single bytes of ASCII text. `count_chars`
  counts bytes, `std::reverse` reverses bytes, and `isdigit` on a negative
  `char` is undefined, so multi-byte encodings and bytes above 127 are not
  modelled. `isdigit` and whitespace skipping use the "C" locale. Other
  locales are not modelled.
- `count_numbers` is modelled only by what it does observably. When the
  literal pattern text occurs on a line and the file has not been read yet,
  its loop never ends while it overflows its `int` counter. That is
  undefined behaviour, modelled as `Undefined`, and is not modelled as a
  hang. Otherwise it reports 0. The regular expression it evidently meant to
  apply is not modelled.
- `args_handler` reads `argv[2]` when `-i` is the only argument. That is
  undefined behaviour (`argv[argc]` is null) and is modelled as
  `Undefined`. `argc`/`argv` themselves are modelled as the sequence of
  arguments after the program name. Arguments that embed a NUL character are
  not modelled.
- The `"[..]"` listing of an empty list computes `size() - 1` on an unsigned
  size and then calls `back()`. That is undefined, so a report that would list
  nothing is `None`, and the run ends as `Undefined`.

/** How the analyser sees a file: lines as `std::getline` yields them, words as
    `stringstream >> word` yields them, and the instructions-file split on single spaces. */
module Text {

  /** The characters `isspace` accepts in the "C" locale: space, \t, \n, \v, \f, \r. */
  predicate IsSpace(c: char) {
    c == ' ' || '\t' <= c <= '\r'
  }

  predicate IsDigit(c: char) {
    '0' <= c <= '9'
  }

  /** Growing a prefix by one element. */
  lemma TakeSnoc<T>(s: seq<T>, j: nat)
    requires j < |s|
    ensures s[..j + 1] == s[..j] + [s[j]]
  {
  }

  lemma SliceSnoc<T>(s: seq<T>, a: nat, b: nat)
    requires a <= b < |s|
    ensures s[a..b + 1] == s[a..b] + [s[b]]
  {
  }

  /** Joining one more string. */
  lemma ConcatStep(words: seq<string>, j: nat)
    requires j < |words|
    ensures Concat(words[..j + 1]) == Concat(words[..j]) + words[j]
  {
    assert words[..j + 1][..j] == words[..j];
  }

  lemma TakeAll<T>(s: seq<T>)
    ensures s[..|s|] == s
  {
  }

  /** Concatenation of a sequence of strings, with no separator. */
  function Concat(xs: seq<string>): string {
    if xs == [] then [] else Concat(xs[..|xs| - 1]) + xs[|xs| - 1]
  }

  lemma {:induction false} ConcatAppend(xs: seq<string>, ys: seq<string>)
    ensures Concat(xs + ys) == Concat(xs) + Concat(ys)
    decreases |ys|
  {
    if ys == [] {
      assert xs + ys == xs;
    } else {
      var zs := ys[..|ys| - 1];
      assert (xs + ys)[..|xs + ys| - 1] == xs + zs;
      ConcatAppend(xs, zs);
    }
  }

  /** Number of occurrences of `c` in `s`. */
  function Occurrences(c: char, s: string): nat {
    if s == [] then 0 else (if s[0] == c then 1 else 0) + Occurrences(c, s[1..])
  }

  /** Number of decimal digit characters in `s`. */
  function DigitCount(s: string): nat {
    if s == [] then 0 else (if IsDigit(s[0]) then 1 else 0) + DigitCount(s[1..])
  }

  lemma {:induction false} DigitCountAppend(a: string, b: string)
    ensures DigitCount(a + b) == DigitCount(a) + DigitCount(b)
  {
    if a != [] {
      assert (a + b)[1..] == a[1..] + b;
      DigitCountAppend(a[1..], b);
    } else {
      assert a + b == b;
    }
  }

  /** `s` with every whitespace character removed. */
  function NonSpace(s: string): (r: string)
    ensures forall c | c in r :: !IsSpace(c)
  {
    if s == [] then []
    else if IsSpace(s[0]) then NonSpace(s[1..])
    else [s[0]] + NonSpace(s[1..])
  }

  lemma {:induction false} NonSpaceAppend(a: string, b: string)
    ensures NonSpace(a + b) == NonSpace(a) + NonSpace(b)
  {
    if a == [] {
      assert a + b == b;
    } else {
      assert (a + b)[0] == a[0] && (a + b)[1..] == a[1..] + b;
      NonSpaceAppend(a[1..], b);
    }
  }

  /** Whitespace never counts as a digit, so dropping it keeps the digit count. */
  lemma {:induction false} DigitCountNonSpace(s: string)
    ensures DigitCount(NonSpace(s)) == DigitCount(s)
  {
    if s != [] {
      DigitCountNonSpace(s[1..]);
      if !IsSpace(s[0]) {
        assert ([s[0]] + NonSpace(s[1..]))[1..] == NonSpace(s[1..]);
      }
    }
  }

  /** `s` with every '\n' removed. */
  function StripNewlines(s: string): (r: string)
    ensures '\n' !in r
  {
    if s == [] then []
    else if s[0] == '\n' then StripNewlines(s[1..])
    else [s[0]] + StripNewlines(s[1..])
  }

  lemma {:induction false} StripNewlinesAppend(a: string, b: string)
    ensures StripNewlines(a + b) == StripNewlines(a) + StripNewlines(b)
  {
    if a == [] {
      assert a + b == b;
    } else {
      assert (a + b)[0] == a[0] && (a + b)[1..] == a[1..] + b;
      StripNewlinesAppend(a[1..], b);
    }
  }

  lemma {:induction false} StripNewlinesNone(s: string)
    requires '\n' !in s
    ensures StripNewlines(s) == s
  {
    if s != [] {
      assert forall c | c in s[1..] :: c in s;
      StripNewlinesNone(s[1..]);
    }
  }

  lemma {:induction false} NonSpaceNoSpace(s: string)
    requires forall c | c in s :: !IsSpace(c)
    ensures NonSpace(s) == s
  {
    if s != [] {
      assert s[0] in s;
      assert forall c | c in s[1..] :: c in s;
      NonSpaceNoSpace(s[1..]);
    }
  }

  // ---------------------------------------------------------------- lines

  /** Index of the first '\n' in `s`, or |s| when there is none. */
  function NewlineAt(s: string): (k: nat)
    ensures k <= |s|
    ensures '\n' !in s[..k]
    ensures k < |s| ==> s[k] == '\n'
  {
    if s == [] then 0
    else if s[0] == '\n' then 0
    else
      var k := 1 + NewlineAt(s[1..]);
      assert s[..k] == [s[0]] + s[1..][..k - 1];
      k
  }

  /** The lines `std::getline` reads from `s`, in order: the text between
      consecutive '\n', without them; a final '\n' ends the last line and
      does not start an empty one, and an empty text has no lines. */
  function Lines(s: string): seq<string>
    decreases |s|
  {
    if s == [] then []
    else
      var k := NewlineAt(s);
      if k == |s| then [s] else [s[..k]] + Lines(s[k + 1..])
  }

  /** No line holds a '\n'. */
  lemma {:induction false} LinesHaveNoNewline(s: string)
    ensures forall i | 0 <= i < |Lines(s)| :: '\n' !in Lines(s)[i]
    decreases |s|
  {
    if s != [] {
      var k := NewlineAt(s);
      if k == |s| {
        assert s[..k] == s;
      } else {
        LinesHaveNoNewline(s[k + 1..]);
        LinesUnfold(s, k);
      }
    }
  }

  /** Lines are what lies between the newlines: dropping the '\n' characters
      of the text leaves exactly the lines written one after another. */
  lemma {:induction false} LinesCover(s: string)
    ensures Concat(Lines(s)) == StripNewlines(s)
    decreases |s|
  {
    if s != [] {
      var k := NewlineAt(s);
      if k == |s| {
        LastLineCover(s);
      } else {
        LinesCover(s[k + 1..]);
        LineCoverStep(s, k);
      }
    }
  }

  lemma LastLineCover(s: string)
    requires s != [] && NewlineAt(s) == |s|
    ensures Concat(Lines(s)) == StripNewlines(s)
  {
    assert s[..|s|] == s;
    StripNewlinesNone(s);
    assert Lines(s) == [s];
    assert Concat([s]) == Concat([]) + s;
  }

  lemma LineCoverStep(s: string, k: nat)
    requires k == NewlineAt(s) < |s|
    requires Concat(Lines(s[k + 1..])) == StripNewlines(s[k + 1..])
    ensures Concat(Lines(s)) == StripNewlines(s)
  {
    var rest := s[k + 1..];
    LinesUnfold(s, k);
    ConcatCons(s[..k], Lines(rest));
    StripNewlinesSplit(s, k);
  }

  lemma ConcatCons(x: string, ys: seq<string>)
    ensures Concat([x] + ys) == x + Concat(ys)
  {
    ConcatAppend([x], ys);
    assert Concat([x]) == Concat([]) + x;
  }

  lemma OccurrencesSplit(s: string, k: nat)
    requires k < |s| && s[k] == '\n' && '\n' !in s[..k]
    ensures Occurrences('\n', s) == 1 + Occurrences('\n', s[k + 1..])
  {
    var rest := s[k + 1..];
    OccurrencesNone(s[..k]);
    assert s == s[..k] + ([s[k]] + rest);
    OccurrencesAppend('\n', s[..k], [s[k]] + rest);
    assert ([s[k]] + rest)[1..] == rest;
  }

  lemma LinesUnfold(s: string, k: nat)
    requires k == NewlineAt(s) < |s|
    ensures Lines(s) == [s[..k]] + Lines(s[k + 1..])
  {
  }

  lemma StripNewlinesSplit(s: string, k: nat)
    requires k < |s| && s[k] == '\n' && '\n' !in s[..k]
    ensures StripNewlines(s) == s[..k] + StripNewlines(s[k + 1..])
  {
    var rest := s[k + 1..];
    assert s == s[..k] + ([s[k]] + rest);
    StripNewlinesAppend(s[..k], [s[k]] + rest);
    assert ([s[k]] + rest)[1..] == rest;
    StripNewlinesNone(s[..k]);
  }

  /** The line count: one per '\n', plus one for a last line that has no
      '\n' after it. */
  lemma {:induction false} LinesCount(s: string)
    ensures |Lines(s)| == Occurrences('\n', s) + (if s != [] && s[|s| - 1] != '\n' then 1 else 0)
    decreases |s|
  {
    if s != [] {
      var k := NewlineAt(s);
      if k == |s| {
        assert s[..k] == s;
        OccurrencesNone(s);
      } else {
        LinesCount(s[k + 1..]);
        LineCountStep(s, k);
      }
    }
  }

  lemma LineCountStep(s: string, k: nat)
    requires k == NewlineAt(s) < |s|
    requires var rest := s[k + 1..];
      |Lines(rest)| == Occurrences('\n', rest) + (if rest != [] && rest[|rest| - 1] != '\n' then 1 else 0)
    ensures |Lines(s)| == Occurrences('\n', s) + (if s[|s| - 1] != '\n' then 1 else 0)
  {
    var rest := s[k + 1..];
    LinesUnfold(s, k);
    OccurrencesSplit(s, k);
    if rest != [] {
      assert s[|s| - 1] == rest[|rest| - 1];
    }
  }

  lemma {:induction false} OccurrencesNone(s: string)
    requires '\n' !in s
    ensures Occurrences('\n', s) == 0
  {
    if s != [] {
      assert forall c | c in s[1..] :: c in s;
      OccurrencesNone(s[1..]);
    }
  }

  lemma {:induction false} OccurrencesAppend(c: char, a: string, b: string)
    ensures Occurrences(c, a + b) == Occurrences(c, a) + Occurrences(c, b)
  {
    if a == [] {
      assert a + b == b;
    } else {
      assert (a + b)[0] == a[0] && (a + b)[1..] == a[1..] + b;
      OccurrencesAppend(c, a[1..], b);
    }
  }

  // ---------------------------------------------------------------- words

  /** Length of the run of non-whitespace characters that starts `s`. */
  function WordEnd(s: string): (k: nat)
    ensures k <= |s|
    ensures forall i | 0 <= i < k :: !IsSpace(s[i])
    ensures k < |s| ==> IsSpace(s[k])
  {
    if s == [] || IsSpace(s[0]) then 0 else 1 + WordEnd(s[1..])
  }

  /** The words `stringstream >> word` extracts from `s`: the maximal runs of
      non-whitespace characters, in order. */
  function Words(s: string): (ws: seq<string>)
    ensures forall i | 0 <= i < |ws| :: ws[i] != [] && forall c | c in ws[i] :: !IsSpace(c)
    decreases |s|
  {
    if s == [] then []
    else if IsSpace(s[0]) then Words(s[1..])
    else
      var k := WordEnd(s);
      [s[..k]] + Words(s[k..])
  }

  /** The words are the text minus its whitespace: written one after
      another they give back every other character, in order. */
  lemma {:induction false} WordsCover(s: string)
    ensures Concat(Words(s)) == NonSpace(s)
    decreases |s|
  {
    if s != [] {
      if IsSpace(s[0]) {
        WordsCover(s[1..]);
      } else {
        var k := WordEnd(s);
        WordsCover(s[k..]);
        ConcatAppend([s[..k]], Words(s[k..]));
        assert Concat([s[..k]]) == Concat([]) + s[..k];
        assert s == s[..k] + s[k..];
        NonSpaceAppend(s[..k], s[k..]);
        NonSpaceNoSpace(s[..k]);
      }
    }
  }

  /** Text without whitespace, however it is cut, holds no word. */
  lemma {:induction false} WordsOfBlank(s: string)
    requires forall i | 0 <= i < |s| :: IsSpace(s[i])
    ensures Words(s) == []
    decreases |s|
  {
    if s != [] {
      WordsOfBlank(s[1..]);
    }
  }

  /** A run of non-whitespace characters is one word, all of it. */
  lemma WordsOfWord(w: string)
    requires w != [] && forall i | 0 <= i < |w| :: !IsSpace(w[i])
    ensures Words(w) == [w]
  {
    assert WordEnd(w) == |w|;
    assert w[..|w|] == w && w[|w|..] == [];
    assert Words(w) == [w] + Words([]);
  }

  /** Every whitespace character ends a word: the words on either side of it
      are the words of each side. */
  lemma {:induction false} WordsSplitAtSpace(a: string, c: char, b: string)
    requires IsSpace(c)
    ensures Words(a + [c] + b) == Words(a) + Words(b)
    decreases |a|
  {
    var s := a + [c] + b;
    if a == [] {
      assert s[0] == c && s[1..] == b;
    } else if IsSpace(a[0]) {
      assert s[0] == a[0] && s[1..] == a[1..] + [c] + b;
      WordsSplitAtSpace(a[1..], c, b);
    } else {
      var k := WordEnd(a);
      WordEndAtSpace(a, c, b);
      assert s[0] == a[0] && s[..k] == a[..k] && s[k..] == a[k..] + [c] + b;
      WordsSplitAtSpace(a[k..], c, b);
    }
  }

  /** A word of `a` ends where it ends in `a`, or at the whitespace `c`
      after `a`. */
  lemma WordEndAtSpace(a: string, c: char, b: string)
    requires IsSpace(c)
    ensures WordEnd(a + [c] + b) == WordEnd(a)
  {
    var s := a + [c] + b;
    var k, ka := WordEnd(s), WordEnd(a);
    assert ka < |s| && IsSpace(s[ka]);
    assert forall i | 0 <= i < ka :: s[i] == a[i];
  }

  /** The words of every line, line after line. */
  function WordsOfLines(ls: seq<string>): seq<string> {
    if ls == [] then [] else WordsOfLines(ls[..|ls| - 1]) + Words(ls[|ls| - 1])
  }

  /** All the words of a file, in reading order (duplicates kept). */
  function FileWords(text: string): seq<string> {
    WordsOfLines(Lines(text))
  }

  lemma {:induction false} WordsOfLinesAppend(xs: seq<string>, ys: seq<string>)
    ensures WordsOfLines(xs + ys) == WordsOfLines(xs) + WordsOfLines(ys)
    decreases |ys|
  {
    if ys == [] {
      assert xs + ys == xs;
    } else {
      var zs := ys[..|ys| - 1];
      assert (xs + ys)[..|xs + ys| - 1] == xs + zs;
      WordsOfLinesAppend(xs, zs);
    }
  }

  lemma {:induction false} WordsOfLinesCover(ls: seq<string>)
    ensures Concat(WordsOfLines(ls)) == NonSpace(Concat(ls))
    decreases |ls|
  {
    if ls != [] {
      var init := ls[..|ls| - 1];
      WordsOfLinesCover(init);
      ConcatAppend(WordsOfLines(init), Words(ls[|ls| - 1]));
      WordsCover(ls[|ls| - 1]);
      NonSpaceAppend(Concat(init), ls[|ls| - 1]);
    }
  }

  lemma {:induction false} NonSpaceStripNewlines(s: string)
    ensures NonSpace(StripNewlines(s)) == NonSpace(s)
  {
    if s != [] {
      NonSpaceStripNewlines(s[1..]);
      if s[0] != '\n' {
        assert ([s[0]] + StripNewlines(s[1..]))[1..] == StripNewlines(s[1..]);
      }
    }
  }

  /** Every non-whitespace character of the file belongs to exactly one word,
      in order: the file's words written one after another are the file with
      its whitespace removed. */
  lemma FileWordsCover(text: string)
    ensures Concat(FileWords(text)) == NonSpace(text)
  {
    WordsOfLinesCover(Lines(text));
    LinesCover(text);
    NonSpaceStripNewlines(text);
  }

  /** Every word of a file is non-empty and holds no whitespace. */
  lemma FileWordsShape(ls: seq<string>)
    ensures forall w | w in WordsOfLines(ls) :: w != [] && forall c | c in w :: !IsSpace(c)
    decreases |ls|
  {
    if ls != [] {
      FileWordsShape(ls[..|ls| - 1]);
    }
  }

  // ------------------------------------------------------ split on ' ' only

  /** The pieces of `s` between single space characters, empty pieces kept:
      "a  b" gives ["a", "", "b"], "" gives [""]. */
  function SplitOnSpace(s: string): (ts: seq<string>)
    ensures |ts| >= 1
    decreases |s|
  {
    if s == [] then [[]]
    else
      var rest := SplitOnSpace(s[1..]);
      if s[0] == ' ' then [[]] + rest else [[s[0]] + rest[0]] + rest[1..]
  }

  /** The pieces written back with one space between neighbours. */
  function JoinWithSpace(ts: seq<string>): string
    requires |ts| >= 1
  {
    if |ts| == 1 then ts[0] else ts[0] + " " + JoinWithSpace(ts[1..])
  }

  predicate NoSpaceIn(ts: seq<string>) {
    forall i | 0 <= i < |ts| :: ' ' !in ts[i]
  }

  /** Splitting loses nothing: the pieces hold no space and joining them
      with single spaces gives back the string. */
  lemma {:induction false} JoinSplit(s: string)
    ensures NoSpaceIn(SplitOnSpace(s))
    ensures JoinWithSpace(SplitOnSpace(s)) == s
    decreases |s|
  {
    if s != [] {
      var rest := SplitOnSpace(s[1..]);
      JoinSplit(s[1..]);
      if s[0] == ' ' {
        assert JoinWithSpace([[]] + rest) == [] + " " + JoinWithSpace(rest);
      } else {
        var ts := [[s[0]] + rest[0]] + rest[1..];
        if |rest| == 1 {
          assert JoinWithSpace(ts) == [s[0]] + rest[0];
        } else {
          assert ts[1..] == rest[1..];
          assert JoinWithSpace(rest) == rest[0] + " " + JoinWithSpace(rest[1..]);
          assert JoinWithSpace(ts) == [s[0]] + rest[0] + " " + JoinWithSpace(rest[1..]);
        }
        assert forall i | 1 <= i < |ts| :: ts[i] == rest[i];
      }
    }
  }

  /** The other direction: pieces without spaces, joined and split again,
      come back unchanged. */
  lemma {:induction false} SplitJoin(ts: seq<string>)
    requires |ts| >= 1 && NoSpaceIn(ts)
    ensures SplitOnSpace(JoinWithSpace(ts)) == ts
    decreases |ts|, |ts[0]|
  {
    if |ts| == 1 {
      SplitNoSpace(ts[0]);
    } else if ts[0] == [] {
      var s := JoinWithSpace(ts);
      assert s == [' '] + JoinWithSpace(ts[1..]);
      assert s[1..] == JoinWithSpace(ts[1..]);
      SplitJoin(ts[1..]);
      assert [[]] + ts[1..] == ts;
    } else {
      var s := JoinWithSpace(ts);
      var us := [ts[0][1..]] + ts[1..];
      assert us[1..] == ts[1..];
      assert ' ' !in us[0] by { assert forall c | c in ts[0][1..] :: c in ts[0]; }
      assert s == [ts[0][0]] + JoinWithSpace(us);
      assert s[1..] == JoinWithSpace(us);
      assert ts[0][0] in ts[0];
      SplitJoin(us);
      assert [ts[0][0]] + us[0] == ts[0];
      assert [[ts[0][0]] + us[0]] + us[1..] == ts;
    }
  }

  lemma {:induction false} SplitNoSpace(s: string)
    requires ' ' !in s
    ensures SplitOnSpace(s) == [s]
    decreases |s|
  {
    if s != [] {
      assert s[0] in s;
      assert forall c | c in s[1..] :: c in s;
      SplitNoSpace(s[1..]);
      assert [s[0]] + s[1..] == s;
    }
  }

  /** One piece more than there are spaces. */
  lemma {:induction false} SplitCount(s: string)
    ensures |SplitOnSpace(s)| == Occurrences(' ', s) + 1
    decreases |s|
  {
    if s != [] {
      SplitCount(s[1..]);
    }
  }

  /** Splitting a string extended by one character: a space starts a new
      empty piece, any other character extends the last piece. */
  lemma {:induction false} SplitSnoc(s: string, c: char)
    ensures var ts := SplitOnSpace(s);
      SplitOnSpace(s + [c])
        == if c == ' ' then ts + [[]] else ts[..|ts| - 1] + [ts[|ts| - 1] + [c]]
    decreases |s|
  {
    if s == [] {
      assert s + [c] == [c];
      SplitSingle(c);
    } else {
      assert (s + [c])[0] == s[0] && (s + [c])[1..] == s[1..] + [c];
      SplitSnoc(s[1..], c);
      PushExtend(s[0], c, SplitOnSpace(s[1..]));
    }
  }

  /** One character in front of the pieces, as `SplitOnSpace` adds it. */
  function Push(x: char, ts: seq<string>): seq<string>
    requires |ts| >= 1
  {
    if x == ' ' then [[]] + ts else [[x] + ts[0]] + ts[1..]
  }

  /** One character after the pieces, as `SplitSnoc` states it. */
  function Extend(ts: seq<string>, c: char): (us: seq<string>)
    requires |ts| >= 1
    ensures |us| >= 1
  {
    if c == ' ' then ts + [[]] else ts[..|ts| - 1] + [ts[|ts| - 1] + [c]]
  }

  /** Adding a character in front and one at the end commute. */
  lemma PushExtend(x: char, c: char, ts: seq<string>)
    requires |ts| >= 1
    ensures Push(x, Extend(ts, c)) == Extend(Push(x, ts), c)
  {
    if x != ' ' && c != ' ' && |ts| == 1 {
      assert [x] + (ts[0] + [c]) == ([x] + ts[0]) + [c];
    }
  }

  lemma SplitSingle(c: char)
    ensures SplitOnSpace([c]) == if c == ' ' then [[], []] else [[c]]
  {
    assert [c][1..] == [];
    assert SplitOnSpace([]) == [[]];
    if c != ' ' {
      assert [c] + [] == [c];
    }
  }
}

/** The analysis primitives, each over the text of the analysed file. Every
    one rewinds the file and reads it line by line and word by word; here the
    file is its text and reading it is `Lines` and `Words`.

    The list-producing reports end with a "[..]" listing that the source
    cannot write for an empty list (undefined behaviour); those reports are
    `None` exactly then. */
module Primitives {
  import opened Text
  import opened Order
  import opened Format

  datatype Option<T> = None | Some(value: T)

  // ----------------------------------------------------------- counting

  /** The lines `getline` reads: one per '\n', plus a last line that has no
      '\n' after it. */
  function LineCount(text: string): nat {
    Occurrences('\n', text) + (if text != [] && text[|text| - 1] != '\n' then 1 else 0)
  }

  /** newlines(): counts the lines `getline` yields. */
  method Newlines(text: string) returns (report: string)
    ensures report == "Number of newline characters in file: " + NatToString(LineCount(text))
  {
    var counter := 0;
    var lines := Lines(text);
    for i := 0 to |lines|
      invariant counter == i
    {
      counter := counter + 1;
    }
    LinesCount(text);
    report := "Number of newline characters in file: " + NatToString(counter);
  }

  lemma WordsOfLinesStep(lines: seq<string>, i: nat)
    requires i < |lines|
    ensures WordsOfLines(lines[..i + 1]) == WordsOfLines(lines[..i]) + Words(lines[i])
  {
    assert lines[..i + 1][..i] == lines[..i];
  }

  lemma DigitCountStep(s: string, k: nat)
    requires k < |s|
    ensures DigitCount(s[..k + 1]) == DigitCount(s[..k]) + (if IsDigit(s[k]) then 1 else 0)
  {
    assert s[..k + 1] == s[..k] + [s[k]];
    DigitCountAppend(s[..k], [s[k]]);
  }

  /** count_digits(): counts the digit characters of every word, which are
      all the digit characters of the file. */
  method CountDigits(text: string) returns (report: string)
    ensures report == "Number of digits in file: " + NatToString(DigitCount(text))
  {
    var counter := 0;
    var lines := Lines(text);
    for i := 0 to |lines|
      invariant counter == DigitCount(Concat(WordsOfLines(lines[..i])))
    {
      var words := Words(lines[i]);
      ghost var before := Concat(WordsOfLines(lines[..i]));
      for j := 0 to |words|
        invariant counter == DigitCount(before) + DigitCount(Concat(words[..j]))
      {
        var word := words[j];
        for k := 0 to |word|
          invariant counter == DigitCount(before) + DigitCount(Concat(words[..j])) + DigitCount(word[..k])
        {
          DigitCountStep(word, k);
          if IsDigit(word[k]) {
            counter := counter + 1;
          }
        }
        ConcatStep(words, j);
        assert word[..|word|] == word;
        DigitCountAppend(Concat(words[..j]), word);
      }
      WordsOfLinesStep(lines, i);
      assert words[..|words|] == words;
      ConcatAppend(WordsOfLines(lines[..i]), words);
      DigitCountAppend(before, Concat(words));
    }
    assert lines[..|lines|] == lines;
    FileWordsCover(text);
    DigitCountNonSpace(text);
    report := "Number of digits in file: " + NatToString(counter);
  }

  /** count_chars(): counts the characters of every word, which are all the
      non-whitespace characters of the file. */
  method CountChars(text: string) returns (report: string)
    ensures report == "Number of characters in file: " + NatToString(|NonSpace(text)|)
  {
    var counter := 0;
    var lines := Lines(text);
    for i := 0 to |lines|
      invariant counter == |Concat(WordsOfLines(lines[..i]))|
    {
      var words := Words(lines[i]);
      ghost var before := Concat(WordsOfLines(lines[..i]));
      for j := 0 to |words|
        invariant counter == |before| + |Concat(words[..j])|
      {
        var word := words[j];
        for k := 0 to |word|
          invariant counter == |before| + |Concat(words[..j])| + k
        {
          counter := counter + 1;
        }
        ConcatStep(words, j);
      }
      WordsOfLinesStep(lines, i);
      assert words[..|words|] == words;
      ConcatAppend(WordsOfLines(lines[..i]), words);
    }
    assert lines[..|lines|] == lines;
    FileWordsCover(text);
    report := "Number of characters in file: " + NatToString(counter);
  }

  // ----------------------------------------------------------- word sets

  /** The distinct words of the file in ascending order, as the `std::set`
      filled word by word holds them. */
  function SortedWords(text: string): (r: seq<string>)
    ensures Ascending(r)
    ensures forall w :: w in r <==> w in FileWords(text)
  {
    SortedSet(FileWords(text))
  }

  /** A file has words exactly when it has a non-whitespace character. */
  lemma SortedWordsEmpty(text: string)
    ensures SortedWords(text) == [] <==> NonSpace(text) == []
  {
    var ws := FileWords(text);
    FileWordsCover(text);
    FileWordsShape(Lines(text));
    assert SortedWords(text) != [] ==> SortedWords(text)[0] in ws;
    if ws != [] {
      assert ws[0] in SortedWords(text);
      ConcatAppend([ws[0]], ws[1..]);
      assert [ws[0]] + ws[1..] == ws;
      assert Concat([ws[0]]) == Concat([]) + ws[0];
    }
  }

  lemma SortedSetSnoc(seen: seq<string>, w: string)
    ensures Ascending(SortedSet(seen))
    ensures SortedSet(seen + [w]) == Insert(SortedSet(seen), w)
  {
    assert (seen + [w])[..|seen|] == seen;
  }

  /** sorted_vector(): emplaces every word of every line into a set and
      copies the set out; the copy is sorted already, so the final
      `std::sort` keeps it as it is (`AscendingUnique`). */
  method SortedVector(text: string) returns (words: seq<string>)
    ensures words == SortedWords(text)
  {
    words := [];
    var lines := Lines(text);
    ghost var seen: seq<string> := [];
    for i := 0 to |lines|
      invariant seen == WordsOfLines(lines[..i])
      invariant words == SortedSet(seen)
    {
      words := EmplaceAll(words, seen, Words(lines[i]));
      WordsOfLinesStep(lines, i);
      seen := seen + Words(lines[i]);
    }
    TakeAll(lines);
  }

  /** The inner loop of sorted_vector(): every word of one line emplaced in
      turn into the set that already holds the words `seen`. */
  method EmplaceAll(words0: seq<string>, ghost seen: seq<string>, lineWords: seq<string>)
    returns (words: seq<string>)
    requires words0 == SortedSet(seen)
    ensures words == SortedSet(seen + lineWords)
  {
    words := words0;
    assert seen + lineWords[..0] == seen;
    for j := 0 to |lineWords|
      invariant words == SortedSet(seen + lineWords[..j])
    {
      SortedSetSnoc(seen + lineWords[..j], lineWords[j]);
      words := Insert(words, lineWords[j]);
      TakeSnoc(lineWords, j);
      assert seen + lineWords[..j + 1] == (seen + lineWords[..j]) + [lineWords[j]];
    }
    TakeAll(lineWords);
  }

  /** sorted(): the header, then the listing of the file's distinct words in
      ascending order; undefined for a file without words. */
  function SortedReport(text: string): Option<string> {
    var words := SortedWords(text);
    if words == [] then None else Some("Sorted alphabetically:\n" + Bracketed(words))
  }

  method Sorted(text: string) returns (report: Option<string>)
    ensures report.Some? <==> NonSpace(text) != []
    ensures report == SortedReport(text)
  {
    var words := SortedVector(text);
    SortedWordsEmpty(text);
    if words == [] {
      return None;
    }
    var listing := Bracket(words);
    report := Some("Sorted alphabetically:\n" + listing);
  }

  /** reverse_sorted(): the listing of the file's distinct words sorted with
      `>`, that is, in descending order (`ReversedDescending`); no header;
      undefined for a file without words. */
  function ReverseSortedReport(text: string): Option<string> {
    var words := Reversed(SortedWords(text));
    if words == [] then None else Some(Bracketed(words))
  }

  method ReverseSorted(text: string) returns (report: Option<string>)
    ensures report.Some? <==> NonSpace(text) != []
    ensures report == ReverseSortedReport(text)
  {
    var words := SortedVector(text);
    SortedWordsEmpty(text);
    var descending := Reversed(words);
    if descending == [] {
      return None;
    }
    var listing := Bracket(descending);
    report := Some(listing);
  }

  // ----------------------------------------------------------- palindromes

  predicate IsPalindrome(s: string) {
    Reversed(s) == s
  }

  /** A palindrome reads the same from both ends. */
  lemma PalindromeMirror(s: string)
    ensures IsPalindrome(s) <==> forall i | 0 <= i < |s| :: s[i] == s[|s| - 1 - i]
  {
    if forall i | 0 <= i < |s| :: s[i] == s[|s| - 1 - i] {
      assert forall i | 0 <= i < |s| :: Reversed(s)[i] == s[i];
    }
  }

  /** The elements that pass `keep`, in their order. */
  function Filter(xs: seq<string>, keep: string -> bool): seq<string> {
    if xs == [] then []
    else Filter(xs[..|xs| - 1], keep) + (if keep(xs[|xs| - 1]) then [xs[|xs| - 1]] else [])
  }

  /** A filter keeps every copy of what passes and nothing else. */
  lemma {:induction false} FilterCount(xs: seq<string>, keep: string -> bool, x: string)
    ensures multiset(Filter(xs, keep))[x] == if keep(x) then multiset(xs)[x] else 0
    decreases |xs|
  {
    if xs != [] {
      var init, last := xs[..|xs| - 1], xs[|xs| - 1];
      FilterCount(init, keep, x);
      var extra := if keep(last) then [last] else [];
      assert multiset(Filter(xs, keep)) == multiset(Filter(init, keep)) + multiset(extra);
      assert xs == init + [last];
      assert multiset(xs) == multiset(init) + multiset{last};
    }
  }

  /** The requested words, in request order, that are palindromes and occur
      among the file's words; a word requested twice is found twice. */
  function PalindromeHits(pals: seq<string>, words: seq<string>): seq<string> {
    Filter(pals, p => IsPalindrome(p) && p in words)
  }

  /** How often a word is found: as often as it was requested when it is a
      palindrome that occurs in the file, never otherwise. */
  lemma PalindromeHitsCount(pals: seq<string>, words: seq<string>, x: string)
    ensures multiset(PalindromeHits(pals, words))[x]
         == if IsPalindrome(x) && x in words then multiset(pals)[x] else 0
  {
    FilterCount(pals, p => IsPalindrome(p) && p in words, x);
  }

  function PalindromesReport(text: string, pals: seq<string>): Option<string> {
    var hits := PalindromeHits(pals, SortedWords(text));
    if hits == [] then None else Some("Palindromes:\n" + Bracketed(hits))
  }

  /** palindromes(): skips every requested word that is not a palindrome and
      keeps the others that occur among the file's words. */
  method Palindromes(text: string, pals: seq<string>) returns (report: Option<string>)
    ensures report.Some? <==> exists p | p in pals :: IsPalindrome(p) && p in FileWords(text)
    ensures report == PalindromesReport(text, pals)
  {
    var words := SortedVector(text);
    var result: seq<string> := [];
    for i := 0 to |pals|
      invariant result == PalindromeHits(pals[..i], words)
    {
      var pal := pals[i];
      assert pals[..i + 1][..i] == pals[..i];
      var lap := Reversed(pal);
      if lap != pal {
        continue;
      }
      ghost var before := result;
      var j := 0;
      while j < |words|
        invariant 0 <= j <= |words|
        invariant pal !in words[..j]
        invariant result == before
      {
        if words[j] == pal {
          result := result + [pal];
          break;
        }
        assert words[..j + 1] == words[..j] + [words[j]];
        j := j + 1;
      }
      assert j == |words| ==> words[..j] == words;
    }
    assert pals[..|pals|] == pals;
    HitsEmpty(pals, words);
    if result == [] {
      return None;
    }
    var listing := Bracket(result);
    report := Some("Palindromes:\n" + listing);
  }

  lemma HitsEmpty(pals: seq<string>, words: seq<string>)
    ensures PalindromeHits(pals, words) != [] <==> exists p | p in pals :: IsPalindrome(p) && p in words
  {
    forall p | p in pals && IsPalindrome(p) && p in words
      ensures PalindromeHits(pals, words) != []
    {
      PalindromeHitsCount(pals, words, p);
    }
    if PalindromeHits(pals, words) != [] {
      var h := PalindromeHits(pals, words)[0];
      PalindromeHitsCount(pals, words, h);
    }
  }

  // ----------------------------------------------------------- anagrams

  /** Two words are anagrams when they hold the same letters the same number
      of times. */
  predicate IsAnagram(a: string, b: string) {
    multiset(a) == multiset(b)
  }

  /** One step of the inner loop of anagrams(): keep `w` when it has the
      length of `op`, the same sorted letters, and is not yet kept. */
  function Keep(acc: seq<string>, op: string, w: string): seq<string> {
    if |w| == |op| && SortChars(w) == SortChars(op) && w !in acc then acc + [w] else acc
  }

  /** The inner loop: every file word, in order, against one requested word. */
  function AddMatches(acc: seq<string>, op: string, words: seq<string>): seq<string>
    decreases |words|
  {
    if words == [] then acc else AddMatches(Keep(acc, op, words[0]), op, words[1..])
  }

  /** The outer loop: every requested word, in order. */
  function AnagramHits(acc: seq<string>, ops: seq<string>, words: seq<string>): seq<string>
    decreases |ops|
  {
    if ops == [] then acc else AnagramHits(AddMatches(acc, ops[0], words), ops[1..], words)
  }

  predicate NoDuplicates(xs: seq<string>) {
    forall i, j | 0 <= i < j < |xs| :: xs[i] != xs[j]
  }

  /** The length test before the letter comparison is redundant: `Keep`
      keeps exactly the anagrams not kept yet. */
  lemma KeepAnagram(acc: seq<string>, op: string, w: string)
    ensures Keep(acc, op, w) == if IsAnagram(w, op) && w !in acc then acc + [w] else acc
  {
    SortCharsAnagram(w, op);
    if IsAnagram(w, op) {
      assert |w| == |multiset(w)| == |multiset(op)| == |op|;
    }
  }

  /** What the inner loop adds: the matching words not kept yet, nothing
      twice. */
  lemma {:induction false} AddMatchesSpec(acc: seq<string>, op: string, words: seq<string>)
    requires NoDuplicates(acc)
    ensures NoDuplicates(AddMatches(acc, op, words))
    ensures forall x :: x in AddMatches(acc, op, words) <==> x in acc || (x in words && IsAnagram(x, op))
    decreases |words|
  {
    if words != [] {
      var next := Keep(acc, op, words[0]);
      KeepStep(acc, op, words[0]);
      AddMatchesSpec(next, op, words[1..]);
      InCons(words);
    }
  }

  lemma KeepStep(acc: seq<string>, op: string, w: string)
    requires NoDuplicates(acc)
    ensures NoDuplicates(Keep(acc, op, w))
    ensures forall x :: x in Keep(acc, op, w) <==> x in acc || (x == w && IsAnagram(x, op))
  {
    KeepAnagram(acc, op, w);
  }

  lemma InCons<T>(xs: seq<T>)
    requires xs != []
    ensures forall x :: x in xs <==> x == xs[0] || x in xs[1..]
  {
    assert xs == [xs[0]] + xs[1..];
  }

  /** What anagrams() finds: every file word that is an anagram of some
      requested word, each once. */
  lemma {:induction false} AnagramHitsSpec(acc: seq<string>, ops: seq<string>, words: seq<string>)
    requires NoDuplicates(acc)
    ensures NoDuplicates(AnagramHits(acc, ops, words))
    ensures forall x :: (x in AnagramHits(acc, ops, words)
      <==> x in acc || (x in words && exists k | 0 <= k < |ops| :: IsAnagram(x, ops[k])))
    decreases |ops|
  {
    if ops != [] {
      var next := AddMatches(acc, ops[0], words);
      AddMatchesSpec(acc, ops[0], words);
      AnagramHitsSpec(next, ops[1..], words);
      forall x ensures (exists k | 0 <= k < |ops| :: IsAnagram(x, ops[k]))
        <==> IsAnagram(x, ops[0]) || exists k | 0 <= k < |ops[1..]| :: IsAnagram(x, ops[1..][k])
      {
        if exists k | 0 <= k < |ops| :: IsAnagram(x, ops[k]) {
          var k :| 0 <= k < |ops| && IsAnagram(x, ops[k]);
          if k > 0 { assert ops[1..][k - 1] == ops[k]; }
        }
        if exists k | 0 <= k < |ops[1..]| :: IsAnagram(x, ops[1..][k]) {
          var k :| 0 <= k < |ops[1..]| && IsAnagram(x, ops[1..][k]);
          assert ops[k + 1] == ops[1..][k];
        }
      }
    }
  }

  /** The position of the first requested word `x` is an anagram of, or
      `|ops|` when it is an anagram of none. */
  function FirstAnagram(x: string, ops: seq<string>): (k: nat)
    ensures k <= |ops|
    ensures k < |ops| ==> IsAnagram(x, ops[k])
    ensures forall m | 0 <= m < k :: !IsAnagram(x, ops[m])
  {
    if ops == [] then 0
    else if IsAnagram(x, ops[0]) then 0
    else
      var k := 1 + FirstAnagram(x, ops[1..]);
      assert forall m | 1 <= m < k :: ops[m] == ops[1..][m - 1];
      k
  }

  /** Listed in the order anagrams() finds them: by the first requested word
      each one is an anagram of, and for the same requested word in
      ascending order. */
  predicate AnagramOrdered(hits: seq<string>, ops: seq<string>) {
    forall i, j | 0 <= i < j < |hits| ::
      FirstAnagram(hits[i], ops) < FirstAnagram(hits[j], ops)
      || (FirstAnagram(hits[i], ops) == FirstAnagram(hits[j], ops) && Below(hits[i], hits[j]))
  }

  /** The order of the listing: the hits for the first requested word come
      first, in ascending order, then those new to the second, and so on. */
  lemma {:induction false} AnagramHitsOrder(ops: seq<string>, words: seq<string>)
    requires Ascending(words)
    ensures AnagramOrdered(AnagramHits([], ops, words), ops)
    decreases |ops|
  {
    if ops != [] {
      var init, o := ops[..|ops| - 1], ops[|ops| - 1];
      assert ops == init + [o];
      AnagramHitsOrder(init, words);
      AnagramHitsSnoc([], init, o, words);
      var h := AnagramHits([], init, words);
      AnagramHitsSpec([], init, words);
      AddMatchesAppends(h, o, words);
      var r := AddMatches(h, o, words);
      assert AppendsMatches(h, o, words, r);
      var t := r[|h|..];
      forall x | x in h ensures FirstAnagram(x, ops) == FirstAnagram(x, init) < |init| {
        FirstAnagramFound(x, init);
        FirstAnagramOld(x, init, o);
      }
      forall x | x in t ensures FirstAnagram(x, ops) == |init| {
        FirstAnagramFound(x, init);
        FirstAnagramNew(x, init, o);
      }
      forall i, j | 0 <= i < j < |r|
        ensures FirstAnagram(r[i], ops) < FirstAnagram(r[j], ops)
             || (FirstAnagram(r[i], ops) == FirstAnagram(r[j], ops) && Below(r[i], r[j]))
      {
        if j < |h| {
          assert r[i] == r[..|h|][i] && r[j] == r[..|h|][j];
          assert h[i] in h && h[j] in h;
        } else if i < |h| {
          assert r[i] == r[..|h|][i] && r[j] == t[j - |h|];
          assert h[i] in h && r[j] in t;
        } else {
          assert r[i] == t[i - |h|] && r[j] == t[j - |h|];
          assert r[i] in t && r[j] in t;
        }
      }
    }
  }

  /** A word is an anagram of some requested word exactly when the first
      such word exists. */
  lemma FirstAnagramFound(x: string, ops: seq<string>)
    ensures FirstAnagram(x, ops) < |ops| <==> exists k | 0 <= k < |ops| :: IsAnagram(x, ops[k])
  {
    var k := FirstAnagram(x, ops);
    if k < |ops| {
      assert IsAnagram(x, ops[k]);
    }
  }

  /** Requested words added later do not change the first one a word is an
      anagram of. */
  lemma FirstAnagramOld(x: string, init: seq<string>, o: string)
    requires FirstAnagram(x, init) < |init|
    ensures FirstAnagram(x, init + [o]) == FirstAnagram(x, init)
  {
    var ops := init + [o];
    var k1, k2 := FirstAnagram(x, init), FirstAnagram(x, ops);
    assert ops[k1] == init[k1];
    assert k2 < |init| ==> ops[k2] == init[k2];
  }

  /** A word that is an anagram of the last requested word only is first
      an anagram of that one. */
  lemma FirstAnagramNew(x: string, init: seq<string>, o: string)
    requires IsAnagram(x, o) && FirstAnagram(x, init) == |init|
    ensures FirstAnagram(x, init + [o]) == |init|
  {
    var ops := init + [o];
    var k := FirstAnagram(x, ops);
    assert IsAnagram(x, ops[|init|]);
  }

  /** The outer loop, one requested word more: its matches come last. */
  lemma {:induction false} AnagramHitsSnoc(acc: seq<string>, ops: seq<string>, o: string, words: seq<string>)
    ensures AnagramHits(acc, ops + [o], words) == AddMatches(AnagramHits(acc, ops, words), o, words)
    decreases |ops|
  {
    if ops == [] {
      assert (ops + [o])[0] == o && (ops + [o])[1..] == [];
    } else {
      assert (ops + [o])[0] == ops[0] && (ops + [o])[1..] == ops[1..] + [o];
      AnagramHitsSnoc(AddMatches(acc, ops[0], words), ops[1..], o, words);
    }
  }

  /** `r` is `acc` followed by file words from `words` in ascending order,
      anagrams of `op`, none of them in `acc`. */
  predicate AppendsMatches(acc: seq<string>, op: string, words: seq<string>, r: seq<string>) {
    |acc| <= |r| && r[..|acc|] == acc && Ascending(r[|acc|..])
    && forall x | x in r[|acc|..] :: x in words && IsAnagram(x, op) && x !in acc
  }

  /** The inner loop over ascending file words only appends, and what it
      appends are file words in ascending order, anagrams of `op`, none
      kept before. */
  lemma {:induction false} AddMatchesAppends(acc: seq<string>, op: string, words: seq<string>)
    requires Ascending(words)
    ensures AppendsMatches(acc, op, words, AddMatches(acc, op, words))
    decreases |words|
  {
    if words == [] {
      assert AddMatches(acc, op, words)[|acc|..] == [];
    } else {
      var next := Keep(acc, op, words[0]);
      AscendingTail(words);
      AddMatchesAppends(next, op, words[1..]);
      KeepAppends(acc, op, words, AddMatches(next, op, words[1..]));
    }
  }

  /** One step of the inner loop keeps the appended part ascending and made
      of new anagrams. */
  lemma KeepAppends(acc: seq<string>, op: string, words: seq<string>, r: seq<string>)
    requires words != [] && forall y | y in words[1..] :: Below(words[0], y)
    requires AppendsMatches(Keep(acc, op, words[0]), op, words[1..], r)
    ensures AppendsMatches(acc, op, words, r)
  {
    var w := words[0];
    var next := Keep(acc, op, w);
    KeepAnagram(acc, op, w);
    InCons(words);
    if next == acc + [w] {
      assert r[..|acc|] == r[..|next|][..|acc|];
      assert r[|acc|..] == [w] + r[|next|..];
      AscendingCons(w, r[|next|..]);
    }
  }

  lemma AscendingTail(words: seq<string>)
    requires words != [] && Ascending(words)
    ensures Ascending(words[1..])
    ensures forall y | y in words[1..] :: Below(words[0], y)
  {
    forall y | y in words[1..] ensures Below(words[0], y) {
      var j :| 0 <= j < |words[1..]| && words[1..][j] == y;
      assert words[j + 1] == y;
    }
  }

  lemma AscendingCons(w: string, t: seq<string>)
    requires Ascending(t) && forall y | y in t :: Below(w, y)
    ensures Ascending([w] + t)
  {
    var s := [w] + t;
    forall i, j | 0 <= i < j < |s| ensures Below(s[i], s[j]) {
      assert s[j] == t[j - 1];
      if i > 0 {
        assert s[i] == t[i - 1];
      } else {
        assert t[j - 1] in t;
      }
    }
  }

  function AnagramsReport(text: string, ops: seq<string>): Option<string> {
    var hits := AnagramHits([], ops, SortedWords(text));
    if hits == [] then None else Some("Anagrams:\n" + Bracketed(hits))
  }

  /** anagrams(): for every requested word in turn, every file word in
      ascending order that has its length and its sorted letters and is not
      listed yet. */
  method Anagrams(text: string, anagrams: seq<string>) returns (report: Option<string>)
    ensures report.Some? <==> exists w, k | w in FileWords(text) && 0 <= k < |anagrams| :: IsAnagram(w, anagrams[k])
    ensures report == AnagramsReport(text, anagrams)
  {
    var words := SortedVector(text);
    var result: seq<string> := [];
    for i := 0 to |anagrams|
      invariant AnagramHits([], anagrams, words) == AnagramHits(result, anagrams[i..], words)
    {
      var anagram := anagrams[i];
      var anvec := SortChars(anagram);
      assert anagrams[i..][1..] == anagrams[i + 1..];
      ghost var start := result;
      for j := 0 to |words|
        invariant AddMatches(start, anagram, words) == AddMatches(result, anagram, words[j..])
      {
        var word := words[j];
        assert words[j..][1..] == words[j + 1..];
        if |word| != |anagram| {
          continue;
        }
        var wordChars := SortChars(word);
        if anvec == wordChars && word !in result {
          result := result + [word];
        }
      }
    }
    AnagramHitsSpec([], anagrams, words);
    assert anagrams[|anagrams|..] == [];
    if result != [] {
      assert result[0] in result;
    }
    if result == [] {
      return None;
    }
    var listing := Bracket(result);
    report := Some("Anagrams:\n" + listing);
  }
}

/** Orderings the analyser relies on: `std::string`'s `operator<`, a
    `std::set<std::string>` as the strictly ascending sequence it iterates in,
    and `std::sort` on the characters of a word. Characters compare by code
    point. */
module Order {

  // ------------------------------------------------ lexicographic string order

  /** `a < b` on strings: at the first position where they differ the
      character of `a` is smaller, or `a` is a proper prefix of `b`. */
  predicate Below(a: string, b: string) {
    if a == [] then b != []
    else b != [] && (a[0] < b[0] || (a[0] == b[0] && Below(a[1..], b[1..])))
  }

  lemma {:induction false} BelowIrreflexive(a: string)
    ensures !Below(a, a)
  {
    if a != [] {
      BelowIrreflexive(a[1..]);
    }
  }

  lemma {:induction false} BelowTransitive(a: string, b: string, c: string)
    requires Below(a, b) && Below(b, c)
    ensures Below(a, c)
  {
    if a != [] && a[0] == b[0] && b[0] == c[0] {
      BelowTransitive(a[1..], b[1..], c[1..]);
    }
  }

  /** Two different strings are ordered one way and not the other. */
  lemma {:induction false} BelowTotal(a: string, b: string)
    ensures a != b <==> (Below(a, b) || Below(b, a))
    ensures !(Below(a, b) && Below(b, a))
  {
    if a == [] || b == [] {
    } else if a[0] == b[0] {
      BelowTotal(a[1..], b[1..]);
      assert a == [a[0]] + a[1..] && b == [b[0]] + b[1..];
    }
  }

  /** A strictly ascending sequence: sorted and free of duplicates. */
  predicate Ascending(xs: seq<string>) {
    forall i, j | 0 <= i < j < |xs| :: Below(xs[i], xs[j])
  }

  /** A strictly descending sequence. */
  predicate Descending(xs: seq<string>) {
    forall i, j | 0 <= i < j < |xs| :: Below(xs[j], xs[i])
  }

  // --------------------------------------------------- std::set<std::string>

  /** `std::set::emplace`: put `w` in its place unless it is already there. */
  function Insert(xs: seq<string>, w: string): (r: seq<string>)
    requires Ascending(xs)
    ensures Ascending(r)
    ensures forall x :: x in r <==> x in xs || x == w
  {
    if xs == [] then [w]
    else if w == xs[0] then xs
    else if Below(w, xs[0]) then
      assert forall j | 0 < j < |xs| :: Below(w, xs[j]) by {
        forall j | 0 < j < |xs| ensures Below(w, xs[j]) { BelowTransitive(w, xs[0], xs[j]); }
      }
      [w] + xs
    else
      var rest := Insert(xs[1..], w);
      BelowTotal(w, xs[0]);
      assert forall j | 0 <= j < |rest| :: Below(xs[0], rest[j]) by {
        forall j | 0 <= j < |rest| ensures Below(xs[0], rest[j]) {
          if rest[j] != w {
            assert rest[j] in rest;
            assert rest[j] in xs[1..];
            var k :| 0 <= k < |xs[1..]| && xs[1..][k] == rest[j];
            assert xs[k + 1] == rest[j];
          }
        }
      }
      [xs[0]] + rest
  }

  /** The contents of a `std::set` into which the words were emplaced one
      after another, in the order the set iterates them. */
  function SortedSet(ws: seq<string>): (r: seq<string>)
    ensures Ascending(r)
    ensures forall x :: x in r <==> x in ws
  {
    if ws == [] then []
    else
      var r := Insert(SortedSet(ws[..|ws| - 1]), ws[|ws| - 1]);
      assert forall x | x in ws :: x in ws[..|ws| - 1] || x == ws[|ws| - 1] by {
        assert ws == ws[..|ws| - 1] + [ws[|ws| - 1]];
      }
      r
  }

  /** A strictly ascending sequence is fixed by its elements: two of them
      holding the same strings are equal. So sorting the copy of a set
      (`std::sort` after `std::copy`) gives back the set's own order. */
  lemma {:induction false} AscendingUnique(a: seq<string>, b: seq<string>)
    requires Ascending(a) && Ascending(b)
    requires forall x :: x in a <==> x in b
    ensures a == b
    decreases |a|
  {
    assert a != [] ==> a[0] in b;
    assert b != [] ==> b[0] in a;
    if a != [] && b != [] {
      var i :| 0 <= i < |b| && b[i] == a[0];
      var j :| 0 <= j < |a| && a[j] == b[0];
      if i != 0 {
        assert Below(b[0], a[0]);
        if j == 0 { BelowIrreflexive(a[0]); } else { BelowTotal(a[0], a[j]); }
      }
      assert a[0] == b[0];
      forall x ensures x in a[1..] <==> x in b[1..] {
        if x in a[1..] {
          var k :| 0 <= k < |a[1..]| && a[1..][k] == x;
          assert Below(a[0], a[k + 1]);
          BelowIrreflexive(x);
          assert x in b;
        }
        if x in b[1..] {
          var k :| 0 <= k < |b[1..]| && b[1..][k] == x;
          assert Below(b[0], b[k + 1]);
          BelowIrreflexive(x);
          assert x in a;
        }
      }
      AscendingUnique(a[1..], b[1..]);
      assert a == [a[0]] + a[1..] && b == [b[0]] + b[1..];
    }
  }

  /** The elements in the opposite order. */
  function Reversed<T>(s: seq<T>): (r: seq<T>)
    ensures |r| == |s|
    ensures forall i | 0 <= i < |s| :: r[i] == s[|s| - 1 - i]
  {
    if s == [] then [] else [s[|s| - 1]] + Reversed(s[..|s| - 1])
  }

  /** `std::sort` with `>` on the copy of a set: the reversal of the set's
      order is strictly descending, holds the same strings, and is the only
      strictly descending sequence that does. */
  lemma ReversedDescending(a: seq<string>, d: seq<string>)
    requires Ascending(a)
    ensures Descending(Reversed(a))
    ensures forall x :: x in Reversed(a) <==> x in a
    ensures Descending(d) && (forall x :: x in d <==> x in a) ==> d == Reversed(a)
  {
    ReversedMembers(a);
    if Descending(d) && (forall x :: x in d <==> x in a) {
      var rd := Reversed(d);
      assert Ascending(rd);
      ReversedMembers(d);
      AscendingUnique(rd, a);
      ReversedTwice(d);
    }
  }

  /** Reversing keeps the elements. */
  lemma ReversedMembers<T>(s: seq<T>)
    ensures forall x :: x in Reversed(s) <==> x in s
  {
    var r := Reversed(s);
    forall x | x in s ensures x in r {
      var k :| 0 <= k < |s| && s[k] == x;
      assert r[|s| - 1 - k] == x;
    }
    forall x | x in r ensures x in s {
      var k :| 0 <= k < |r| && r[k] == x;
    }
  }

  /** Reversing twice gives the sequence back. */
  lemma ReversedTwice<T>(s: seq<T>)
    ensures Reversed(Reversed(s)) == s
  {
    assert forall i | 0 <= i < |s| :: Reversed(Reversed(s))[i] == s[i];
  }

  // ------------------------------------------------ sorting a word's letters

  predicate NonDecreasing(s: string) {
    forall i, j | 0 <= i < j < |s| :: s[i] <= s[j]
  }

  function InsertChar(s: string, c: char): (r: string)
    requires NonDecreasing(s)
    ensures NonDecreasing(r)
    ensures multiset(r) == multiset(s) + multiset{c}
  {
    if s == [] || c <= s[0] then
      PrependLeast(c, s, s, c);
      [c] + s
    else
      var rest := InsertChar(s[1..], c);
      InsertAfterHead(s, rest, c);
      [s[0]] + rest
  }

  /** The first letter of a non-decreasing string is its least. */
  lemma HeadIsLeast(s: string, x: char)
    requires NonDecreasing(s) && x in multiset(s)
    ensures s[0] <= x
  {
    var k :| 0 <= k < |s| && s[k] == x;
  }

  /** A letter no greater than any letter of a non-decreasing string can go
      in front of it. */
  lemma PrependLeast(x: char, rest: string, s: string, c: char)
    requires NonDecreasing(rest) && forall j | 0 <= j < |rest| :: x <= rest[j]
    requires multiset(rest) + multiset{x} == multiset(s) + multiset{c}
    ensures NonDecreasing([x] + rest)
    ensures multiset([x] + rest) == multiset(s) + multiset{c}
  {
    var r := [x] + rest;
    forall i, j | 0 <= i < j < |r| ensures r[i] <= r[j] {
      assert r[j] == rest[j - 1];
      if i > 0 { assert r[i] == rest[i - 1]; }
    }
  }

  lemma InsertAfterHead(s: string, rest: string, c: char)
    requires NonDecreasing(s) && s != [] && s[0] < c
    requires NonDecreasing(rest) && multiset(rest) == multiset(s[1..]) + multiset{c}
    ensures NonDecreasing([s[0]] + rest)
    ensures multiset([s[0]] + rest) == multiset(s) + multiset{c}
  {
    assert s == [s[0]] + s[1..];
    assert multiset(s) == multiset{s[0]} + multiset(s[1..]);
    forall j | 0 <= j < |rest| ensures s[0] <= rest[j] {
      var x := rest[j];
      assert x in multiset(rest);
      if x != c {
        assert x in multiset(s);
        HeadIsLeast(s, x);
      }
    }
    PrependLeast(s[0], rest, s, c);
  }

  /** `std::sort` on the characters of a word: the same letters in
      non-decreasing order. */
  function SortChars(s: string): (r: string)
    ensures NonDecreasing(r)
    ensures multiset(r) == multiset(s)
  {
    if s == [] then []
    else
      assert s == s[..|s| - 1] + [s[|s| - 1]];
      InsertChar(SortChars(s[..|s| - 1]), s[|s| - 1])
  }

  /** A non-decreasing string is fixed by the multiset of its letters. */
  lemma {:induction false} NonDecreasingUnique(a: string, b: string)
    requires NonDecreasing(a) && NonDecreasing(b)
    requires multiset(a) == multiset(b)
    ensures a == b
    decreases |a|
  {
    assert |a| == |multiset(a)| == |multiset(b)| == |b|;
    if a != [] {
      assert a[0] in multiset(b) && b[0] in multiset(a);
      HeadIsLeast(a, b[0]);
      HeadIsLeast(b, a[0]);
      assert a[0] == b[0];
      MultisetTail(a);
      MultisetTail(b);
      NonDecreasingUnique(a[1..], b[1..]);
    }
  }

  lemma MultisetTail(s: string)
    requires s != []
    ensures multiset(s[1..]) == multiset(s) - multiset{s[0]}
  {
    assert s == [s[0]] + s[1..];
  }

  /** Two words are anagrams of each other exactly when their sorted letters
      agree, which is exactly when they hold the same letters with the same
      multiplicities; the equal length then follows. */
  lemma SortCharsAnagram(a: string, b: string)
    ensures SortChars(a) == SortChars(b) <==> multiset(a) == multiset(b)
    ensures SortChars(a) == SortChars(b) ==> |a| == |b|
  {
    if multiset(a) == multiset(b) {
      NonDecreasingUnique(SortChars(a), SortChars(b));
    }
    if SortChars(a) == SortChars(b) {
      assert |a| == |multiset(a)| == |multiset(b)| == |b|;
    }
  }
}

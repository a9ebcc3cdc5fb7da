/** How the reports are written: `std::to_string` of a count, and the
    "[a, b, c]" listing the list-producing reports end with. */
module Format {
  import opened Text

  function DigitChar(d: nat): (c: char)
    requires d < 10
    ensures IsDigit(c)
  {
    "0123456789"[d]
  }

  function DigitValue(c: char): nat {
    if IsDigit(c) then (c as int - '0' as int) as nat else 0
  }

  /** `std::to_string` of a non-negative count: its decimal digits, no sign,
      no leading zero. */
  function NatToString(n: nat): (s: string)
    ensures |s| >= 1
    ensures forall i | 0 <= i < |s| :: IsDigit(s[i])
    ensures s[0] == '0' ==> n == 0
    ensures |s| > 1 ==> s[0] != '0'
  {
    if n < 10 then [DigitChar(n)] else NatToString(n / 10) + [DigitChar(n % 10)]
  }

  /** Reading a string of decimal digits back as a number. */
  function ParseNat(s: string): nat {
    if s == [] then 0 else 10 * ParseNat(s[..|s| - 1]) + DigitValue(s[|s| - 1])
  }

  /** The count a report shows can be read back from it. */
  lemma {:induction false} ParseNatToString(n: nat)
    ensures ParseNat(NatToString(n)) == n
  {
    var s := NatToString(n);
    if n < 10 {
      assert s[..0] == [];
    } else {
      ParseNatToString(n / 10);
      assert s[..|s| - 1] == NatToString(n / 10);
    }
  }

  /** Different counts give different texts. */
  lemma NatToStringInjective(m: nat, n: nat)
    requires NatToString(m) == NatToString(n)
    ensures m == n
  {
    ParseNatToString(m);
    ParseNatToString(n);
  }

  // ----------------------------------------------------------- "[a, b, c]"

  /** Every item followed by ", ". */
  function Listed(xs: seq<string>): string {
    if xs == [] then [] else xs[0] + ", " + Listed(xs[1..])
  }

  lemma {:induction false} ListedSnoc(xs: seq<string>, x: string)
    ensures Listed(xs + [x]) == Listed(xs) + x + ", "
    decreases |xs|
  {
    if xs == [] {
      assert xs + [x] == [x];
    } else {
      assert (xs + [x])[1..] == xs[1..] + [x];
      ListedSnoc(xs[1..], x);
    }
  }

  /** The listing of a non-empty sequence: every item but the last followed
      by ", ", then the last, inside brackets. The source's loop bound
      `size() - 1` wraps around for an empty sequence and `back()` is then
      undefined, so the empty listing does not exist. */
  function Bracketed(items: seq<string>): string
    requires |items| >= 1
  {
    "[" + Listed(items[..|items| - 1]) + items[|items| - 1] + "]"
  }

  /** The loop that writes a listing, item after item. */
  method Bracket(items: seq<string>) returns (result: string)
    requires |items| >= 1
    ensures result == Bracketed(items)
    ensures |result| >= 2 && result[0] == '[' && result[|result| - 1] == ']'
  {
    result := "[";
    var i := 0;
    while i < |items| - 1
      invariant 0 <= i <= |items| - 1
      invariant result == "[" + Listed(items[..i])
    {
      ListedSnoc(items[..i], items[i]);
      assert items[..i + 1] == items[..i] + [items[i]];
      result := result + items[i] + ", ";
      i := i + 1;
    }
    result := result + items[|items| - 1] + "]";
  }

  /** The pieces a listing is split into at spaces: every item but the last
      with its comma, then the last. */
  function Commaed(xs: seq<string>, last: string): (ps: seq<string>)
    ensures |ps| == |xs| + 1
  {
    seq(|xs|, i requires 0 <= i < |xs| => xs[i] + ",") + [last]
  }

  /** Reading a listing back: drop the brackets, split at the spaces, and
      drop the comma that ends every piece but the last. */
  function ItemsOf(r: string): seq<string>
    requires |r| >= 2
  {
    var ps := SplitOnSpace(r[1..|r| - 1]);
    seq(|ps|, i requires 0 <= i < |ps| =>
      if i < |ps| - 1 && ps[i] != [] then ps[i][..|ps[i]| - 1] else ps[i])
  }

  lemma {:induction false} ListedJoin(xs: seq<string>, last: string)
    ensures Listed(xs) + last == JoinWithSpace(Commaed(xs, last))
    decreases |xs|
  {
    if xs != [] {
      ListedJoin(xs[1..], last);
      var ps := Commaed(xs, last);
      assert ps[1..] == Commaed(xs[1..], last);
      assert ps[0] == xs[0] + ",";
    }
  }

  /** A listing of items that hold no space reads back as those items: the
      listing loses nothing and adds nothing. */
  lemma ItemsOfBracketed(items: seq<string>)
    requires |items| >= 1 && NoSpaceIn(items)
    ensures ItemsOf(Bracketed(items)) == items
  {
    var r := Bracketed(items);
    var n := |items|;
    var xs, last := items[..n - 1], items[n - 1];
    var ps := Commaed(xs, last);
    assert r[1..|r| - 1] == Listed(xs) + last;
    ListedJoin(xs, last);
    forall i | 0 <= i < |ps| ensures ' ' !in ps[i] {
      if i < |xs| {
        assert items[i] == xs[i];
        assert forall c | c in xs[i] + "," :: c in xs[i] || c == ',';
      }
    }
    SplitJoin(ps);
    var got := ItemsOf(r);
    assert |got| == n;
    forall i | 0 <= i < n ensures got[i] == items[i] {
      if i < n - 1 {
        assert ps[i] == items[i] + ",";
        assert ps[i][..|ps[i]| - 1] == items[i];
      }
    }
  }
}

/** The flag classifier: the closed set of flags, the table of their short
    and long spellings, and the lookup that maps a command token to a flag. */
module Flags {
  import opened Order

  datatype Flag =
    | Help | File | Newlines | Digits | Numbers | Chars | Anagrams | Palindromes
    | Sorted | ReverseSorted | Output | Input | Invalid

  /** One row of the table: two spellings of one flag. */
  datatype Aliases = Aliases(short: string, long: string, flag: Flag)

  /** A row stands for a token when either spelling is exactly the token. */
  predicate Matches(a: Aliases, token: string) {
    a.short == token || a.long == token
  }

  /** The table, in the order a `std::map` keyed by short spelling iterates
      it. `--help` has no row. */
  const Table: seq<Aliases> := [
    Aliases("-a", "--anagrams", Anagrams),
    Aliases("-c", "--chars", Chars),
    Aliases("-d", "--digits", Digits),
    Aliases("-dd", "--numbers", Numbers),
    Aliases("-f", "--file", File),
    Aliases("-i", "--input", Input),
    Aliases("-n", "--newlines", Newlines),
    Aliases("-o", "--output", Output),
    Aliases("-p", "--palindromes", Palindromes),
    Aliases("-rs", "--reverse-sorted", ReverseSorted),
    Aliases("-s", "--sorted", Sorted)
  ]

  /** Neither `Help` nor `Invalid` has a row. */
  predicate Proper(f: Flag) {
    f != Help && f != Invalid
  }

  /** The flag of the first row that stands for the token, `Invalid` when
      none does. */
  function Lookup(rows: seq<Aliases>, token: string): Flag {
    if rows == [] then Invalid
    else if Matches(rows[0], token) then rows[0].flag
    else Lookup(rows[1..], token)
  }

  /** Over rows that carry neither `Help` nor `Invalid`, the lookup answers
      `Invalid` exactly when no row stands for the token, and otherwise the
      flag of a row that does. */
  lemma {:induction false} LookupSpec(rows: seq<Aliases>, token: string)
    requires forall i | 0 <= i < |rows| :: Proper(rows[i].flag)
    ensures Lookup(rows, token) != Help
    ensures Lookup(rows, token) == Invalid <==> forall i | 0 <= i < |rows| :: !Matches(rows[i], token)
    ensures Lookup(rows, token) != Invalid ==>
      exists i | 0 <= i < |rows| :: Matches(rows[i], token) && rows[i].flag == Lookup(rows, token)
  {
    if rows != [] {
      assert Proper(rows[0].flag);
      if !Matches(rows[0], token) {
        assert forall i | 0 <= i < |rows[1..]| :: rows[1..][i] == rows[i + 1];
        LookupSpec(rows[1..], token);
        if Lookup(rows, token) != Invalid {
          var i :| 0 <= i < |rows[1..]| && Matches(rows[1..][i], token) && rows[1..][i].flag == Lookup(rows, token);
          assert Matches(rows[i + 1], token);
        }
      }
    }
  }

  lemma TableProper()
    ensures forall i | 0 <= i < |Table| :: Proper(Table[i].flag)
  {
    var flags := seq(|Table|, k requires 0 <= k < |Table| => Table[k].flag);
    assert flags == [Anagrams, Chars, Digits, Numbers, File, Input, Newlines, Output,
      Palindromes, ReverseSorted, Sorted];
    assert forall i | 0 <= i < |Table| :: Table[i].flag == flags[i];
  }

  /** Classifying a token: the flag of the first table row that stands for
      it, or `Invalid`. */
  function Interpret(token: string): Flag {
    Lookup(Table, token)
  }

  /** interpret() itself: the rows in table order, the first whose either
      spelling equals the entry gives the flag, and `Invalid` when none
      does. */
  method InterpretEntry(entry: string) returns (f: Flag)
    ensures f == Interpret(entry)
  {
    var rows := Table;
    for i := 0 to |rows|
      invariant Lookup(rows[i..], entry) == Lookup(rows, entry)
    {
      LookupStep(rows, i, entry);
      if rows[i].short == entry || rows[i].long == entry {
        return rows[i].flag;
      }
    }
    f := Invalid;
  }

  lemma LookupStep(rows: seq<Aliases>, i: nat, token: string)
    requires i < |rows|
    ensures Lookup(rows[i..], token)
      == if Matches(rows[i], token) then rows[i].flag else Lookup(rows[i + 1..], token)
  {
    assert rows[i..][0] == rows[i];
    assert rows[i..][1..] == rows[i + 1..];
  }

  /** No row carries `Help` or `Invalid`, so `Help` is never the answer and
      `Invalid` means exactly that no row stands for the token. */
  lemma InterpretSpec(token: string)
    ensures Interpret(token) != Help
    ensures Interpret(token) == Invalid <==> forall i | 0 <= i < |Table| :: !Matches(Table[i], token)
    ensures Interpret(token) != Invalid ==>
      exists i | 0 <= i < |Table| :: Matches(Table[i], token) && Table[i].flag == Interpret(token)
  {
    TableProper();
    LookupSpec(Table, token);
  }

  // Proof aids. The four members below model nothing in the source: they
  // only let `MatchUnique` and `HelpIsNotAnAlias` tell the 22 spellings
  // apart without comparing every pair of strings.

  /** A cheap fingerprint of a spelling (its length and one letter) that
      already tells the 22 spellings apart. */
  function Signature(s: string): int {
    if |s| < 2 then 0 else if |s| < 3 then 1000 * |s| + s[1] as int else 1000 * |s| + s[2] as int
  }

  lemma TableSignatures()
    ensures forall k | 0 <= k < |Table| :: Signature(Table[k].short) == ShortSignatures[k]
    ensures forall k | 0 <= k < |Table| :: Signature(Table[k].long) == LongSignatures[k]
  {
    var shorts := seq(|Table|, k requires 0 <= k < |Table| => Signature(Table[k].short));
    var longs := seq(|Table|, k requires 0 <= k < |Table| => Signature(Table[k].long));
    assert shorts == ShortSignatures;
    assert longs == LongSignatures;
  }

  const ShortSignatures: seq<int> :=
    [2097, 2099, 2100, 3100, 2102, 2105, 2110, 2111, 2112, 3115, 2115]
  const LongSignatures: seq<int> :=
    [10097, 7099, 8100, 9110, 6102, 7105, 10110, 8111, 13112, 16114, 8115]

  /** Where a signature stands in `ShortSignatures + LongSignatures`. */
  function SignatureIndex(n: int): int {
    match n
    case 2097 => 0 case 2099 => 1 case 2100 => 2 case 3100 => 3 case 2102 => 4 case 2105 => 5
    case 2110 => 6 case 2111 => 7 case 2112 => 8 case 3115 => 9 case 2115 => 10
    case 10097 => 11 case 7099 => 12 case 8100 => 13 case 9110 => 14 case 6102 => 15
    case 7105 => 16 case 10110 => 17 case 8111 => 18 case 13112 => 19 case 16114 => 20
    case 8115 => 21 case _ => -1
  }

  /** The 22 spellings are pairwise different: a token stands for at most one
      row, so the order in which the table is searched does not matter. */
  lemma MatchUnique(token: string, i: nat, j: nat)
    requires i < |Table| && j < |Table|
    requires Matches(Table[i], token) && Matches(Table[j], token)
    ensures i == j
  {
    TableSignatures();
    SignaturesApart();
    var n := Signature(token);
    assert n == ShortSignatures[i] || n == LongSignatures[i];
    assert n == ShortSignatures[j] || n == LongSignatures[j];
  }

  lemma SignaturesApart()
    ensures forall k | 0 <= k < |ShortSignatures| :: SignatureIndex(ShortSignatures[k]) == k
    ensures forall k | 0 <= k < |LongSignatures| :: SignatureIndex(LongSignatures[k]) == k + 11
  {
  }

  /** Both spellings of every row classify as that row's flag. */
  lemma AliasesAgree(i: nat)
    requires i < |Table|
    ensures Interpret(Table[i].short) == Table[i].flag
    ensures Interpret(Table[i].long) == Table[i].flag
  {
    var s, l := Table[i].short, Table[i].long;
    InterpretSpec(s);
    InterpretSpec(l);
    var j :| 0 <= j < |Table| && Matches(Table[j], s) && Table[j].flag == Interpret(s);
    MatchUnique(s, i, j);
    var k :| 0 <= k < |Table| && Matches(Table[k], l) && Table[k].flag == Interpret(l);
    MatchUnique(l, i, k);
  }

  /** Neither `--help` nor the empty token is a spelling of any flag, so
      both classify as `Invalid`. */
  lemma HelpIsNotAnAlias(token: string)
    requires token == "--help" || token == ""
    ensures Interpret(token) == Invalid
  {
    assert Signature(token) == 6104 || Signature(token) == 0;
    UnknownSignature(token);
    InterpretSpec(token);
  }

  /** A token whose signature no spelling has matches no row. */
  lemma UnknownSignature(token: string)
    requires Signature(token) !in ShortSignatures && Signature(token) !in LongSignatures
    ensures forall k | 0 <= k < |Table| :: !Matches(Table[k], token)
  {
    TableSignatures();
  }

  /** The rows really are in `std::map` order: strictly ascending by short
      spelling. */
  lemma TableInMapOrder()
    ensures Ascending(seq(|Table|, k requires 0 <= k < |Table| => Table[k].short))
  {
    var shorts := seq(|Table|, k requires 0 <= k < |Table| => Table[k].short);
    assert shorts == ["-a", "-c", "-d", "-dd", "-f", "-i", "-n", "-o", "-p", "-rs", "-s"];
    forall k | 0 <= k < |shorts| - 1 ensures Below(shorts[k], shorts[k + 1]) {
      assert shorts[k][0] == shorts[k + 1][0] == '-';
      assert shorts[k][1..] == [shorts[k][1]] + shorts[k][2..];
    }
    forall k, l | 0 <= k < l < |shorts| ensures Below(shorts[k], shorts[l]) {
      ChainBelow(shorts, k, l);
    }
  }

  lemma {:induction false} ChainBelow(xs: seq<string>, k: nat, l: nat)
    requires k < l < |xs|
    requires forall m | 0 <= m < |xs| - 1 :: Below(xs[m], xs[m + 1])
    ensures Below(xs[k], xs[l])
    decreases l - k
  {
    if l > k + 1 {
      ChainBelow(xs, k + 1, l);
      BelowTransitive(xs[k], xs[k + 1], xs[l]);
    }
  }
}

/** The name generator of src/_build/minify.py:65-94, and the class names it
    gives at 1076-1078. */
module FreshNames {
  import opened Division
  import opened Numerals

  predicate Letters(b: string) {
    b != "" && forall i, j :: 0 <= i < j < |b| ==> b[i] != b[j]
  }

  predicate Over(o: string, b: string) {
    forall c :: c in o ==> c in b
  }

  /** How many names are shorter than n letters. */
  function Shorter(l: nat, n: nat): nat
    requires n > 0
  {
    if n == 1 then 0 else Shorter(l, n - 1) + Pow(l, n - 1)
  }

  /** The digits of v in base |b| as letters, in n places. */
  function Name(b: string, n: nat, v: nat): (o: string)
    requires b != ""
    ensures |o| == n && Over(o, b)
  {
    if n == 0 then "" else Name(b, n - 1, v / |b|) + [b[v % |b|]]
  }

  /** Where a letter stands. */
  function Place(b: string, c: char): (i: nat)
    requires c in b
    ensures i < |b| && b[i] == c
  {
    if b[0] == c then 0 else 1 + Place(b[1..], c)
  }

  /** The number a name of n letters is among its like. */
  function Rank(b: string, o: string): nat
    requires Over(o, b)
  {
    if o == "" then 0 else Rank(b, o[..|o| - 1]) * |b| + Place(b, o[|o| - 1])
  }

  lemma {:induction false} RankOfName(b: string, n: nat, v: nat)
    requires Letters(b) && v < Pow(|b|, n)
    ensures Rank(b, Name(b, n, v)) == v
  {
    hide Letters, Over, Rank, Name, Place;
    LettersNonempty(b);
    if n == 0 {
      NameUnfold(b, n, v);
      RankUnfold(b, "");
    } else {
      var l := |b|;
      var o, init := Name(b, n, v), Name(b, n - 1, v / l);
      NameUnfold(b, n, v);
      RankUnfold(b, o);
      assert o[..|o| - 1] == init;
      QuotientBelow(v, l, Pow(l, n - 1));
      RankOfName(b, n - 1, v / l);
      Parts(v, l);
      PlaceUnique(b, v % l);
    }
  }

  lemma LettersNonempty(b: string)
    requires Letters(b)
    ensures b != ""
  {
  }

  lemma NameUnfold(b: string, n: nat, v: nat)
    requires b != ""
    ensures Name(b, n, v) == if n == 0 then "" else Name(b, n - 1, v / |b|) + [b[v % |b|]]
  {
  }

  lemma RankUnfold(b: string, o: string)
    requires Over(o, b)
    ensures o != "" ==> Over(o[..|o| - 1], b) && o[|o| - 1] in b
    ensures Rank(b, o) == if o == "" then 0 else Rank(b, o[..|o| - 1]) * |b| + Place(b, o[|o| - 1])
  {
  }

  lemma PlaceUnique(b: string, i: nat)
    requires Letters(b) && i < |b|
    ensures Place(b, b[i]) == i
  {
  }

  lemma {:induction false} NameOfRank(b: string, o: string)
    requires Letters(b) && Over(o, b)
    ensures Rank(b, o) < Pow(|b|, |o|) && Name(b, |o|, Rank(b, o)) == o
  {
    if o != "" {
      var l, init, d := |b|, o[..|o| - 1], Place(b, o[|o| - 1]);
      NameOfRank(b, init);
      var r := Rank(b, init);
      Between(r * l + d, l, r, d, Pow(l, |init|), 0);
      QuotientUnique(r * l + d, l, r, d);
      assert o == init + [o[|o| - 1]];
    }
  }

  /** The number of a name. */
  function NumberOf(b: string, o: string): nat
    requires |o| > 0 && Over(o, b)
  {
    Shorter(|b|, |o|) + Rank(b, o) + 1
  }

  lemma {:induction false} ShorterGrows(l: nat, m: nat, n: nat)
    requires 0 < m < n
    ensures Shorter(l, m) + Pow(l, m) <= Shorter(l, n)
    decreases n
  {
    if m < n - 1 { ShorterGrows(l, m, n - 1); }
  }

  /** Two names with the same number are the same. */
  lemma NumbersDiffer(b: string, o: string, o': string)
    requires Letters(b) && |o| > 0 && |o'| > 0 && Over(o, b) && Over(o', b)
    ensures NumberOf(b, o) == NumberOf(b, o') ==> o == o'
  {
    hide Rank, Pow, Shorter, Name;
    NameOfRank(b, o);
    NameOfRank(b, o');
    if |o| < |o'| { ShorterGrows(|b|, |o|, |o'|); }
    if |o'| < |o| { ShorterGrows(|b|, |o'|, |o|); }
  }

  /** o and o' first differ at place k, where o has the letter that stands earlier
      in b. */
  ghost predicate EarlierAt(b: string, o: string, o': string, k: nat) {
    && Over(o, b) && Over(o', b) && k < |o| == |o'|
    && o[..k] == o'[..k] && Place(b, o[k]) < Place(b, o'[k])
  }

  ghost predicate Before(b: string, o: string, o': string) {
    exists k :: EarlierAt(b, o, o', k)
  }

  lemma {:induction false} RankOrder(b: string, o: string, o': string, k: nat)
    requires EarlierAt(b, o, o', k)
    ensures Over(o, b) && Over(o', b) && Rank(b, o) < Rank(b, o')
    decreases |o|
  {
    hide Place, Over, Rank;
    RankUnfold(b, o);
    RankUnfold(b, o');
    var n := |o| - 1;
    if k < n {
      EarlierInit(b, o, o', k);
      RankOrder(b, o[..n], o'[..n], k);
      RowsApart(Rank(b, o[..n]), Rank(b, o'[..n]), |b|, Place(b, o[n]), Place(b, o'[n]));
    }
  }

  lemma EarlierInit(b: string, o: string, o': string, k: nat)
    requires EarlierAt(b, o, o', k) && k < |o| - 1
    ensures EarlierAt(b, o[..|o| - 1], o'[..|o| - 1], k)
  {
    hide Place;
    assert o[..|o| - 1][..k] == o[..k] && o'[..|o| - 1][..k] == o'[..k];
  }

  lemma RowsApart(r: nat, r': nat, l: nat, d: nat, d': nat)
    requires r < r' && d < l
    ensures r * l + d < r' * l + d'
  {
    assert r' * l == r * l + l + (r' - r - 1) * l && (r' - r - 1) * l >= 0;
  }

  lemma FirstDifference(o: string, o': string) returns (k: nat)
    requires |o| == |o'| && o != o'
    ensures k < |o| && o[..k] == o'[..k] && o[k] != o'[k]
  {
    var n := |o| - 1;
    assert o == o[..n] + [o[n]] && o' == o'[..n] + [o'[n]];
    if o[..n] == o'[..n] {
      k := n;
    } else {
      k := FirstDifference(o[..n], o'[..n]);
      assert o[..n][..k] == o[..k] && o'[..n][..k] == o'[..k];
    }
  }

  lemma DifferenceOrders(b: string, o: string, o': string, k: nat)
    requires Over(o, b) && Over(o', b) && k < |o| == |o'| && o[..k] == o'[..k] && o[k] != o'[k]
    ensures EarlierAt(b, o, o', k) || EarlierAt(b, o', o, k)
  {
    assert Place(b, o[k]) != Place(b, o'[k]);
  }

  /** Names are numbered by length, and among those of one length in the order of
      their letters. */
  lemma NumbersInOrder(b: string, o: string, o': string)
    requires Letters(b) && |o| > 0 && |o'| > 0 && Over(o, b) && Over(o', b)
    ensures NumberOf(b, o) < NumberOf(b, o') <==> |o| < |o'| || (|o| == |o'| && Before(b, o, o'))
  {
    hide Rank, Pow, Shorter, Name, Place, Letters, Over;
    NameOfRank(b, o);
    NameOfRank(b, o');
    if |o| < |o'| { ShorterGrows(|b|, |o|, |o'|); }
    if |o'| < |o| { ShorterGrows(|b|, |o'|, |o|); }
    if |o| == |o'| {
      if Before(b, o, o') {
        var k: nat :| EarlierAt(b, o, o', k);
        RankOrder(b, o, o', k);
      } else if o != o' {
        var k := FirstDifference(o, o');
        DifferenceOrders(b, o, o', k);
        if EarlierAt(b, o', o, k) { RankOrder(b, o', o, k); }
      }
    }
  }

  /** _gen_next: the v-th name. */
  method GenNext(v: nat, b: string) returns (o: string)
    requires v >= 1 && Letters(b)
    ensures |o| > 0 && Over(o, b) && NumberOf(b, o) == v
  {
    hide Pow, Name, Rank, Shorter;
    var n, m, k := 1, |b|, v;
    FirstPower(|b|);
    while k > m
      invariant n >= 1 && m == Pow(|b|, n) && k >= 1 && k + Shorter(|b|, n) == v
      decreases k
    {
      NextLength(|b|, n);
      k := k - m;
      m := m * |b|;
      n := n + 1;
    }
    k := k - 1;
    ghost var place := k;
    o := "";
    if k == 0 {
      o := seq(n, i => b[0]);
      ZeroName(b, n);
    } else {
      o := Spell(k, b, n);
    }
    RankOfName(b, n, place);
  }

  lemma FirstPower(l: nat)
    ensures Pow(l, 1) == l && Shorter(l, 1) == 0
  {
    assert Pow(l, 1) == l * Pow(l, 0);
  }

  lemma NextLength(l: nat, n: nat)
    requires n >= 1
    ensures Pow(l, n + 1) == Pow(l, n) * l && Shorter(l, n + 1) == Shorter(l, n) + Pow(l, n)
  {
  }

  lemma {:induction false} ZeroName(b: string, n: nat)
    requires b != ""
    ensures Name(b, n, 0) == seq(n, i => b[0])
  {
    if n > 0 {
      ZeroName(b, n - 1);
      QuotientUnique(0, |b|, 0, 0);
      assert seq(n, i => b[0]) == seq(n - 1, i => b[0]) + [b[0]];
    }
  }

  lemma Padded(x: string)
    ensures x + "" == x
  {
  }

  lemma NonEmpty(b: string)
    requires Letters(b)
    ensures b != ""
  {
  }

  /** The letters of v from the last, padded in front with the first letter. */
  method Spell(v: nat, b: string, n: nat) returns (o: string)
    requires Letters(b) && v < Pow(|b|, n)
    ensures o == Name(b, n, v)
  {
    hide Pow, Name, Letters;
    o := "";
    var k: nat := v;
    assert b != "" by { NonEmpty(b); }
    Padded(Name(b, n, v));
    while k > 0
      invariant |o| <= n && k < Pow(|b|, n - |o|) && Name(b, n - |o|, k) + o == Name(b, n, v)
      decreases k
    {
      ghost var was := o;
      NameStep(b, n - |o|, k, o);
      o := [LetterAt(b, k)] + o;
      k := NextPlace(b, k);
    }
    ZeroName(b, n - |o|);
    o := seq(n - |o|, i => b[0]) + o;
  }

  function LetterAt(b: string, k: nat): char
    requires b != ""
  {
    b[k % |b|]
  }

  function NextPlace(b: string, k: nat): nat
    requires b != ""
  {
    k / |b|
  }

  lemma NameStep(b: string, n: nat, k: nat, o: string)
    requires Letters(b) && 0 < k < Pow(|b|, n)
    ensures n > 0 && NextPlace(b, k) < Pow(|b|, n - 1) && NextPlace(b, k) < k
    ensures Name(b, n, k) + o == Name(b, n - 1, NextPlace(b, k)) + ([LetterAt(b, k)] + o)
  {
    QuotientBelow(k, |b|, Pow(|b|, n - 1));
    if |b| == 1 {
      OnePower(n);
    } else {
      DivSmaller(k, |b|);
    }
  }

  lemma {:induction false} OnePower(n: nat)
    ensures Pow(1, n) == 1
  {
    if n > 0 { OnePower(n - 1); }
  }

  // ---- names not yet taken

  /** Reserved words are text, generated names bytes: the two never compare
      equal, so no reserved word is ever avoided. */
  datatype Entry = Text(s: string) | Bytes(s: string)

  function Elems(r: seq<Entry>): set<Entry> { set x | x in r }

  lemma {:induction false} SubsetSmaller(a: set<Entry>, b: set<Entry>)
    requires a <= b
    ensures |a| <= |b|
    decreases b
  {
    if a != {} {
      var x :| x in a;
      SubsetSmaller(a - {x}, b - {x});
    }
  }

  /** o has the least number of all names that are not taken. */
  ghost predicate Fresh(o: string, r: seq<Entry>, b: string) {
    && |o| > 0 && Over(o, b) && Bytes(o) !in r
    && forall o': string :: |o'| > 0 && Over(o', b) && NumberOf(b, o') < NumberOf(b, o) ==> Bytes(o') in r
  }

  /** All names with numbers below i are taken; there are i - 1 of them. */
  ghost predicate TakenBelow(i: nat, seen: set<Entry>, r: seq<Entry>, b: string) {
    && i >= 1 && |seen| == i - 1 && seen <= Elems(r)
    && (forall x :: x in seen ==> x.Bytes? && |x.s| > 0 && Over(x.s, b) && NumberOf(b, x.s) < i)
    && forall o: string :: |o| > 0 && Over(o, b) && NumberOf(b, o) < i ==> Bytes(o) in r
  }

  lemma TakenStep(i: nat, seen: set<Entry>, r: seq<Entry>, b: string, o: string)
    requires Letters(b) && TakenBelow(i, seen, r, b) && |o| > 0 && Over(o, b) && NumberOf(b, o) == i && Bytes(o) in r
    ensures TakenBelow(i + 1, seen + {Bytes(o)}, r, b)
  {
    hide NumberOf, Over, Letters;
    forall o': string | |o'| > 0 && Over(o', b) && NumberOf(b, o') < i + 1 ensures Bytes(o') in r {
      NumbersDiffer(b, o, o');
    }
  }

  lemma NoneBelowOne(r: seq<Entry>, b: string)
    ensures TakenBelow(1, {}, r, b)
  {
  }

  /** _gen_i: the first name that is not taken. */
  method GenI(r: seq<Entry>, b: string) returns (o: string)
    requires Letters(b)
    ensures Fresh(o, r, b)
  {
    hide NumberOf, Over, Letters, TakenBelow;
    var i := 1;
    ghost var seen: set<Entry> := {};
    NoneBelowOne(r, b);
    o := GenNext(i, b);
    while Bytes(o) in r
      invariant i >= 1 && TakenBelow(i, seen, r, b) && |o| > 0 && Over(o, b) && NumberOf(b, o) == i
      decreases |Elems(r)| + 1 - i
    {
      TakenStep(i, seen, r, b, o);
      seen := seen + {Bytes(o)};
      TakenBounded(i + 1, seen, r, b);
      i := i + 1;
      o := GenNext(i, b);
    }
    assert Fresh(o, r, b) by { TakenFacts(i, seen, r, b); }
  }

  lemma TakenBounded(i: nat, seen: set<Entry>, r: seq<Entry>, b: string)
    requires TakenBelow(i, seen, r, b)
    ensures i - 1 <= |Elems(r)|
  {
    SubsetSmaller(seen, Elems(r));
  }

  lemma TakenFacts(i: nat, seen: set<Entry>, r: seq<Entry>, b: string)
    requires TakenBelow(i, seen, r, b)
    ensures forall o: string :: |o| > 0 && Over(o, b) && NumberOf(b, o) < i ==> Bytes(o) in r
  {
  }

  // ---- class names

  function Named(names: seq<string>): seq<Entry> {
    seq(|names|, k requires 0 <= k < |names| => Bytes(names[k]))
  }

  /** The k-th name has number k + 1. */
  ghost predicate InOrder(names: seq<string>, b: string) {
    forall k :: 0 <= k < |names| ==> |names[k]| > 0 && Over(names[k], b) && NumberOf(b, names[k]) == k + 1
  }

  /** Reserved words and the names given so far. */
  function Taken(reserved: seq<string>, names: seq<string>): seq<Entry> {
    seq(|reserved|, k requires 0 <= k < |reserved| => Text(reserved[k])) + Named(names)
  }

  /** A name is taken when it was given; reserved words never match. */
  lemma TakenIsGiven(reserved: seq<string>, names: seq<string>, o: string)
    ensures Bytes(o) in Taken(reserved, names) <==> o in names
  {
    var r := Taken(reserved, names);
    if o in names {
      var k :| 0 <= k < |names| && names[k] == o;
      assert r[|reserved| + k] == Bytes(o);
    }
  }

  lemma Given(names: seq<string>, b: string, o: string)
    requires Letters(b) && InOrder(names, b) && |o| > 0 && Over(o, b)
    ensures o in names <==> NumberOf(b, o) <= |names|
  {
    hide Over, Letters;
    NumberPositive(b, o);
    if NumberOf(b, o) <= |names| { NumbersDiffer(b, o, names[NumberOf(b, o) - 1]); }
  }

  lemma NextInOrder(names: seq<string>, reserved: seq<string>, b: string, o: string)
    requires Letters(b) && InOrder(names, b) && Fresh(o, Taken(reserved, names), b)
    ensures InOrder(names + [o], b)
  {
    hide NumberOf, Over, Letters, Taken;
    TakenIsGiven(reserved, names, o);
    Given(names, b, o);
    var x := Nth(b, |names| + 1);
    TakenIsGiven(reserved, names, x);
    Given(names, b, x);
  }

  lemma NumberPositive(b: string, o: string)
    requires |o| > 0 && Over(o, b)
    ensures NumberOf(b, o) >= 1
  {
  }

  /** The name with number v. */
  lemma Nth(b: string, v: nat) returns (o: string)
    requires v >= 1 && Letters(b)
    ensures |o| > 0 && Over(o, b) && NumberOf(b, o) == v
  {
    hide Pow, Name, Rank, Shorter;
    var n, k := 1, v;
    FirstPower(|b|);
    while k > Pow(|b|, n)
      invariant n >= 1 && k >= 1 && k + Shorter(|b|, n) == v
      decreases k
    {
      NextLength(|b|, n);
      k := k - Pow(|b|, n);
      n := n + 1;
    }
    o := Name(b, n, k - 1);
    RankOfName(b, n, k - 1);
  }

  /** Renaming classes one by one gives the k-th the k-th name, so that no two
      share one and no shorter name is left unused. */
  method NameClasses(n: nat, reserved: seq<string>, b: string) returns (names: seq<string>)
    requires Letters(b)
    ensures |names| == n && InOrder(names, b)
    ensures forall j, k :: 0 <= j < k < n ==> names[j] != names[k]
  {
    hide Fresh, NumberOf, Over, Letters, Taken;
    names := [];
    while |names| < n
      invariant |names| <= n && InOrder(names, b)
    {
      var o := GenI(Taken(reserved, names), b);
      NextInOrder(names, reserved, b, o);
      names := names + [o];
    }
  }
}

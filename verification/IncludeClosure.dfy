/** The transitive include loop of src/_build/create_kernel.py:247-256, which
    extends the lists it walks. */
module IncludeClosure {
  type File = string
  type Graph = map<File, seq<File>>

  function Elems(s: seq<File>): set<File> { set x | x in s }

  /** Every listed file has a list of its own. */
  ghost predicate Closed(g: Graph) {
    forall k, x :: k in g && x in g[k] ==> x in g
  }

  ghost predicate IsPath(g: Graph, p: seq<File>) {
    |p| >= 2 && forall i :: 0 <= i < |p| - 1 ==> p[i] in g && p[i + 1] in g[p[i]]
  }

  /** x is included by k in one or more steps. */
  ghost predicate Reaches(g: Graph, k: File, x: File) {
    exists p :: IsPath(g, p) && p[0] == k && p[|p| - 1] == x
  }

  lemma ReachesStep(g: Graph, k: File, x: File)
    requires k in g && x in g[k]
    ensures Reaches(g, k, x)
  {
    var p := [k, x];
    assert IsPath(g, p) && p[0] == k && p[|p| - 1] == x;
  }

  lemma ReachesOn(g: Graph, k: File, e: File, x: File)
    requires Reaches(g, k, e) && Reaches(g, e, x)
    ensures Reaches(g, k, x)
  {
    var p :| IsPath(g, p) && p[0] == k && p[|p| - 1] == e;
    var q :| IsPath(g, q) && q[0] == e && q[|q| - 1] == x;
    var r := p + q[1..];
    forall i | 0 <= i < |r| - 1 ensures r[i] in g && r[i + 1] in g[r[i]] {
      if i >= |p| - 1 { assert r[i] == q[i - (|p| - 1)] && r[i + 1] == q[i - (|p| - 1) + 1]; }
    }
    assert IsPath(g, r) && r[0] == k && r[|r| - 1] == x;
  }

  /** Every list holds the lists of the files on it. */
  ghost predicate Transitive(g: Graph) {
    forall k, e :: k in g && e in g[k] ==> e in g && Elems(g[e]) <= Elems(g[k])
  }

  lemma {:induction false} PathInside(g: Graph, h: Graph, p: seq<File>)
    requires IsPath(g, p) && Transitive(h) && g.Keys <= h.Keys
    requires forall k, x :: k in g && x in g[k] ==> x in h[k]
    ensures p[0] in h && p[|p| - 1] in h[p[0]]
    decreases |p|
  {
    assert p[0] in g && p[1] in g[p[0]];
    if |p| > 2 {
      var q := p[..|p| - 1];
      PathInside(g, h, q);
      var y, x := p[|p| - 2], p[|p| - 1];
      assert y == q[|q| - 1] && y in g && x in g[y];
      assert x in Elems(h[y]) && Elems(h[y]) <= Elems(h[p[0]]);
    }
  }

  /** A transitive graph with the edges of g holds all that g reaches. */
  lemma ReachedInside(g: Graph, h: Graph, k: File, x: File)
    requires Reaches(g, k, x) && Transitive(h) && g.Keys <= h.Keys
    requires forall k, x :: k in g && x in g[k] ==> x in h[k]
    ensures k in h && x in h[k]
  {
    var p :| IsPath(g, p) && p[0] == k && p[|p| - 1] == x;
    PathInside(g, h, p);
  }

  /** g' has the same files and longer lists, all of what they hold reached in
      g. */
  ghost predicate Grown(g: Graph, g': Graph) {
    && g'.Keys == g.Keys
    && (forall k :: k in g ==> g[k] <= g'[k])
    && (forall k, x :: k in g && x in g'[k] ==> Reaches(g, k, x))
  }

  lemma GrownSelf(g: Graph)
    ensures Grown(g, g)
  {
    forall k, x | k in g && x in g[k] ensures Reaches(g, k, x) { ReachesStep(g, k, x); }
  }

  lemma GrownPath(g: Graph, g': Graph, p: seq<File>)
    requires Grown(g, g') && IsPath(g', p)
    ensures Reaches(g, p[0], p[|p| - 1])
    decreases |p|
  {
    assert p[1] in g'[p[0]];
    if |p| > 2 {
      var q := p[1..];
      forall i | 0 <= i < |q| - 1 ensures q[i] in g' && q[i + 1] in g'[q[i]] {
        assert q[i] == p[i + 1] && q[i + 1] == p[i + 1 + 1];
      }
      GrownPath(g, g', q);
      ReachesOn(g, p[0], p[1], p[|p| - 1]);
    }
  }

  lemma GrownOn(g: Graph, g': Graph, g'': Graph)
    requires Grown(g, g') && Grown(g', g'')
    ensures Grown(g, g'')
  {
    forall k, x | k in g && x in g''[k] ensures Reaches(g, k, x) {
      var p :| IsPath(g', p) && p[0] == k && p[|p| - 1] == x;
      GrownPath(g, g', p);
    }
    forall k | k in g ensures g[k] <= g''[k] {
      assert g[k] <= g'[k] <= g''[k];
    }
  }

  /** Growth keeps the graph closed. */
  lemma {:induction false} LastInKeys(g: Graph, k: File, x: File)
    requires Closed(g) && Reaches(g, k, x)
    ensures x in g
  {
    var p :| IsPath(g, p) && p[0] == k && p[|p| - 1] == x;
    assert p[|p| - 2] in g && p[|p| - 2 + 1] in g[p[|p| - 2]];
  }

  lemma GrownClosed(g: Graph, g': Graph)
    requires Closed(g) && Grown(g, g')
    ensures Closed(g')
  {
    forall k, x | k in g' && x in g'[k] ensures x in g' { LastInKeys(g, k, x); }
  }

  /** The innermost loop: the files on the list of e that k's lacks are
      appended to k's. */
  method AddFrom(g: Graph, k: File, e: File) returns (g': Graph, u: bool)
    requires Closed(g) && k in g && e in g[k]
    ensures Grown(g, g') && (forall x :: x in g && x != k ==> g'[x] == g[x])
    ensures Elems(g'[k]) == Elems(g[k]) + Elems(g[e])
    ensures if u then Elems(g[k]) < Elems(g'[k]) else g' == g
  {
    g', u := g, false;
    GrownSelf(g);
    ReachesStep(g, k, e);
    var j := 0;
    while j < |g'[e]|
      invariant g'.Keys == g.Keys && Grown(g, g') && (forall x :: x in g && x != k ==> g'[x] == g[x])
      invariant e == k ==> g' == g
      invariant j <= |g[e]| && Elems(g'[k]) == Elems(g[k]) + Elems(g[e][..j])
      invariant if u then Elems(g[k]) < Elems(g'[k]) else g' == g
      decreases |g[e]| - j
    {
      var se := g'[e][j];
      assert g[e][..j + 1] == g[e][..j] + [se];
      if se !in g'[k] {
        assert se in g[e];
        ReachesStep(g, e, se);
        ReachesOn(g, k, e, se);
        u := true;
        AppendGrown(g, g', k, se);
        g' := g'[k := g'[k] + [se]];
      }
      j := j + 1;
    }
    assert g[e][..j] == g[e];
  }

  lemma AppendGrown(g: Graph, g': Graph, k: File, x: File)
    requires Grown(g, g') && k in g && Reaches(g, k, x)
    ensures Grown(g, g'[k := g'[k] + [x]]) && Elems(g'[k] + [x]) == Elems(g'[k]) + {x}
  {
  }

  /** The first i files on k's list have their lists within k's. */
  ghost predicate Covered(g: Graph, k: File, i: nat)
    requires k in g && i <= |g[k]|
  {
    forall e :: e in g[k][..i] ==> e in g && Elems(g[e]) <= Elems(g[k])
  }

  lemma CoveredStep(g: Graph, g': Graph, k: File, i: nat)
    requires k in g && i < |g[k]| && g'.Keys == g.Keys && g[k] <= g'[k] && g[k][i] in g
    requires Covered(g, k, i) && (forall x :: x in g && x != k ==> g'[x] == g[x])
    requires Elems(g'[k]) == Elems(g[k]) + Elems(g[g[k][i]])
    ensures Covered(g', k, i + 1)
  {
    assert g'[k][..i + 1] == g[k][..i] + [g[k][i]];
  }

  lemma GrownFacts(g: Graph, g': Graph, k: File)
    requires Closed(g) && Grown(g, g') && k in g
    ensures Closed(g') && g'.Keys == g.Keys && g[k] <= g'[k] && Elems(g'[k]) <= g.Keys
  {
    GrownClosed(g, g');
  }

  /** The walk of k's list to its moving end. */
  method WalkList(g: Graph, k: File) returns (g': Graph, u: bool)
    requires Closed(g) && k in g
    ensures Grown(g, g') && (forall x :: x in g && x != k ==> g'[x] == g[x])
    ensures g'.Keys == g.Keys && Covered(g', k, |g'[k]|)
    ensures if u then Elems(g[k]) < Elems(g'[k]) else g' == g
  {
    hide Reaches, Grown, Closed, Covered, Elems;
    g', u := g, false;
    GrownSelf(g);
    assert Covered(g, k, 0) by { CoveredNone(g, k); }
    var i := 0;
    while i < |g'[k]|
      invariant Grown(g, g') && Closed(g') && g'.Keys == g.Keys && (forall x :: x in g && x != k ==> g'[x] == g[x])
      invariant i <= |g'[k]| && Covered(g', k, i)
      invariant if u then Elems(g[k]) < Elems(g'[k]) else g' == g
      decreases g.Keys - Elems(g'[k]), |g'[k]| - i
    {
      var was, v := g', false;
      ListedInKeys(was, k, i);
      g', v := AddFrom(was, k, was[k][i]);
      GrownFacts(was, g', k);
      GrownOn(g, was, g');
      CoveredStep(was, g', k, i);
      u := u || v;
      i := i + 1;
    }
  }

  lemma CoveredNone(g: Graph, k: File)
    requires k in g
    ensures Covered(g, k, 0)
  {
  }

  lemma ListedInKeys(g: Graph, k: File, i: nat)
    requires Closed(g) && k in g && i < |g[k]|
    ensures g[k][i] in g && g[k][i] in g[k]
  {
  }

  /** The pairs (k, x) with x on k's list. */
  ghost function Pairs(g: Graph): set<(File, File)> {
    set k, x | k in g && x in Elems(g[k]) :: (k, x)
  }

  ghost function AllPairs(g: Graph): set<(File, File)> {
    set k, x | k in g && x in g :: (k, x)
  }

  lemma PairsGrow(g: Graph, g': Graph, k: File)
    requires Grown(g, g') && k in g && Elems(g[k]) < Elems(g'[k])
    ensures Pairs(g) < Pairs(g')
  {
    var x :| x in Elems(g'[k]) && x !in Elems(g[k]);
    assert (k, x) in Pairs(g') && (k, x) !in Pairs(g);
    PairsKept(g, g');
  }

  lemma PairsKept(g: Graph, g': Graph)
    requires Grown(g, g')
    ensures Pairs(g) <= Pairs(g')
  {
    forall p | p in Pairs(g) ensures p in Pairs(g') {
      assert g[p.0] <= g'[p.0];
      assert p.1 in g[p.0];
    }
  }

  lemma PairsBounded(g: Graph)
    requires Closed(g)
    ensures Pairs(g) <= AllPairs(g)
  {
  }

  /** One pass over all the lists: unless something was appended, the graph is
      transitive. */
  method Pass(g: Graph, keys: seq<File>) returns (g': Graph, u: bool)
    requires Closed(g) && Elems(keys) == g.Keys
    ensures Grown(g, g') && if u then Pairs(g) < Pairs(g') else g' == g && Transitive(g)
  {
    hide Reaches, Grown, Closed, Covered, Pairs;
    g', u := g, false;
    GrownSelf(g);
    var n := 0;
    while n < |keys|
      invariant n <= |keys| && Grown(g, g') && Closed(g') && g'.Keys == g.Keys
      invariant if u then Pairs(g) < Pairs(g') else g' == g && AllCovered(g, keys, n)
    {
      assert keys[n] in Elems(keys);
      var was, v := g', false;
      g', v := WalkList(was, keys[n]);
      GrownClosed(was, g');
      GrownOn(g, was, g');
      PairsKept(was, g');
      if v { PairsGrow(was, g', keys[n]); }
      u := u || v;
      n := n + 1;
    }
    if !u { TransitiveAtRest(g, keys); }
  }

  ghost predicate AllCovered(g: Graph, keys: seq<File>, n: nat)
    requires n <= |keys|
  {
    forall m :: 0 <= m < n ==> keys[m] in g && Covered(g, keys[m], |g[keys[m]]|)
  }

  lemma TransitiveAtRest(g: Graph, keys: seq<File>)
    requires Elems(keys) == g.Keys && AllCovered(g, keys, |keys|)
    ensures Transitive(g)
  {
    forall k, e | k in g && e in g[k] ensures e in g && Elems(g[e]) <= Elems(g[k]) {
      assert k in Elems(keys);
      var m :| 0 <= m < |keys| && keys[m] == k;
      assert g[k][..|g[k]|] == g[k];
    }
  }

  /** The loop ends, with on each file's list exactly the files it reaches in
      one or more steps. */
  method Close(g: Graph, keys: seq<File>) returns (g': Graph)
    requires Closed(g) && Elems(keys) == g.Keys
    ensures g'.Keys == g.Keys && Closed(g')
    ensures forall k, x :: k in g ==> (x in g'[k] <==> Reaches(g, k, x))
    ensures forall k :: k in g ==> g[k] <= g'[k]
  {
    hide Reaches, Pairs, AllPairs;
    g' := g;
    GrownSelf(g);
    while true
      invariant Grown(g, g') && Closed(g')
      decreases AllPairs(g) - Pairs(g')
    {
      var was, u := g', false;
      g', u := Pass(was, keys);
      GrownOn(g, was, g');
      GrownClosed(was, g');
      if !u { break; }
      PairsBounded(g');
      SameAllPairs(g, g');
    }
    forall k, x | k in g && Reaches(g, k, x) ensures x in g'[k] {
      EdgesKept(g, g');
      ReachedInside(g, g', k, x);
    }
  }

  lemma SameAllPairs(g: Graph, g': Graph)
    requires g.Keys == g'.Keys
    ensures AllPairs(g) == AllPairs(g')
  {
  }

  lemma EdgesKept(g: Graph, g': Graph)
    requires Grown(g, g')
    ensures forall k, x :: k in g && x in g[k] ==> x in g'[k]
  {
    forall k, x | k in g && x in g[k] ensures x in g'[k] { assert g[k] <= g'[k]; }
  }
}

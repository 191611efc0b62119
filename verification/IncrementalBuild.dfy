/** The incremental build of src/_build/create_kernel.py:62-74 and 257-395:
    which files are recompiled, what is recorded of them, and why every object
    is the one a clean build makes. The compiler and the hash are functions
    given from outside. */
module IncrementalBuild {
  import opened IncludeClosure

  /** File contents by path. */
  type Tree = map<File, string>

  /** What the build makes of a source file: a loader, a kernel and a libc
      object. */
  datatype Target = Efi | Kernel | Libc

  datatype Output = Output(f: File, t: Target)

  /** includes are the names in a file's include lines, uses the constants that
      the contents of an assembly file name, defines those that the contents of
      a header fix; walk is the order in which files are met. compile is the
      object of a successful turn, raw the one that is left when the compiler
      succeeds and stripping fails. */
  datatype Rules = Rules(includes: (File, string) -> seq<string>, uses: string -> seq<string>,
                         defines: string -> set<string>, walk: set<File> -> seq<File>, hash: string -> string,
                         compile: (Output, Tree) -> string, raw: (Output, Tree) -> string)

  /** Different contents have different hashes. */
  ghost predicate Injective(rules: Rules) {
    forall c, d :: rules.hash(c) == rules.hash(d) ==> c == d
  }

  /** The part of a path behind its last slash. */
  function BaseName(f: string): string {
    if f == "" then ""
    else if f[|f| - 1] == '/' then ""
    else BaseName(f[..|f| - 1]) + [f[|f| - 1]]
  }

  /** The part up to its last slash. */
  function Directory(f: string): string {
    if f == "" || f[|f| - 1] == '/' then f else Directory(f[..|f| - 1])
  }

  predicate HasSuffix(f: File, x: string) { |f| >= |x| && f[|f| - |x|..] == x }

  predicate IsHeader(f: File) { HasSuffix(f, ".h") }

  predicate IsC(f: File) { HasSuffix(f, ".c") }

  predicate IsAssembly(f: File) { HasSuffix(f, ".asm") }

  /** The objects made of a file, in order: a libc file is compiled twice. */
  function Targets(f: File): seq<Target> {
    if "src/uefi" <= Directory(f) then if IsC(f) || IsAssembly(f) then [Efi] else []
    else if "src/kernel" <= Directory(f) then if IsC(f) || IsAssembly(f) then [Kernel] else []
    else if "rsrc" <= Directory(f) then if IsC(f) then [Kernel] else []
    else if "src/libc" <= Directory(f) then if IsC(f) || IsAssembly(f) then [Kernel, Libc] else []
    else []
  }

  predicate Compiled(f: File) { Targets(f) != [] }

  lemma HeadersAreNotCompiled(f: File)
    requires Compiled(f)
    ensures !IsHeader(f)
  {
    hide HasSuffix;
    if IsC(f) { SuffixEnds(f, ".c"); }
    if IsAssembly(f) { SuffixEnds(f, ".asm"); }
    if IsHeader(f) { SuffixEnds(f, ".h"); }
  }

  lemma SuffixEnds(f: File, x: string)
    requires HasSuffix(f, x) && x != ""
    ensures f != "" && f[|f| - 1] == x[|x| - 1]
  {
  }

  /** A path below a root keeps the root in its directory part. */
  lemma {:induction false} DirectoryBelow(root: string, p: string)
    ensures root + "/" <= Directory(root + "/" + p)
  {
    var f := root + "/" + p;
    if p != "" && f[|f| - 1] != '/' {
      assert f[..|f| - 1] == root + "/" + p[..|p| - 1];
      DirectoryBelow(root, p[..|p| - 1]);
    }
  }

  /** Two different roots of which neither begins the other. */
  lemma RootsApart(d: string, r: string, r': string, k: nat)
    requires k < |r| && k < |r'| && r[k] != r'[k] && r <= d
    ensures !(r' <= d)
  {
    assert d[k] == r[k];
  }

  /** What is made of a source file below each root: every C and every assembly
      file of the loader and the kernel has its object, a resource only when it
      is C, and a file of the library has one in the kernel and one beside it. */
  lemma ObjectsBelow(p: string, x: string)
    requires x == ".c" || x == ".asm"
    ensures Targets("src/uefi/" + p + x) == [Efi]
    ensures Targets("src/kernel/" + p + x) == [Kernel]
    ensures Targets("rsrc/" + p + x) == if x == ".c" then [Kernel] else []
    ensures Targets("src/libc/" + p + x) == [Kernel, Libc]
  {
    hide Directory, IsC, IsAssembly;
    assert "src/uefi" + "/" == "src/uefi/" && "src/kernel" + "/" == "src/kernel/";
    assert "rsrc" + "/" == "rsrc/" && "src/libc" + "/" == "src/libc/";
    BelowRoot("src/uefi", p, x);
    BelowRoot("src/kernel", p, x);
    BelowRoot("rsrc", p, x);
    BelowRoot("src/libc", p, x);
    var k, r, l := Directory("src/kernel/" + p + x), Directory("rsrc/" + p + x), Directory("src/libc/" + p + x);
    RootsApart(k, "src/kernel", "src/uefi", 4);
    RootsApart(r, "rsrc", "src/uefi", 0);
    RootsApart(r, "rsrc", "src/kernel", 0);
    RootsApart(l, "src/libc", "src/uefi", 4);
    RootsApart(l, "src/libc", "src/kernel", 4);
    RootsApart(l, "src/libc", "rsrc", 0);
  }

  lemma BelowRoot(root: string, p: string, x: string)
    requires x == ".c" || x == ".asm"
    ensures root <= Directory(root + "/" + p + x)
    ensures (IsC(root + "/" + p + x) <==> x == ".c") && (IsAssembly(root + "/" + p + x) <==> x == ".asm")
  {
    hide Directory;
    var f := root + "/" + p + x;
    assert f == root + "/" + (p + x);
    DirectoryBelow(root, p + x);
    assert f[|f| - |x|..] == x;
    if IsC(f) { SuffixEnds(f, ".c"); }
    if IsAssembly(f) { SuffixEnds(f, ".asm"); }
  }

  /** Nothing else is compiled: no header, and no file outside the four roots. */
  lemma CompiledOnlyBelow(f: File)
    requires Compiled(f)
    ensures !IsHeader(f) && (HasSuffix(f, ".c") || HasSuffix(f, ".asm"))
    ensures "src/uefi" <= f || "src/kernel" <= f || "rsrc" <= f || "src/libc" <= f
  {
    HeadersAreNotCompiled(f);
    DirectoryIsPrefix(f);
  }

  lemma {:induction false} DirectoryIsPrefix(f: string)
    ensures Directory(f) <= f
  {
    if f != "" && f[|f| - 1] != '/' { DirectoryIsPrefix(f[..|f| - 1]); }
  }

  // ---- what a file includes

  /** x is a header that fixes constant k. */
  predicate Defines(rules: Rules, tree: Tree, x: File, k: string) {
    x in tree && IsHeader(x) && k in rules.defines(tree[x])
  }

  predicate Uses(rules: Rules, tree: Tree, f: File, k: string) {
    f in tree && IsAssembly(f) && k in rules.uses(tree[f])
  }

  /** The first header met that fixes the constant. */
  function Definer(rules: Rules, tree: Tree, order: seq<File>, k: string): seq<File> {
    if order == [] then []
    else if Defines(rules, tree, order[0], k) then [order[0]]
    else Definer(rules, tree, order[1..], k)
  }

  /** f names x: some name in f has x's base name. */
  ghost predicate Names(rules: Rules, tree: Tree, f: File, x: File) {
    f in tree && x in tree && exists n :: n in rules.includes(f, tree[f]) && BaseName(n) == BaseName(x)
  }

  /** f takes a constant from x. */
  ghost predicate Takes(rules: Rules, tree: Tree, f: File, x: File) {
    exists k :: Uses(rules, tree, f, k) && x in Definer(rules, tree, rules.walk(tree.Keys), k)
  }

  /** f depends on x directly. */
  ghost predicate Includes(rules: Rules, tree: Tree, f: File, x: File) {
    Names(rules, tree, f, x) || Takes(rules, tree, f, x)
  }

  lemma {:induction false} DefinerIs(rules: Rules, tree: Tree, order: seq<File>, k: string)
    ensures forall x :: x in Definer(rules, tree, order, k) ==> Defines(rules, tree, x, k) && x in order
    ensures Definer(rules, tree, order, k) == [] ==> forall x :: x in order ==> !Defines(rules, tree, x, k)
    ensures |Definer(rules, tree, order, k)| <= 1
  {
    if order != [] { DefinerIs(rules, tree, order[1..], k); }
  }

  /** No constant is fixed by two headers. */
  ghost predicate Single(rules: Rules, tree: Tree) {
    forall x, y, k :: Defines(rules, tree, x, k) && Defines(rules, tree, y, k) ==> x == y
  }

  /** Every constant used is fixed somewhere; the script ends early otherwise. */
  ghost predicate Provided(rules: Rules, tree: Tree) {
    forall f, k :: Uses(rules, tree, f, k) ==> Definer(rules, tree, rules.walk(tree.Keys), k) != []
  }

  /** The walk meets every file. */
  ghost predicate Covers(rules: Rules) {
    forall s: set<File> :: Elems(rules.walk(s)) == s
  }

  ghost predicate Regular(rules: Rules) { Injective(rules) && Covers(rules) }

  /** Every constant is fixed by one header at most, and by one if it is used. */
  ghost predicate Settled(rules: Rules, tree: Tree) { Single(rules, tree) && Provided(rules, tree) }

  /** The order of the walk. */
  ghost predicate Walked(rules: Rules, tree: Tree, order: seq<File>) {
    order == rules.walk(tree.Keys) && Elems(order) == tree.Keys
  }

  function Matches(n: string, order: seq<File>): seq<File> {
    if order == [] then []
    else (if BaseName(order[0]) == BaseName(n) then [order[0]] else []) + Matches(n, order[1..])
  }

  /** The files named, name by name in the order of the tree walk. */
  function Resolve(names: seq<string>, order: seq<File>): seq<File> {
    if names == [] then [] else Matches(names[0], order) + Resolve(names[1..], order)
  }

  lemma {:induction false} MatchesAre(n: string, order: seq<File>, x: File)
    ensures x in Matches(n, order) <==> x in order && BaseName(x) == BaseName(n)
  {
    if order != [] {
      MatchesAre(n, order[1..], x);
      assert x in order <==> x == order[0] || x in order[1..];
    }
  }

  lemma {:induction false} ResolveAre(names: seq<string>, order: seq<File>, x: File)
    ensures x in Resolve(names, order) <==> x in order && exists n :: n in names && BaseName(n) == BaseName(x)
  {
    if names != [] {
      MatchesAre(names[0], order, x);
      ResolveAre(names[1..], order, x);
      assert forall n :: n in names <==> n == names[0] || n in names[1..];
    }
  }

  /** The headers of the constants, constant by constant. */
  function Definers(rules: Rules, tree: Tree, order: seq<File>, ks: seq<string>): seq<File> {
    if ks == [] then [] else Definer(rules, tree, order, ks[0]) + Definers(rules, tree, order, ks[1..])
  }

  lemma {:induction false} DefinersAre(rules: Rules, tree: Tree, order: seq<File>, ks: seq<string>, x: File)
    ensures x in Definers(rules, tree, order, ks) <==> exists k :: k in ks && x in Definer(rules, tree, order, k)
  {
    if ks != [] {
      hide Definer;
      DefinersAre(rules, tree, order, ks[1..], x);
      assert forall k :: k in ks <==> k == ks[0] || k in ks[1..];
      if k :| k in ks && x in Definer(rules, tree, order, k) {
        assert k == ks[0] || k in ks[1..];
      }
    }
  }

  function Direct(rules: Rules, tree: Tree, order: seq<File>): Graph {
    map f | f in tree ::
      Resolve(rules.includes(f, tree[f]), order)
      + if IsAssembly(f) then Definers(rules, tree, order, rules.uses(tree[f])) else []
  }

  lemma DirectIs(rules: Rules, tree: Tree, order: seq<File>)
    requires Walked(rules, tree, order)
    ensures forall f, x :: f in tree ==> (x in Direct(rules, tree, order)[f] <==> Includes(rules, tree, f, x))
    ensures Closed(Direct(rules, tree, order))
  {
    hide BaseName, IsAssembly, IsHeader;
    forall f, x | f in tree
      ensures x in Direct(rules, tree, order)[f] <==> Includes(rules, tree, f, x)
      ensures Includes(rules, tree, f, x) ==> x in tree
    {
      ResolveAre(rules.includes(f, tree[f]), order, x);
      DefinersAre(rules, tree, order, rules.uses(tree[f]), x);
      assert x in order <==> x in Elems(order);
      if Takes(rules, tree, f, x) { TakenThere(rules, tree, f, x); }
    }
  }

  lemma TakenThere(rules: Rules, tree: Tree, f: File, x: File)
    requires Takes(rules, tree, f, x)
    ensures f in tree && x in tree && IsHeader(x)
  {
    var k :| Uses(rules, tree, f, k) && x in Definer(rules, tree, rules.walk(tree.Keys), k);
    DefinerIs(rules, tree, rules.walk(tree.Keys), k);
  }

  ghost predicate Chain(rules: Rules, tree: Tree, p: seq<File>) {
    |p| >= 2 && forall i :: 0 <= i < |p| - 1 ==> Includes(rules, tree, p[i], p[i + 1])
  }

  /** x is among the files f includes, directly or not. */
  ghost predicate Pulls(rules: Rules, tree: Tree, f: File, x: File) {
    exists p :: Chain(rules, tree, p) && p[0] == f && p[|p| - 1] == x
  }

  lemma PullsIsReaches(rules: Rules, tree: Tree, order: seq<File>, f: File, x: File)
    requires Walked(rules, tree, order)
    ensures Pulls(rules, tree, f, x) <==> Reaches(Direct(rules, tree, order), f, x)
  {
    hide Includes;
    DirectIs(rules, tree, order);
    var g := Direct(rules, tree, order);
    forall p ensures Chain(rules, tree, p) <==> IsPath(g, p) {
      ChainIsPath(rules, tree, g, p);
    }
  }

  lemma ChainIsPath(rules: Rules, tree: Tree, g: Graph, p: seq<File>)
    requires g.Keys == tree.Keys
    requires forall f, x :: f in tree ==> (x in g[f] <==> Includes(rules, tree, f, x))
    ensures Chain(rules, tree, p) <==> IsPath(g, p)
  {
    if Chain(rules, tree, p) {
      forall i | 0 <= i < |p| - 1 ensures p[i] in g && p[i + 1] in g[p[i]] {
        assert Includes(rules, tree, p[i], p[i + 1]);
      }
    }
  }

  ghost function Closure(rules: Rules, tree: Tree, f: File): set<File> {
    set x | x in tree && Pulls(rules, tree, f, x)
  }

  /** What the compiler sees of f: the file and its closure. */
  ghost function Input(rules: Rules, tree: Tree, f: File): Tree {
    map x | x in tree && (x == f || x in Closure(rules, tree, f)) :: tree[x]
  }

  /** The object a successful turn makes: a function of the output and the
      contents of the file and its closure. */
  ghost function CompileOf(rules: Rules, tree: Tree, o: Output): string {
    rules.compile(o, Input(rules, tree, o.f))
  }

  // ---- when an object may stay

  function Hashes(rules: Rules, tree: Tree): map<File, string> {
    map f | f in tree :: rules.hash(tree[f])
  }

  predicate Unchanged(record: map<File, string>, n: map<File, string>, k: File) {
    k in record && k in n && record[k] == n[k]
  }

  /** The recorded hashes of a file and of all it includes are the current
      ones. */
  ghost predicate Recorded(rules: Rules, record: map<File, string>, tree: Tree, f: File) {
    && f in tree && Unchanged(record, Hashes(rules, tree), f)
    && forall k :: k in Closure(rules, tree, f) ==> Unchanged(record, Hashes(rules, tree), k)
  }

  /** They are, and the object exists. */
  ghost predicate UpToDate(rules: Rules, record: map<File, string>, objs: map<Output, string>, tree: Tree, o: Output) {
    o in objs && Recorded(rules, record, tree, o.f)
  }

  datatype Reason = FirstCompilation | SourceChange | ObjectMissing | DependencyChange(k: File) | Current

  /** The decision for one object. */
  method CheckNew(record: map<File, string>, n: map<File, string>, inc: Graph, f: File,
                  hasObject: bool) returns (r: Reason)
    requires f in n && f in inc && forall k :: k in inc[f] ==> k in n
    ensures r.FirstCompilation? <==> f !in record
    ensures r.SourceChange? <==> f in record && record[f] != n[f]
    ensures r.ObjectMissing? <==> Unchanged(record, n, f) && !hasObject
    ensures r.DependencyChange? ==> r.k in inc[f] && !Unchanged(record, n, r.k)
    ensures r.Current? <==> Unchanged(record, n, f) && hasObject && forall k :: k in inc[f] ==> Unchanged(record, n, k)
  {
    if f !in record { return FirstCompilation; }
    if record[f] != n[f] { return SourceChange; }
    if !hasObject { return ObjectMissing; }
    for i := 0 to |inc[f]|
      invariant forall k :: k in inc[f][..i] ==> Unchanged(record, n, k)
    {
      var k := inc[f][i];
      if k !in record || record[k] != n[k] { return DependencyChange(k); }
      assert inc[f][..i + 1] == inc[f][..i] + [k];
    }
    assert inc[f][..|inc[f]|] == inc[f];
    r := Current;
  }

  // ---- an unchanged closure

  lemma {:induction false} ChainPrefix(rules: Rules, tree: Tree, p: seq<File>, i: nat)
    requires Chain(rules, tree, p) && 0 < i < |p|
    ensures Pulls(rules, tree, p[0], p[i]) && p[i] in tree
  {
    hide Includes;
    var q := p[..i + 1];
    forall j | 0 <= j < |q| - 1 ensures Includes(rules, tree, q[j], q[j + 1]) {
      assert q[j] == p[j] && q[j + 1] == p[j + 1];
    }
    assert Chain(rules, tree, q) && q[0] == p[0] && q[|q| - 1] == p[i];
    ChainInTree(rules, tree, p, i);
  }

  lemma ChainInTree(rules: Rules, tree: Tree, p: seq<File>, i: nat)
    requires Chain(rules, tree, p) && 0 < i < |p|
    ensures p[i] in tree
  {
    hide Names, Takes;
    assert Includes(rules, tree, p[i - 1], p[i - 1 + 1]);
    IncludedThere(rules, tree, p[i - 1], p[i]);
  }

  lemma IncludedThere(rules: Rules, tree: Tree, f: File, x: File)
    requires Includes(rules, tree, f, x)
    ensures f in tree && x in tree
  {
    if Takes(rules, tree, f, x) { TakenThere(rules, tree, f, x); }
  }

  /** Files were only added or edited, and neither f nor what it includes now
      was; the constants were fixed once, and still are. */
  ghost predicate Kept(rules: Rules, was: Tree, now: Tree, f: File) {
    && Covers(rules) && Single(rules, was) && Provided(rules, now)
    && was.Keys <= now.Keys && f in was && was[f] == now[f]
    && forall k :: k in Closure(rules, now, f) ==> k in was && was[k] == now[k]
  }

  /** An unchanged file takes a constant now from an unchanged header: it did so
      before. */
  lemma TookBefore(rules: Rules, was: Tree, now: Tree, f: File, x: File)
    requires Covers(rules) && Single(rules, was) && f in was && x in was && f in now && x in now
    requires was[f] == now[f] && was[x] == now[x] && Takes(rules, now, f, x)
    ensures Takes(rules, was, f, x)
  {
    hide IsHeader, IsAssembly;
    var k :| Uses(rules, now, f, k) && x in Definer(rules, now, rules.walk(now.Keys), k);
    DefinerIs(rules, now, rules.walk(now.Keys), k);
    assert Uses(rules, was, f, k) && Defines(rules, was, x, k);
    OnlyDefiner(rules, was, x, k);
  }

  /** A header that alone fixes a constant is the one it is taken from. */
  lemma OnlyDefiner(rules: Rules, tree: Tree, x: File, k: string)
    requires Covers(rules) && Single(rules, tree) && Defines(rules, tree, x, k)
    ensures Definer(rules, tree, rules.walk(tree.Keys), k) == [x]
  {
    hide IsHeader;
    var order := rules.walk(tree.Keys);
    var d := Definer(rules, tree, order, k);
    DefinerIs(rules, tree, order, k);
    assert x in Elems(order);
    if d != [] { assert Defines(rules, tree, d[0], k); }
  }

  /** It took one before: it still takes it from there, if all it takes now is
      from unchanged headers. */
  lemma TakesStill(rules: Rules, was: Tree, now: Tree, f: File, x: File)
    requires Covers(rules) && Single(rules, was) && Provided(rules, now)
    requires f in was && f in now && was[f] == now[f] && Takes(rules, was, f, x)
    requires forall y :: Takes(rules, now, f, y) ==> y in was && y in now && was[y] == now[y]
    ensures Takes(rules, now, f, x)
  {
    hide IsHeader, IsAssembly;
    var k :| Uses(rules, was, f, k) && x in Definer(rules, was, rules.walk(was.Keys), k);
    DefinerIs(rules, was, rules.walk(was.Keys), k);
    var d := Definer(rules, now, rules.walk(now.Keys), k);
    DefinerIs(rules, now, rules.walk(now.Keys), k);
    assert Uses(rules, now, f, k);
    var y := d[0];
    assert y in d && Defines(rules, now, y, k);
    assert Takes(rules, now, f, y);
    assert Defines(rules, was, y, k);
  }

  /** A chain from f in the new tree is one in the old tree. */
  lemma ChainWasThere(rules: Rules, was: Tree, now: Tree, p: seq<File>)
    requires Chain(rules, now, p) && Kept(rules, was, now, p[0])
    ensures Chain(rules, was, p)
  {
    hide Pulls, Takes, Single, Provided, Covers;
    forall i | 0 <= i < |p| - 1 ensures Includes(rules, was, p[i], p[i + 1]) {
      assert Includes(rules, now, p[i], p[i + 1]);
      if i > 0 { ChainPrefix(rules, now, p, i); }
      ChainPrefix(rules, now, p, i + 1);
      if Takes(rules, now, p[i], p[i + 1]) { TookBefore(rules, was, now, p[i], p[i + 1]); }
    }
  }

  /** A chain from f in the old tree is one in the new tree. */
  lemma {:induction false} ChainIsThere(rules: Rules, was: Tree, now: Tree, p: seq<File>)
    requires Chain(rules, was, p) && Kept(rules, was, now, p[0])
    ensures Chain(rules, now, p)
    decreases |p|
  {
    hide Pulls, Includes, Single, Provided, Covers;
    var l := |p| - 2;
    if |p| > 2 {
      var q := p[..|p| - 1];
      forall j | 0 <= j < |q| - 1 ensures Includes(rules, was, q[j], q[j + 1]) {
        assert q[j] == p[j] && q[j + 1] == p[j + 1] && Includes(rules, was, p[j], p[j + 1]);
      }
      ChainIsThere(rules, was, now, q);
      ChainPrefix(rules, now, q, l);
      forall j | 0 <= j < l ensures Includes(rules, now, p[j], p[j + 1]) {
        assert Includes(rules, now, q[j], q[j + 1]);
      }
    }
    assert Includes(rules, was, p[l], p[l + 1]);
    LastLink(rules, was, now, p);
  }

  /** The last link of a chain whose others are there. */
  lemma LastLink(rules: Rules, was: Tree, now: Tree, p: seq<File>)
    requires |p| >= 2 && Kept(rules, was, now, p[0]) && Includes(rules, was, p[|p| - 2], p[|p| - 1])
    requires forall j :: 0 <= j < |p| - 2 ==> Includes(rules, now, p[j], p[j + 1])
    requires |p| > 2 ==> Pulls(rules, now, p[0], p[|p| - 2]) && p[|p| - 2] in now
    ensures Includes(rules, now, p[|p| - 2], p[|p| - 1])
  {
    hide Pulls, Takes, Single, Provided, Covers;
    var f, x := p[|p| - 2], p[|p| - 1];
    IncludedThere(rules, was, f, x);
    if Takes(rules, was, f, x) {
      forall y | Takes(rules, now, f, y) ensures y in was && y in now && was[y] == now[y] {
        TakenThere(rules, now, f, y);
        ChainLonger(rules, now, p[..|p| - 1], y);
      }
      TakesStill(rules, was, now, f, x);
    }
  }

  lemma ChainLonger(rules: Rules, tree: Tree, p: seq<File>, y: File)
    requires p != [] && (forall j :: 0 <= j < |p| - 1 ==> Includes(rules, tree, p[j], p[j + 1]))
    requires Includes(rules, tree, p[|p| - 1], y)
    ensures Pulls(rules, tree, p[0], y)
  {
    hide Includes;
    var q := p + [y];
    forall j | 0 <= j < |q| - 1 ensures Includes(rules, tree, q[j], q[j + 1]) {
      if j < |p| - 1 { assert q[j] == p[j] && q[j + 1] == p[j + 1]; }
    }
    assert Chain(rules, tree, q) && q[|q| - 1] == y;
  }

  lemma PullsKept(rules: Rules, was: Tree, now: Tree, f: File, x: File)
    requires Kept(rules, was, now, f)
    ensures Pulls(rules, was, f, x) <==> Pulls(rules, now, f, x)
  {
    hide Includes, Kept;
    if Pulls(rules, now, f, x) {
      var p :| Chain(rules, now, p) && p[0] == f && p[|p| - 1] == x;
      ChainWasThere(rules, was, now, p);
    }
    if Pulls(rules, was, f, x) {
      var p :| Chain(rules, was, p) && p[0] == f && p[|p| - 1] == x;
      ChainIsThere(rules, was, now, p);
    }
  }

  /** An unchanged file with an unchanged new closure had the same closure, so
      it compiles to the same objects. */
  lemma SameObject(rules: Rules, was: Tree, now: Tree, f: File)
    requires Kept(rules, was, now, f)
    ensures Closure(rules, was, f) == Closure(rules, now, f) && Input(rules, was, f) == Input(rules, now, f)
    ensures forall t :: CompileOf(rules, was, Output(f, t)) == CompileOf(rules, now, Output(f, t))
  {
    hide Pulls;
    forall x ensures x in Closure(rules, was, f) <==> x in Closure(rules, now, f) {
      PullsKept(rules, was, now, f, x);
    }
    assert Input(rules, was, f) == Input(rules, now, f);
  }

  // ---- builds

  /** The sources, the hash file and the objects. */
  datatype State = State(tree: Tree, record: map<File, string>, objs: map<Output, string>)

  /** Files may be added or edited, objects may go missing, and builds either
      succeed or stop. A build that stops has gone through the files in done,
      and stops at one whose outputs in left already have new objects. */
  datatype Op = Edit(f: File, c: string) | Lose(o: Output) | Build | Stop(done: set<File>, at: File, left: map<Output, string>)

  function Outputs(files: set<File>): set<Output> {
    set f, t | f in files && t in Targets(f) :: Output(f, t)
  }

  /** The object after its turn. */
  ghost function ObjectAfter(rules: Rules, s: State, o: Output): string {
    if UpToDate(rules, s.record, s.objs, s.tree, o) then s.objs[o] else CompileOf(rules, s.tree, o)
  }

  ghost function ObjectsAfter(rules: Rules, s: State, done: set<File>): map<Output, string> {
    s.objs + map o | o in Outputs(s.tree.Keys * done) :: ObjectAfter(rules, s, o)
  }

  /** What is recorded when a build stops: the new hashes of all recorded
      headers and of the files gone through, the old ones otherwise. */
  function RecordAtStop(rules: Rules, s: State, done: set<File>): map<File, string> {
    map k | k in s.tree && (k in s.record || (k in done && Compiled(k))) ::
      if IsHeader(k) || (k in done && Compiled(k)) then rules.hash(s.tree[k]) else s.record[k]
  }

  ghost function Step(rules: Rules, s: State, op: Op): State {
    match op
    case Edit(f, c) => s.(tree := s.tree[f := c])
    case Lose(o) => s.(objs := s.objs - {o})
    case Build => State(s.tree, Hashes(rules, s.tree), ObjectsAfter(rules, s, s.tree.Keys))
    case Stop(done, at, left) => State(s.tree, RecordAtStop(rules, s, done), ObjectsAfter(rules, s, done) + left)
  }

  /** Every object is the one compiled from the current sources. */
  ghost predicate Clean(rules: Rules, s: State) {
    forall o :: o in Outputs(s.tree.Keys) ==> o in s.objs && s.objs[o] == CompileOf(rules, s.tree, o)
  }

  /** Whatever the sources become without a file being removed, an object that
      the record calls up to date is the right one. */
  ghost predicate Trusted(rules: Rules, s: State) {
    forall tree: Tree, o: Output ::
      s.tree.Keys <= tree.Keys && Provided(rules, tree) && o.t in Targets(o.f)
      && UpToDate(rules, s.record, s.objs, tree, o)
      ==> s.objs[o] == CompileOf(rules, tree, o)
  }

  /** A record and objects made from the same sources can be trusted. */
  lemma CleanIsTrusted(rules: Rules, s: State)
    requires Regular(rules) && Single(rules, s.tree)
    requires Clean(rules, s) && s.record == Hashes(rules, s.tree)
    ensures Trusted(rules, s)
  {
    hide Closure, CompileOf, Single, Provided, Covers;
    forall tree: Tree, o: Output
      | s.tree.Keys <= tree.Keys && Provided(rules, tree) && o.t in Targets(o.f) && UpToDate(rules, s.record, s.objs, tree, o)
      ensures s.objs[o] == CompileOf(rules, tree, o)
    {
      SameHashes(rules, s.tree, tree, o.f);
      forall k | k in Closure(rules, tree, o.f) ensures k in s.tree && s.tree[k] == tree[k] {
        SameHashes(rules, s.tree, tree, k);
      }
      SameObject(rules, s.tree, tree, o.f);
      assert o in Outputs(s.tree.Keys) && o == Output(o.f, o.t);
    }
  }

  lemma SameHashes(rules: Rules, was: Tree, now: Tree, k: File)
    requires Injective(rules) && Unchanged(Hashes(rules, was), Hashes(rules, now), k)
    ensures k in was && k in now && was[k] == now[k]
  {
  }

  /** A build from a trusted state is a clean build. */
  lemma BuildIsClean(rules: Rules, s: State)
    requires Trusted(rules, s) && Provided(rules, s.tree)
    ensures Clean(rules, Step(rules, s, Build))
  {
    hide CompileOf, UpToDate, Provided;
    assert s.tree.Keys * s.tree.Keys == s.tree.Keys;
    forall o | o in Outputs(s.tree.Keys) ensures ObjectAfter(rules, s, o) == CompileOf(rules, s.tree, o) {
      assert o.t in Targets(o.f);
    }
  }

  lemma StepTrusted(rules: Rules, s: State, op: Op)
    requires Regular(rules) && Trusted(rules, s) && !op.Stop?
    requires op.Build? ==> Settled(rules, s.tree)
    ensures Trusted(rules, Step(rules, s, op))
  {
    hide CompileOf, Recorded, Single, Provided, Covers;
    match op
    case Edit(f, c) =>
    case Lose(g) =>
      var s' := Step(rules, s, op);
      forall tree: Tree, o: Output
        | s'.tree.Keys <= tree.Keys && Provided(rules, tree) && o.t in Targets(o.f)
          && UpToDate(rules, s'.record, s'.objs, tree, o)
        ensures s'.objs[o] == CompileOf(rules, tree, o)
      {
        assert UpToDate(rules, s.record, s.objs, tree, o);
      }
    case Build =>
      BuildIsClean(rules, s);
      CleanIsTrusted(rules, Step(rules, s, Build));
    case Stop(_, _, _) => assert false;
  }

  /** After a build an object is compiled again exactly when the file or one it
      now includes is new or has other contents. */
  lemma RecompiledIff(rules: Rules, s: State, tree: Tree, o: Output)
    requires Injective(rules) && o in Outputs(s.tree.Keys) && s.tree.Keys <= tree.Keys
    ensures var t := Step(rules, s, Build);
            UpToDate(rules, t.record, t.objs, tree, o) <==>
            forall x :: x in Input(rules, tree, o.f) ==> x in s.tree && s.tree[x] == tree[x]
  {
    hide Closure, Targets, Step, Unchanged, Injective, Hashes, Outputs;
    BuiltThere(rules, s, o);
    forall x | x in tree
      ensures Unchanged(Step(rules, s, Build).record, Hashes(rules, tree), x) <==> x in s.tree && s.tree[x] == tree[x]
    {
      BuiltRecord(rules, s, tree, x);
    }
    ClosureThere(rules, tree, o.f);
  }

  lemma BuiltThere(rules: Rules, s: State, o: Output)
    requires o in Outputs(s.tree.Keys)
    ensures o in Step(rules, s, Build).objs && o.f in s.tree
  {
    assert s.tree.Keys * s.tree.Keys == s.tree.Keys;
  }

  lemma BuiltRecord(rules: Rules, s: State, tree: Tree, x: File)
    requires Injective(rules) && x in tree
    ensures Unchanged(Step(rules, s, Build).record, Hashes(rules, tree), x) <==> x in s.tree && s.tree[x] == tree[x]
  {
    if Unchanged(Hashes(rules, s.tree), Hashes(rules, tree), x) { SameHashes(rules, s.tree, tree, x); }
  }

  lemma ClosureThere(rules: Rules, tree: Tree, f: File)
    ensures Closure(rules, tree, f) <= tree.Keys
  {
  }

  /** So a second build compiles nothing. */
  lemma SecondBuildIsIdle(rules: Rules, s: State)
    requires Injective(rules)
    ensures var t := Step(rules, s, Build);
            Step(rules, t, Build) == t && forall o :: o in Outputs(s.tree.Keys) ==> UpToDate(rules, t.record, t.objs, s.tree, o)
  {
    hide UpToDate, Injective, Step, Input, Outputs;
    var t := Step(rules, s, Build);
    forall o | o in Outputs(s.tree.Keys)
      ensures o in t.objs && UpToDate(rules, t.record, t.objs, s.tree, o)
    {
      InputThere(rules, s.tree, o.f);
      RecompiledIff(rules, s, s.tree, o);
      BuiltThere(rules, s, o);
    }
    BuiltState(rules, s);
    IdleKeeps(rules, t);
  }

  lemma InputThere(rules: Rules, tree: Tree, f: File)
    ensures Input(rules, tree, f).Keys <= tree.Keys
  {
  }

  lemma BuiltState(rules: Rules, s: State)
    ensures Step(rules, s, Build).tree == s.tree && Step(rules, s, Build).record == Hashes(rules, s.tree)
  {
  }

  lemma IdleKeeps(rules: Rules, t: State)
    requires t.record == Hashes(rules, t.tree)
    requires forall o :: o in Outputs(t.tree.Keys) ==> o in t.objs && UpToDate(rules, t.record, t.objs, t.tree, o)
    ensures Step(rules, t, Build) == t
  {
    hide UpToDate, CompileOf, Hashes, Outputs;
    assert t.tree.Keys * t.tree.Keys == t.tree.Keys;
    assert ObjectsAfter(rules, t, t.tree.Keys) == t.objs;
  }

  // ---- builds that stop

  /** Only headers are ever included. */
  ghost predicate HeadersOnly(rules: Rules) {
    forall f, c, n, x {:trigger n in rules.includes(f, c), BaseName(x)} ::
      n in rules.includes(f, c) && BaseName(n) == BaseName(x) ==> IsHeader(x)
  }

  /** No recorded header has changed. */
  ghost predicate NoHeaderChanged(rules: Rules, s: State) {
    forall k :: k in s.record && k in s.tree && IsHeader(k) ==> s.record[k] == rules.hash(s.tree[k])
  }

  /** The build stops at a compiled file it has not gone through, and the new
      objects are among that file's. */
  ghost predicate StopsAt(s: State, done: set<File>, at: File, left: map<Output, string>) {
    at in s.tree && Compiled(at) && at !in done && left.Keys <= Outputs({at})
  }

  function WithContents(tree: Tree, f: File, c: string): Tree { tree[f := c] }

  /** The contents a file is recorded with, if any contents are. */
  ghost predicate RecordedAs(rules: Rules, s: State, f: File, c: string) {
    f in s.record && s.record[f] == rules.hash(c)
  }

  /** With the contents it is recorded with, if the headers they include are
      recorded as they are, the file at which the build stopped compiles to the
      objects left. */
  ghost predicate LeftRight(rules: Rules, s: State, at: File, left: map<Output, string>) {
    forall c, o :: o in left && RecordedAs(rules, s, at, c) && LeftTaken(rules, s, at, c)
      ==> left[o] == CompileOf(rules, WithContents(s.tree, at, c), o)
  }

  /** The next build takes the file as up to date once it has contents c. */
  ghost predicate LeftTaken(rules: Rules, s: State, at: File, c: string) {
    Provided(rules, WithContents(s.tree, at, c)) && Recorded(rules, s.record, WithContents(s.tree, at, c), at)
  }

  /** There is at most one such contents, so that it is enough to look at one. */
  lemma LeftRightAt(rules: Rules, s: State, at: File, left: map<Output, string>, c: string)
    requires Injective(rules) && RecordedAs(rules, s, at, c)
    ensures LeftRight(rules, s, at, left) <==>
            (LeftTaken(rules, s, at, c) ==>
               forall o :: o in left ==> left[o] == CompileOf(rules, WithContents(s.tree, at, c), o))
  {
    hide CompileOf, LeftTaken;
  }

  /** Nothing was replaced, or the file was never recorded, or it has not
      changed and each new object is the compiled one. */
  ghost predicate Harmless(rules: Rules, s: State, at: File, left: map<Output, string>) {
    || left == map[] || at !in s.record
    || (at in s.tree && s.record[at] == rules.hash(s.tree[at])
        && forall o :: o in left ==> left[o] == CompileOf(rules, s.tree, o))
  }

  lemma HarmlessIsRight(rules: Rules, s: State, at: File, left: map<Output, string>)
    requires Injective(rules) && Harmless(rules, s, at, left)
    ensures LeftRight(rules, s, at, left)
  {
    hide CompileOf, LeftTaken;
    forall c, o | o in left && RecordedAs(rules, s, at, c) && LeftTaken(rules, s, at, c)
      ensures left[o] == CompileOf(rules, WithContents(s.tree, at, c), o)
    {
      assert WithContents(s.tree, at, c) == s.tree;
    }
  }

  lemma ClosureOfHeaders(rules: Rules, tree: Tree, f: File, k: File)
    requires HeadersOnly(rules) && k in Closure(rules, tree, f)
    ensures IsHeader(k) && k in tree
  {
    var p :| Chain(rules, tree, p) && p[0] == f && p[|p| - 1] == k;
    assert Includes(rules, tree, p[|p| - 2], p[|p| - 2 + 1]);
    if Takes(rules, tree, p[|p| - 2], k) { TakenThere(rules, tree, p[|p| - 2], k); }
  }

  /** What is up to date after a stop: its headers are those of the stop, and
      a file not gone through was up to date in the old record. */
  lemma RecordedAfterStop(rules: Rules, s: State, done: set<File>, tree: Tree, f: File)
    requires HeadersOnly(rules) && NoHeaderChanged(rules, s) && Compiled(f) && s.tree.Keys <= tree.Keys
    requires Recorded(rules, RecordAtStop(rules, s, done), tree, f)
    ensures f in s.tree
    ensures forall k :: k in Closure(rules, tree, f) ==>
              IsHeader(k) && k in s.tree && k in tree && rules.hash(s.tree[k]) == rules.hash(tree[k])
    ensures f in done ==> rules.hash(s.tree[f]) == rules.hash(tree[f])
    ensures f !in done ==> Recorded(rules, s.record, tree, f)
  {
    hide Closure, Includes, HeadersOnly;
    var r := RecordAtStop(rules, s, done);
    HeadersAreNotCompiled(f);
    forall k | k in Closure(rules, tree, f)
      ensures IsHeader(k) && k in s.tree && k in tree && rules.hash(s.tree[k]) == rules.hash(tree[k])
      ensures Unchanged(s.record, Hashes(rules, tree), k)
    {
      ClosureOfHeaders(rules, tree, f, k);
      assert Unchanged(r, Hashes(rules, tree), k);
      if k in done && Compiled(k) { HeadersAreNotCompiled(k); }
    }
  }

  /** A file whose headers and contents are those of the stop was and is
      compiled to the same objects. */
  lemma KeptSinceStop(rules: Rules, was: Tree, tree: Tree, f: File)
    requires Regular(rules) && Single(rules, was) && Provided(rules, tree)
    requires was.Keys <= tree.Keys && f in was && was[f] == tree[f]
    requires forall k :: k in Closure(rules, tree, f) ==> k in was && k in tree && rules.hash(was[k]) == rules.hash(tree[k])
    ensures Kept(rules, was, tree, f)
  {
    hide Closure, Single, Provided, Covers;
  }

  /** Which constants are provided does not depend on the order of the walk. */
  lemma ProvidedIff(rules: Rules, tree: Tree, k: string)
    requires Covers(rules)
    ensures Definer(rules, tree, rules.walk(tree.Keys), k) != [] <==> exists x :: Defines(rules, tree, x, k)
  {
    hide IsHeader;
    var order := rules.walk(tree.Keys);
    var d := Definer(rules, tree, order, k);
    DefinerIs(rules, tree, order, k);
    if d != [] { assert Defines(rules, tree, d[0], k); }
    forall x | Defines(rules, tree, x, k) ensures x in order { assert x in Elems(order); }
  }

  /** Contents of a file that is no header leave the constants as they are. */
  lemma SingleWith(rules: Rules, tree: Tree, f: File, c: string)
    requires Single(rules, tree) && f in tree && !IsHeader(f)
    ensures Single(rules, WithContents(tree, f, c))
  {
    hide IsHeader;
    var t := WithContents(tree, f, c);
    forall x, y, k | Defines(rules, t, x, k) && Defines(rules, t, y, k) ensures x == y {
      assert Defines(rules, tree, x, k) && Defines(rules, tree, y, k);
    }
  }

  /** Nor does what is provided change, as long as all that the new contents use
      comes from headers that are as they were. */
  lemma ProvidedWith(rules: Rules, s: Tree, tree: Tree, f: File)
    requires Covers(rules) && Provided(rules, s) && Provided(rules, tree) && f in s && f in tree && !IsHeader(f)
    requires forall k :: k in Closure(rules, tree, f) ==> k in s && k in tree && s[k] == tree[k]
    ensures Provided(rules, WithContents(s, f, tree[f]))
  {
    hide IsHeader, IsAssembly, Pulls;
    var t := WithContents(s, f, tree[f]);
    forall g, k | Uses(rules, t, g, k) ensures Definer(rules, t, rules.walk(t.Keys), k) != [] {
      ProvidedIff(rules, t, k);
      if g == f {
        assert Uses(rules, tree, f, k);
        var d := Definer(rules, tree, rules.walk(tree.Keys), k);
        DefinerIs(rules, tree, rules.walk(tree.Keys), k);
        assert d[0] in d && Takes(rules, tree, f, d[0]);
        TakenThere(rules, tree, f, d[0]);
        ChainLonger(rules, tree, [f], d[0]);
        assert Defines(rules, tree, d[0], k) && Defines(rules, t, d[0], k);
      } else {
        assert Uses(rules, s, g, k);
        ProvidedIff(rules, s, k);
        var x :| Defines(rules, s, x, k);
        assert Defines(rules, t, x, k);
      }
    }
  }

  /** The objects of a file the build had gone through, or not yet come to. */
  lemma OtherObject(rules: Rules, s: State, done: set<File>, at: File, left: map<Output, string>, tree: Tree, o: Output)
    requires Regular(rules) && Trusted(rules, s) && HeadersOnly(rules) && NoHeaderChanged(rules, s)
    requires StopsAt(s, done, at, left) && o !in left && o.t in Targets(o.f) && s.tree.Keys <= tree.Keys
    requires Settled(rules, s.tree) && Provided(rules, tree)
    requires var s' := Step(rules, s, Stop(done, at, left)); UpToDate(rules, s'.record, s'.objs, tree, o)
    ensures Step(rules, s, Stop(done, at, left)).objs[o] == CompileOf(rules, tree, o)
  {
    hide Closure, CompileOf, Recorded, HeadersOnly, NoHeaderChanged, RecordAtStop, Single, Provided, Covers, Targets;
    RecordedAfterStop(rules, s, done, tree, o.f);
    if o.f in done {
      KeptSinceStop(rules, s.tree, tree, o.f);
      SameObject(rules, s.tree, tree, o.f);
      assert o == Output(o.f, o.t) && o in Outputs(s.tree.Keys * done);
      assert ObjectAfter(rules, s, o) == CompileOf(rules, s.tree, o);
    } else {
      assert UpToDate(rules, s.record, s.objs, tree, o);
    }
  }

  /** The tree of the stop with the contents the file has in a later tree. */
  lemma LeftObject(rules: Rules, s: State, done: set<File>, at: File, left: map<Output, string>, tree: Tree, o: Output)
    requires Regular(rules) && HeadersOnly(rules) && NoHeaderChanged(rules, s) && StopsAt(s, done, at, left)
    requires Settled(rules, s.tree) && Provided(rules, tree)
    requires o in left && s.tree.Keys <= tree.Keys && Recorded(rules, RecordAtStop(rules, s, done), tree, at)
    ensures at in tree && RecordedAs(rules, s, at, tree[at]) && LeftTaken(rules, s, at, tree[at])
    ensures CompileOf(rules, WithContents(s.tree, at, tree[at]), o) == CompileOf(rules, tree, o)
  {
    hide Closure, CompileOf, HeadersOnly, NoHeaderChanged, RecordAtStop, Single, Provided, Covers;
    RecordedAfterStop(rules, s, done, tree, at);
    var was := WithContents(s.tree, at, tree[at]);
    HeadersAreNotCompiled(at);
    SameContents(rules, s.tree, tree, at);
    ProvidedWith(rules, s.tree, tree, at);
    SingleWith(rules, s.tree, at, tree[at]);
    KeptSinceStop(rules, was, tree, at);
    SameObject(rules, was, tree, at);
    assert o == Output(at, o.t);
  }

  lemma SameContents(rules: Rules, was: Tree, tree: Tree, f: File)
    requires Injective(rules)
    requires forall k :: k in Closure(rules, tree, f) ==> k in was && k in tree && rules.hash(was[k]) == rules.hash(tree[k])
    ensures forall k :: k in Closure(rules, tree, f) ==> k in was && k in tree && was[k] == tree[k]
  {
    hide Closure;
  }

  /** The old record and the record at the stop agree on what the file at which
      it stopped depends on. */
  lemma RecordedAtStop(rules: Rules, s: State, done: set<File>, at: File, c: string)
    requires HeadersOnly(rules) && NoHeaderChanged(rules, s)
    requires at in s.tree && Compiled(at) && at !in done && Recorded(rules, s.record, WithContents(s.tree, at, c), at)
    ensures Recorded(rules, RecordAtStop(rules, s, done), WithContents(s.tree, at, c), at)
  {
    hide Closure, HeadersOnly;
    var t := WithContents(s.tree, at, c);
    HeadersAreNotCompiled(at);
    forall k | k in Closure(rules, t, at) ensures Unchanged(RecordAtStop(rules, s, done), Hashes(rules, t), k) {
      ClosureOfHeaders(rules, t, at, k);
      assert Unchanged(s.record, Hashes(rules, t), k);
    }
  }

  /** A build that stops keeps the trust exactly when the objects it leaves at
      the file it stopped at are right for any contents under which that file
      would be taken as up to date. */
  lemma StopTrustedIff(rules: Rules, s: State, done: set<File>, at: File, left: map<Output, string>)
    requires Regular(rules) && Trusted(rules, s) && HeadersOnly(rules) && NoHeaderChanged(rules, s)
    requires StopsAt(s, done, at, left) && Settled(rules, s.tree)
    ensures Trusted(rules, Step(rules, s, Stop(done, at, left))) <==> LeftRight(rules, s, at, left)
  {
    hide Closure, CompileOf, Recorded, HeadersOnly, NoHeaderChanged, RecordAtStop, ObjectsAfter, Single, Provided, Covers,
      Injective, Targets;
    var s' := Step(rules, s, Stop(done, at, left));
    if LeftRight(rules, s, at, left) {
      forall tree: Tree, o: Output
        | s'.tree.Keys <= tree.Keys && Provided(rules, tree) && o.t in Targets(o.f)
          && UpToDate(rules, s'.record, s'.objs, tree, o)
        ensures s'.objs[o] == CompileOf(rules, tree, o)
      {
        if o in left {
          LeftObject(rules, s, done, at, left, tree, o);
        } else {
          OtherObject(rules, s, done, at, left, tree, o);
        }
      }
    }
    if Trusted(rules, s') {
      forall c, o | o in left && RecordedAs(rules, s, at, c) && LeftTaken(rules, s, at, c)
        ensures left[o] == CompileOf(rules, WithContents(s.tree, at, c), o)
      {
        RecordedAtStop(rules, s, done, at, c);
        assert UpToDate(rules, s'.record, s'.objs, WithContents(s.tree, at, c), o);
      }
    }
  }

  // ---- runs

  ghost predicate Allowed(rules: Rules, s: State, op: Op) {
    && (op.Build? || op.Stop? ==> Settled(rules, s.tree))
    && (op.Stop? ==>
      HeadersOnly(rules) && NoHeaderChanged(rules, s) && StopsAt(s, op.done, op.at, op.left)
      && LeftRight(rules, s, op.at, op.left))
  }

  ghost predicate AllowedRun(rules: Rules, s: State, ops: seq<Op>)
    decreases |ops|
  {
    ops != [] ==> Allowed(rules, s, ops[0]) && AllowedRun(rules, Step(rules, s, ops[0]), ops[1..])
  }

  ghost function Run(rules: Rules, s: State, ops: seq<Op>): State
    decreases |ops|
  {
    if ops == [] then s else Run(rules, Step(rules, s, ops[0]), ops[1..])
  }

  lemma {:induction false} RunTrusted(rules: Rules, s: State, ops: seq<Op>)
    requires Regular(rules) && Trusted(rules, s) && AllowedRun(rules, s, ops)
    ensures Trusted(rules, Run(rules, s, ops))
    decreases |ops|
  {
    hide Trusted, Step, HeadersOnly, NoHeaderChanged, LeftRight, StopsAt, Settled;
    if ops != [] {
      if ops[0].Stop? {
        StopTrustedIff(rules, s, ops[0].done, ops[0].at, ops[0].left);
      } else {
        StepTrusted(rules, s, ops[0]);
      }
      RunTrusted(rules, Step(rules, s, ops[0]), ops[1..]);
    }
  }

  /** After any run that starts with nothing recorded, a build leaves the
      objects a build from scratch makes. */
  lemma IncrementalIsClean(rules: Rules, start: State, ops: seq<Op>)
    requires Regular(rules) && start.record == map[] && AllowedRun(rules, start, ops)
    requires Provided(rules, Run(rules, start, ops).tree)
    ensures var s := Run(rules, start, ops);
            var scratch := Step(rules, State(s.tree, map[], map[]), Build);
            forall o :: o in Outputs(s.tree.Keys) ==>
                          o in Step(rules, s, Build).objs && o in scratch.objs
                          && Step(rules, s, Build).objs[o] == scratch.objs[o] == CompileOf(rules, s.tree, o)
  {
    hide UpToDate, CompileOf, ObjectsAfter, Provided;
    NothingRecorded(rules);
    RunTrusted(rules, start, ops);
    var s := Run(rules, start, ops);
    BuildIsClean(rules, s);
    BuildIsClean(rules, State(s.tree, map[], map[]));
    assert Step(rules, s, Build).tree == s.tree;
  }

  lemma NothingRecorded(rules: Rules)
    ensures forall objs, tree: Tree, o :: !UpToDate(rules, map[], objs, tree, o)
  {
  }
}

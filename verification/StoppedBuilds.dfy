/** What a stopped build of src/_build/create_kernel.py:257-395 does to the next
    one, and runs that end with a stale object. */
module StoppedBuilds {
  import opened IncludeClosure
  import opened IncrementalBuild
  import opened BuildLoop

  lemma ClosureInTree(rules: Rules, tree: Tree, f: File)
    ensures forall k :: k in Closure(rules, tree, f) ==> k in tree
  {
  }

  /** A file whose turn did not come, itself unchanged and including recorded
      headers only, is skipped by the next build whether or not those headers
      changed: its old objects stay, and are right exactly when they are the
      ones the new headers give. */
  lemma StopSkips(rules: Rules, s: State, done: set<File>, at: File, o: Output)
    requires o.f in s.tree && o.t in Targets(o.f) && o.f !in done && o in s.objs
    requires Unchanged(s.record, Hashes(rules, s.tree), o.f)
    requires forall k :: k in Closure(rules, s.tree, o.f) ==> IsHeader(k) && k in s.record
    ensures var after := Step(rules, Step(rules, s, Stop(done, at, map[])), Build);
            o in after.objs && after.objs[o] == s.objs[o]
            && (after.objs[o] == CompileOf(rules, after.tree, o) <==> s.objs[o] == CompileOf(rules, s.tree, o))
  {
    hide Closure, CompileOf, Targets;
    var s' := Step(rules, s, Stop(done, at, map[]));
    assert Compiled(o.f);
    HeadersAreNotCompiled(o.f);
    ClosureInTree(rules, s.tree, o.f);
    assert s'.objs[o] == s.objs[o];
    assert Recorded(rules, s'.record, s'.tree, o.f);
    assert o == Output(o.f, o.t) && o in Outputs(s.tree.Keys * s.tree.Keys);
  }

  /** When the file at which a build stopped gets contents it is recorded with,
      the next build keeps what was left of it: right exactly when those
      contents compile to it. */
  lemma LeftStays(rules: Rules, s: State, done: set<File>, at: File, left: map<Output, string>, c: string, o: Output)
    requires StopsAt(s, done, at, left) && o in left
    requires Recorded(rules, RecordAtStop(rules, s, done), WithContents(s.tree, at, c), at)
    ensures var after := Step(rules, Step(rules, Step(rules, s, Stop(done, at, left)), Edit(at, c)), Build);
            && o in Outputs(after.tree.Keys) && o in after.objs && after.objs[o] == left[o]
            && after.tree == WithContents(s.tree, at, c)
            && (after.objs[o] == CompileOf(rules, after.tree, o) <==> left[o] == CompileOf(rules, after.tree, o))
  {
    hide Recorded, CompileOf, Targets, RecordAtStop;
    var t := WithContents(s.tree, at, c);
    assert o == Output(at, o.t) && o in Outputs(t.Keys * t.Keys);
  }

  // ---- runs that end with a stale object

  /** The files in some order. */
  ghost function Listed(files: set<File>): (l: seq<File>)
    ensures Elems(l) == files
  {
    if files == {} then []
    else
      var f :| f in files;
      var rest := Listed(files - {f});
      assert Elems([f] + rest) == {f} + Elems(rest) by { assert forall x :: x in [f] + rest <==> x == f || x in rest; }
      [f] + rest
  }

  /** Hashes are the contents. A resource file that includes a header compiles
      to the header, any other file to itself; raw objects are marked. */
  ghost function TinyRules(): Rules {
    Rules((f, c) => if f == A then ["h.h"] else [], c => [], c => {}, files => Listed(files), c => c,
          (o: Output, m: Tree) => if H in m then m[H] else if o.f in m then m[o.f] else "",
          (o, m) => "raw")
  }

  const A: File := "rsrc/a.c"
  const B: File := "rsrc/b.c"
  const H: File := "src/h.h"
  const X: File := "src/libc/x.c"

  lemma TinyRegular()
    ensures Regular(TinyRules())
  {
  }

  /** No constants are used or fixed. */
  lemma TinySettled(tree: Tree)
    ensures Settled(TinyRules(), tree) && forall f, x :: !Takes(TinyRules(), tree, f, x)
  {
    hide IsHeader, IsAssembly, Definer;
  }

  lemma {:induction false} NoSlash(f: string)
    requires '/' !in f
    ensures BaseName(f) == f
  {
    if f != "" {
      NoSlash(f[..|f| - 1]);
    }
  }

  lemma {:induction false} AfterSlash(d: string, f: string)
    requires '/' !in f
    ensures BaseName(d + "/" + f) == f && Directory(d + "/" + f) == d + "/"
  {
    var s := d + "/" + f;
    if f == "" {
      assert s[|s| - 1] == '/';
    } else {
      assert s[..|s| - 1] == d + "/" + f[..|f| - 1];
      AfterSlash(d, f[..|f| - 1]);
    }
  }

  /** Two resource files and the header. */
  function TinyTree(h: string): Tree { map[A := "a", B := "b", H := h] }

  lemma TinyNames()
    ensures BaseName(A) == "a.c" && BaseName(B) == "b.c" && BaseName(H) == BaseName("h.h") == "h.h"
    ensures A != B && A != H && B != H && "a.c" != "h.h" && "b.c" != "h.h"
    ensures Targets(A) == [Kernel] && IsHeader(H)
  {
    assert A == "rsrc" + "/" + "a.c" && B == "rsrc" + "/" + "b.c";
    AfterSlash("rsrc", "a.c");
    AfterSlash("rsrc", "b.c");
    assert H == "src" + "/" + "h.h";
    AfterSlash("src", "h.h");
    NoSlash("h.h");
    NotPrefix("src/uefi", "rsrc/", 0);
    NotPrefix("src/kernel", "rsrc/", 0);
  }

  lemma TinyClosure(h: string)
    ensures Closure(TinyRules(), TinyTree(h), A) == {H}
    ensures CompileOf(TinyRules(), TinyTree(h), Output(A, Kernel)) == h
  {
    hide BaseName, Targets, IsHeader;
    TinyNames();
    var rules, tree := TinyRules(), TinyTree(h);
    TinySettled(tree);
    assert "h.h" in rules.includes(A, tree[A]);
    assert Names(rules, tree, A, H) && Includes(rules, tree, A, H);
    var p := [A, H];
    assert Chain(rules, tree, p) && p[0] == A && p[|p| - 1] == H;
    forall x | Pulls(rules, tree, A, x) && x in tree ensures x == H {
      var q :| Chain(rules, tree, q) && q[0] == A && q[|q| - 1] == x;
      assert Includes(rules, tree, q[|q| - 2], q[|q| - 2 + 1]);
    }
  }

  lemma TinyFiles(h: string)
    ensures A in TinyTree(h) && H in TinyTree(h) && TinyTree(h)[A] == "a"
    ensures forall g :: TinyTree(h)[H := g] == TinyTree(g)
  {
    hide Targets, BaseName, IsHeader;
    TinyNames();
  }

  /** A first build is clean, and records the sources. */
  lemma FirstBuild(rules: Rules, tree: Tree)
    requires Provided(rules, tree)
    ensures var s := Step(rules, State(tree, map[], map[]), Build);
            Clean(rules, s) && s.tree == tree && s.record == Hashes(rules, tree)
  {
    hide CompileOf, UpToDate, ObjectsAfter;
    NothingRecorded(rules);
    BuildIsClean(rules, State(tree, map[], map[]));
  }

  /** The header is edited, b.c fails to compile before a.c has its turn, b.c is
      mended: the next build succeeds and leaves a.c's old object. */
  lemma StopMisleads()
    ensures var rules := TinyRules();
            var s0 := Step(rules, State(TinyTree("1"), map[], map[]), Build);
            var s1 := Step(rules, Step(rules, s0, Edit(H, "2")), Stop({}, B, map[]));
            var s2 := Step(rules, s1, Build);
            var o := Output(A, Kernel);
            Clean(rules, s0) && !Clean(rules, s2) && o in s2.objs && s2.objs[o] == "1"
  {
    hide CompileOf, Closure, UpToDate, TinyTree, ObjectsAfter, RecordAtStop, IsHeader, Targets, TinyRules;
    var rules, o := TinyRules(), Output(A, Kernel);
    TinyNames();
    TinySettled(TinyTree("1"));
    FirstBuild(rules, TinyTree("1"));
    TinyFiles("1");
    TinyFiles("2");
    TinyClosure("1");
    TinyClosure("2");
    var s0 := Step(rules, State(TinyTree("1"), map[], map[]), Build);
    assert o in Outputs(s0.tree.Keys);
    var s := Step(rules, s0, Edit(H, "2"));
    assert s.tree == TinyTree("2") && s.objs[o] == "1";
    StopSkips(rules, s, {}, B, o);
    assert o in Outputs(TinyTree("2").Keys);
  }

  // ---- a stop between the two objects of a libc file

  function LibcTree(c: string): Tree { map[X := c] }

  lemma LibcTargets()
    ensures Targets(X) == [Kernel, Libc] && IsC(X) && X != A && X != H && !IsHeader(X)
  {
    assert X == "src/libc" + "/" + "x.c";
    AfterSlash("src/libc", "x.c");
    NotPrefix("src/uefi", "src/libc/", 4);
    NotPrefix("src/kernel", "src/libc/", 4);
    NotPrefix("rsrc", "src/libc/", 0);
    assert "src/libc" <= "src/libc/" && X[|X| - 2..] == ".c";
  }

  lemma NotPrefix(p: string, f: string, i: nat)
    requires i < |p| && i < |f| && p[i] != f[i]
    ensures !(p <= f)
  {
  }

  lemma FirstLink(rules: Rules, tree: Tree, p: seq<File>)
    requires Chain(rules, tree, p)
    ensures Includes(rules, tree, p[0], p[0 + 1])
  {
  }

  lemma LibcClosure(c: string)
    ensures Closure(TinyRules(), LibcTree(c), X) == {}
    ensures forall t :: CompileOf(TinyRules(), LibcTree(c), Output(X, t)) == c
  {
    hide BaseName, Targets, IsC, IsHeader;
    LibcTargets();
    var rules, tree := TinyRules(), LibcTree(c);
    forall x ensures x !in Closure(rules, tree, X) {
      if x in tree && Pulls(rules, tree, X, x) {
        var q :| Chain(rules, tree, q) && q[0] == X && q[|q| - 1] == x;
        FirstLink(rules, tree, q);
      }
    }
  }

  lemma LibcRecorded(record: map<File, string>, c: string)
    requires X in record && record[X] == c
    ensures Recorded(TinyRules(), record, LibcTree(c), X)
  {
    hide Closure;
    LibcClosure(c);
  }

  /** A first build, and an edit of the file. */
  ghost function LibcEdited(): State {
    Step(TinyRules(), Step(TinyRules(), State(LibcTree("1"), map[], map[]), Build), Edit(X, "2"))
  }

  function LibcFails(o: Output): Result { if o.t.Libc? then CompileFails else Fine }

  lemma LibcEditedIs()
    ensures LibcEdited().tree == LibcTree("2") && LibcEdited().record == map[X := "1"]
    ensures forall t :: !UpToDate(TinyRules(), LibcEdited().record, LibcEdited().objs, LibcTree("2"), Output(X, t))
  {
    hide CompileOf, Closure, ObjectsAfter;
    FirstBuild(TinyRules(), LibcTree("1"));
    assert Hashes(TinyRules(), LibcTree("1")) == map[X := "1"];
  }

  /** The kernel object is replaced and the libc object is not. */
  lemma LibcLeft()
    ensures |Targets(X)| == 2 && LeftAt(TinyRules(), LibcEdited(), X, 1, false) == map[Output(X, Kernel) := "2"]
    ensures Failed(TinyRules(), LibcEdited(), X, 1, LibcFails) && !RawLeft(X, 1, LibcFails)
  {
    hide UpToDate, CompileOf, LibcEdited, LibcTree;
    LibcEditedIs();
    LibcTargets();
    LibcClosure("2");
    assert First(X, 1) == {Output(X, Kernel)} by { assert Output(X, Targets(X)[0]) == Output(X, Kernel); }
  }

  lemma LibcHeaders()
    ensures HeadersOnly(TinyRules()) && NoHeaderChanged(TinyRules(), LibcEdited())
    ensures RecordAtStop(TinyRules(), LibcEdited(), {}) == map[X := "1"]
  {
    hide LibcEdited, Targets;
    LibcEditedIs();
    LibcTargets();
    TinyHeaders();
  }

  lemma TinyHeaders()
    ensures HeadersOnly(TinyRules())
  {
    hide BaseName;
    NoSlash("h.h");
    forall x: File | BaseName(x) == "h.h" ensures IsHeader(x) { BaseIsSuffix(x); }
  }

  /** A path ends with its base name. */
  lemma {:induction false} BaseIsSuffix(f: string)
    ensures |BaseName(f)| <= |f| && f[|f| - |BaseName(f)|..] == BaseName(f)
  {
    if f != "" && f[|f| - 1] != '/' {
      BaseIsSuffix(f[..|f| - 1]);
    }
  }

  /** The libc file is edited so that it compiles for the kernel and not for
      itself, and the edit is taken back: the kernel object stays that of the
      edit. The stop is one the build loop makes. */
  lemma StopHalfway()
    ensures |Targets(X)| == 2 && Failed(TinyRules(), LibcEdited(), X, 1, LibcFails)
    ensures var rules, k, s1 := TinyRules(), Output(X, Kernel), LibcEdited();
            var stop := StopOf(rules, s1, Halt({}, X, 1), LibcFails);
            var s2 := Step(rules, Step(rules, Step(rules, s1, stop), Edit(X, "1")), Build);
            && Regular(rules) && Settled(rules, s1.tree) && HeadersOnly(rules) && NoHeaderChanged(rules, s1)
            && StopsAt(s1, {}, X, stop.left) && !LeftRight(rules, s1, X, stop.left)
            && s2.tree == LibcTree("1") && !Clean(rules, s2) && k in s2.objs && s2.objs[k] == "2"
  {
    hide CompileOf, Closure, Recorded, ObjectsAfter, RecordAtStop, Targets, HeadersOnly, NoHeaderChanged, LeftAt, IsC,
      IsHeader, TinyRules, LibcEdited, Failed, RawLeft, Single, Provided;
    var rules, k, s1 := TinyRules(), Output(X, Kernel), LibcEdited();
    TinyRegular();
    LibcTargets();
    LibcEditedIs();
    LibcLeft();
    LibcHeaders();
    LibcClosure("1");
    LibcRecorded(map[X := "1"], "1");
    var left := map[k := "2"];
    assert k in Outputs({X});
    assert WithContents(s1.tree, X, "1") == LibcTree("1");
    TinySettled(s1.tree);
    TinySettled(LibcTree("1"));
    LeftStays(rules, s1, {}, X, left, "1", k);
    assert RecordedAs(rules, s1, X, "1") && LeftTaken(rules, s1, X, "1") by { TinyHash("1"); LibcRecorded(s1.record, "1"); }
    assert CompileOf(rules, WithContents(s1.tree, X, "1"), k) == "1" != left[k];
  }

  lemma TinyHash(c: string)
    ensures TinyRules().hash(c) == c
  {
  }

  // ---- a stop after stripping failed

  /** A first build, and the loss of the kernel object. */
  ghost function LibcLost(): State {
    Step(TinyRules(), Step(TinyRules(), State(LibcTree("1"), map[], map[]), Build), Lose(Output(X, Kernel)))
  }

  function NeverStrips(o: Output): Result { StripFails }

  lemma LibcLostIs()
    ensures LibcLost().tree == LibcTree("1") && LibcLost().record == map[X := "1"] && Output(X, Kernel) !in LibcLost().objs
    ensures RecordAtStop(TinyRules(), LibcLost(), {}) == map[X := "1"]
  {
    hide CompileOf, Closure, ObjectsAfter, Targets;
    FirstBuild(TinyRules(), LibcTree("1"));
    LibcTargets();
    assert Hashes(TinyRules(), LibcTree("1")) == map[X := "1"];
  }

  lemma LostLeft()
    ensures |Targets(X)| == 2 && LeftAt(TinyRules(), LibcLost(), X, 0, true) == map[Output(X, Kernel) := "raw"]
    ensures Failed(TinyRules(), LibcLost(), X, 0, NeverStrips) && RawLeft(X, 0, NeverStrips)
  {
    hide Recorded, CompileOf, Input, LibcLost, LibcTree;
    LibcLostIs();
    LibcTargets();
    assert First(X, 0) == {};
  }

  /** A lost object is compiled again, stripping fails, and the next build
      takes the raw object as up to date. */
  lemma StopUnstripped()
    ensures |Targets(X)| == 2 && Failed(TinyRules(), LibcLost(), X, 0, NeverStrips)
    ensures var rules, k, s1 := TinyRules(), Output(X, Kernel), LibcLost();
            var stop := StopOf(rules, s1, Halt({}, X, 0), NeverStrips);
            var s2 := Step(rules, Step(rules, Step(rules, s1, stop), Edit(X, "1")), Build);
            s2.tree == s1.tree && !Clean(rules, s2) && k in s2.objs && s2.objs[k] == "raw"
  {
    hide CompileOf, Closure, Recorded, ObjectsAfter, RecordAtStop, Targets, LeftAt, IsC, IsHeader, TinyRules, LibcLost,
      Failed, RawLeft;
    var rules, k, s1 := TinyRules(), Output(X, Kernel), LibcLost();
    LibcTargets();
    LibcLostIs();
    LostLeft();
    LibcClosure("1");
    LibcRecorded(map[X := "1"], "1");
    var left := map[k := "raw"];
    assert k in Outputs({X});
    assert WithContents(s1.tree, X, "1") == LibcTree("1");
    LeftStays(rules, s1, {}, X, left, "1", k);
    assert CompileOf(rules, WithContents(s1.tree, X, "1"), k) == "1" != left[k];
  }

  // ---- a constant that two headers fix

  const P: File := "src/p.h"
  const Q: File := "src/q.h"
  const S: File := "src/kernel/s.asm"

  /** An assembly file that uses a constant, and two headers that may fix it; the
      first is met first. The object is the value the constant has. */
  ghost function TwiceRules(): Rules {
    Rules((f, c) => [], c => if c == "use" then ["k"] else [], c => if c == "one" || c == "two" then {"k"} else {},
          files => (if P in files then [P] else []) + (if Q in files then [Q] else []) + Listed(files - {P, Q}), c => c,
          (o: Output, m: Tree) => if P in m then m[P] else if Q in m then m[Q] else "", (o, m) => "raw")
  }

  function TwiceTree(p: string): Tree { map[P := p, Q := "two", S := "use"] }

  lemma TwiceTreeIs(p: string)
    ensures var t := TwiceTree(p);
            t.Keys == {P, Q, S} && t[P] == p && t[Q] == "two" && t[S] == "use" && t[P := "none"] == TwiceTree("none")
  {
  }

  lemma TwiceNames()
    ensures P != Q && P != S && Q != S && IsHeader(P) && IsHeader(Q) && !IsHeader(S) && IsAssembly(S) && !IsAssembly(P)
    ensures !IsAssembly(Q) && Targets(S) == [Kernel] && "one" != "two" && "none" != "one" && "none" != "two"
  {
    assert S == "src/kernel" + "/" + "s.asm";
    AfterSlash("src/kernel", "s.asm");
    NotPrefix("src/uefi", "src/kernel/", 4);
    assert "src/kernel" <= "src/kernel/";
    assert P[|P| - 2..] == ".h" && Q[|Q| - 2..] == ".h" && S[|S| - 4..] == ".asm";
    SuffixDiffers(P, ".asm");
    SuffixDiffers(Q, ".asm");
    SuffixDiffers(S, ".h");
  }

  lemma SuffixDiffers(f: File, x: string)
    requires f != "" && x != "" && f[|f| - 1] != x[|x| - 1]
    ensures !HasSuffix(f, x)
  {
    if HasSuffix(f, x) { SuffixEnds(f, x); }
  }

  lemma TwiceRegular()
    ensures Regular(TwiceRules())
  {
    var rules := TwiceRules();
    forall files: set<File> ensures Elems(rules.walk(files)) == files {
      var rest := Listed(files - {P, Q});
      forall x ensures x in rules.walk(files) <==> x in files { assert x in rest <==> x in Elems(rest); }
    }
  }

  /** Which header the constant is taken from. */
  lemma TwiceTakes(p: string)
    requires p == "one" || p == "none"
    ensures var t := TwiceTree(p);
            Provided(TwiceRules(), t)
            && forall f, x :: Includes(TwiceRules(), t, f, x) <==> f == S && x == if p == "one" then P else Q
  {
    TwiceNames();
    TwiceDefiner(p);
    hide IsHeader, IsAssembly, BaseName, Targets, Definer;
    var rules, t := TwiceRules(), TwiceTree(p);
    assert t[S] == "use" && rules.uses("use") == ["k"];
    forall f, k ensures Uses(rules, t, f, k) <==> f == S && k == "k" { }
    forall f, x ensures Includes(rules, t, f, x) <==> f == S && x == if p == "one" then P else Q {
      assert Uses(rules, t, S, "k");
    }
  }

  lemma TwiceDefiner(p: string)
    requires p == "one" || p == "none"
    ensures var t := TwiceTree(p);
            Definer(TwiceRules(), t, TwiceRules().walk(t.Keys), "k") == [if p == "one" then P else Q]
  {
    TwiceNames();
    hide IsHeader, IsAssembly;
    var rules, t := TwiceRules(), TwiceTree(p);
    var order, rest := rules.walk(t.Keys), Listed(t.Keys - {P, Q});
    assert order == [P, Q] + rest;
    assert order[0] == P && order[1..] == [Q] + rest && order[1..][0] == Q;
    assert Defines(rules, t, Q, "k") && (Defines(rules, t, P, "k") <==> p == "one");
  }

  /** What the assembly file depends on, and its object. */
  lemma TwiceClosure(p: string)
    requires p == "one" || p == "none"
    ensures Closure(TwiceRules(), TwiceTree(p), S) == {if p == "one" then P else Q}
    ensures CompileOf(TwiceRules(), TwiceTree(p), Output(S, Kernel)) == if p == "one" then "one" else "two"
  {
    hide IsHeader, IsAssembly, BaseName, Targets, Includes, Definer, TwiceTree, P, Q, S;
    TwiceNames();
    TwiceTakes(p);
    TwiceTreeIs(p);
    var rules, t, d := TwiceRules(), TwiceTree(p), if p == "one" then P else Q;
    forall x ensures Pulls(rules, t, S, x) <==> x == d {
      if Pulls(rules, t, S, x) {
        var q :| Chain(rules, t, q) && q[0] == S && q[|q| - 1] == x;
        assert Includes(rules, t, q[|q| - 2], q[|q| - 2 + 1]);
      }
      if x == d { ChainLonger(rules, t, [S], d); }
    }
  }

  /** The header met first drops the constant, and the object keeps its value:
      the file and the header it now depends on are recorded as they are. */
  lemma TwoDefinitions()
    ensures var rules, o := TwiceRules(), Output(S, Kernel);
            var s0 := Step(rules, State(TwiceTree("one"), map[], map[]), Build);
            var s1 := Step(rules, s0, Edit(P, "none"));
            var s2 := Step(rules, s1, Build);
            && Regular(rules) && Provided(rules, s0.tree) && !Single(rules, s0.tree) && Provided(rules, s1.tree)
            && Clean(rules, s0) && s2.tree == TwiceTree("none") && !Clean(rules, s2)
            && o in s2.objs && s2.objs[o] == "one" != CompileOf(rules, s2.tree, o)
  {
    hide CompileOf, Closure, UpToDate, ObjectsAfter, Targets, IsHeader, IsAssembly, TwiceRules, Single, Provided, Includes,
      TwiceTree, P, Q, S, Covers, Injective, Clean;
    var rules, o, s0 := TwiceRules(), Output(S, Kernel), Step(TwiceRules(), State(TwiceTree("one"), map[], map[]), Build);
    TwiceNames();
    TwiceRegular();
    TwiceTakes("one");
    TwiceTakes("none");
    TwiceClosure("one");
    TwiceClosure("none");
    TwiceTwo();
    FirstBuild(rules, TwiceTree("one"));
    TwiceTreeIs("one");
    TwiceTreeIs("none");
    assert o in Outputs(TwiceTree("one").Keys) && o in Outputs(TwiceTree("none").Keys);
    CleanAt(rules, s0, o);
    var s1 := Step(rules, s0, Edit(P, "none"));
    TwiceRecorded(s1);
    KeptObject(rules, s1, o);
    if Clean(rules, Step(rules, s1, Build)) { CleanAt(rules, Step(rules, s1, Build), o); }
  }

  lemma CleanAt(rules: Rules, s: State, o: Output)
    requires Clean(rules, s) && o in Outputs(s.tree.Keys)
    ensures o in s.objs && s.objs[o] == CompileOf(rules, s.tree, o)
  {
  }

  lemma TwiceTwo()
    ensures !Single(TwiceRules(), TwiceTree("one"))
  {
    TwiceNames();
    hide IsHeader;
    assert Defines(TwiceRules(), TwiceTree("one"), P, "k") && Defines(TwiceRules(), TwiceTree("one"), Q, "k");
  }

  lemma TwiceRecorded(s: State)
    requires s.tree == TwiceTree("none") && s.record == Hashes(TwiceRules(), TwiceTree("one"))
    requires Output(S, Kernel) in s.objs
    ensures UpToDate(TwiceRules(), s.record, s.objs, s.tree, Output(S, Kernel))
  {
    hide Closure, TwiceTree, P, Q, S;
    TwiceNames();
    TwiceClosure("none");
    TwiceTreeIs("none");
    TwiceTreeIs("one");
  }

  lemma KeptObject(rules: Rules, s: State, o: Output)
    requires UpToDate(rules, s.record, s.objs, s.tree, o) && o in Outputs(s.tree.Keys)
    ensures o in Step(rules, s, Build).objs && Step(rules, s, Build).objs[o] == s.objs[o]
  {
    hide UpToDate, Targets, CompileOf;
    assert s.tree.Keys * s.tree.Keys == s.tree.Keys;
  }
}

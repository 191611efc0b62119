/** The loop of src/_build/create_kernel.py:247-395 over the files: each one's
    turn, and what a stopped build leaves. */
module BuildLoop {
  import opened IncludeClosure
  import opened IncrementalBuild

  ghost predicate NoDuplicates(order: seq<File>) {
    forall i, j :: 0 <= i < j < |order| ==> order[i] != order[j]
  }

  /** How a compiler run ends: the object may be written and not stripped. */
  datatype Result = Fine | CompileFails | StripFails

  // ---- what a file's turn leaves

  /** The first i outputs of f after their turns. */
  ghost function TurnObjects(rules: Rules, s: State, f: File, i: nat): map<Output, string>
    requires i <= |Targets(f)|
  {
    map o | o in First(f, i) :: ObjectAfter(rules, s, o)
  }

  function First(f: File, i: nat): set<Output>
    requires i <= |Targets(f)|
  {
    set k | 0 <= k < i :: Output(f, Targets(f)[k])
  }

  /** What a build that stops at output i of f has replaced: the earlier
      outputs that were not up to date and, if only stripping failed, output
      i. */
  ghost function LeftAt(rules: Rules, s: State, f: File, i: nat, raw: bool): map<Output, string>
    requires i < |Targets(f)|
  {
    var stripped := Output(f, Targets(f)[i]);
    (map o | o in First(f, i) && !UpToDate(rules, s.record, s.objs, s.tree, o) :: CompileOf(rules, s.tree, o))
    + if raw then map[stripped := rules.raw(stripped, Input(rules, s.tree, f))] else map[]
  }

  lemma TargetsDiffer(f: File, i: nat, j: nat)
    requires i < j < |Targets(f)|
    ensures Targets(f)[i] != Targets(f)[j]
  {
  }

  lemma AllOutputs(f: File)
    ensures First(f, |Targets(f)|) == Outputs({f})
  {
    forall o ensures o in First(f, |Targets(f)|) <==> o in Outputs({f}) {
      if o in Outputs({f}) {
        assert o.t in Targets(f);
        var k :| 0 <= k < |Targets(f)| && Targets(f)[k] == o.t;
      }
    }
  }

  // ---- the steps of the loop and the states they reach

  lemma RecordStep(rules: Rules, s: State, done: set<File>, f: File)
    requires f in s.tree && f !in done
    ensures RecordAtStop(rules, s, done + {f}) ==
            if Compiled(f) then RecordAtStop(rules, s, done)[f := rules.hash(s.tree[f])] else RecordAtStop(rules, s, done)
  {
  }

  lemma ObjectsStep(rules: Rules, s: State, done: set<File>, f: File)
    requires f in s.tree && f !in done
    ensures ObjectsAfter(rules, s, done + {f}) == ObjectsAfter(rules, s, done) + TurnObjects(rules, s, f, |Targets(f)|)
  {
    hide ObjectAfter, Outputs, First;
    AllOutputs(f);
    assert s.tree.Keys * (done + {f}) == s.tree.Keys * done + {f};
    OutputsOfBoth(s.tree.Keys * done, {f});
  }

  lemma OutputsOfBoth(a: set<File>, b: set<File>)
    ensures Outputs(a + b) == Outputs(a) + Outputs(b)
  {
    hide Targets;
    forall o ensures o in Outputs(a + b) <==> o in Outputs(a) || o in Outputs(b) {
      assert o == Output(o.f, o.t);
    }
  }

  /** A file's own objects wait for its turn. */
  lemma NotYetTurned(rules: Rules, s: State, done: set<File>, f: File)
    requires f !in done
    ensures SameAt(ObjectsAfter(rules, s, done), s.objs, f)
  {
    hide ObjectAfter, Targets;
  }

  /** The maps agree on the outputs of f. */
  ghost predicate SameAt(a: map<Output, string>, b: map<Output, string>, f: File) {
    forall o: Output :: o.f == f ==> (o in a <==> o in b) && (o in a ==> a[o] == b[o])
  }

  lemma NothingDone(rules: Rules, s: State)
    ensures RecordAtStop(rules, s, {}) ==
            map k | k in s.record && k in s.tree :: if IsHeader(k) then rules.hash(s.tree[k]) else s.record[k]
    ensures ObjectsAfter(rules, s, {}) == s.objs
  {
    assert s.tree.Keys * {} == {};
  }

  /** The compiler's input for f is its closure. */
  lemma CompileInput(rules: Rules, tree: Tree, order: seq<File>, inc: Graph, f: File)
    requires Walked(rules, tree, order) && tree.Keys == inc.Keys && f in tree
    requires forall k, x :: k in tree ==> (x in inc[k] <==> Reaches(Direct(rules, tree, order), k, x))
    ensures forall x :: x in inc[f] <==> x in tree && x in Closure(rules, tree, f)
    ensures (map x | x in tree && (x == f || x in inc[f]) :: tree[x]) == Input(rules, tree, f)
  {
    hide Reaches, Pulls, Direct;
    forall x ensures x in inc[f] <==> x in tree && x in Closure(rules, tree, f) {
      PullsIsReaches(rules, tree, order, f, x);
      if x in inc[f] {
        DirectIs(rules, tree, order);
        LastInKeys(Direct(rules, tree, order), f, x);
        assert Direct(rules, tree, order).Keys == tree.Keys by { DirectKeys(rules, tree, order); }
      }
    }
  }

  lemma DirectKeys(rules: Rules, tree: Tree, order: seq<File>)
    ensures Direct(rules, tree, order).Keys == tree.Keys
  {
  }

  /** The decision taken on the closed lists is the one of UpToDate. */
  lemma DecisionIs(rules: Rules, s: State, order: seq<File>, inc: Graph, o: Output)
    requires Walked(rules, s.tree, order) && s.tree.Keys == inc.Keys && o.f in s.tree
    requires forall k, x :: k in s.tree ==> (x in inc[k] <==> Reaches(Direct(rules, s.tree, order), k, x))
    ensures var n := Hashes(rules, s.tree);
            UpToDate(rules, s.record, s.objs, s.tree, o) <==>
            Unchanged(s.record, n, o.f) && o in s.objs && forall k :: k in inc[o.f] ==> Unchanged(s.record, n, k)
  {
    hide Reaches, Pulls, Direct, Unchanged;
    CompileInput(rules, s.tree, order, inc, o.f);
    assert forall k :: k in Closure(rules, s.tree, o.f) ==> k in s.tree;
  }

  // ---- the code

  /** One output's turn: result says how a compiler run would end. */
  method OneObject(rules: Rules, ghost s: State, tree: Tree, record: map<File, string>, ghost order: seq<File>,
                   inc: Graph, o: Output, objs: map<Output, string>, result: Result)
    returns (objs': map<Output, string>, ok: bool)
    requires tree == s.tree && record == s.record && o.f in tree
    requires Walked(rules, tree, order) && tree.Keys == inc.Keys && Closed(inc)
    requires forall k, x :: k in tree ==> (x in inc[k] <==> Reaches(Direct(rules, tree, order), k, x))
    requires (o in objs <==> o in s.objs) && (o in objs ==> objs[o] == s.objs[o])
    ensures ok <==> UpToDate(rules, s.record, s.objs, s.tree, o) || result.Fine?
    ensures ok ==> objs' == objs[o := ObjectAfter(rules, s, o)]
    ensures !ok ==>
              objs' == if IsC(o.f) && result.StripFails? then objs[o := rules.raw(o, Input(rules, s.tree, o.f))] else objs
  {
    hide Reaches, Pulls, Direct, Closure, UpToDate, Input, IsC;
    objs', ok := objs, true;
    DecisionIs(rules, s, order, inc, o);
    CompileInput(rules, tree, order, inc, o.f);
    var reason := CheckNew(record, Hashes(rules, tree), inc, o.f, o in objs);
    if !reason.Current? {
      var input := map x | x in tree && (x == o.f || x in inc[o.f]) :: tree[x];
      match result
      case Fine => objs' := objs[o := rules.compile(o, input)];
      case CompileFails => ok := false;
      case StripFails =>
        if IsC(o.f) { objs' := objs[o := rules.raw(o, input)]; }
        ok := false;
    }
  }

  lemma TurnStep(rules: Rules, s: State, f: File, i: nat, objs: map<Output, string>)
    requires i < |Targets(f)| && SameAt(objs, s.objs, f)
    ensures var o := Output(f, Targets(f)[i]);
            var now := objs + TurnObjects(rules, s, f, i);
            && now[o := ObjectAfter(rules, s, o)] == objs + TurnObjects(rules, s, f, i + 1)
            && (o in now <==> o in s.objs) && (o in now ==> now[o] == s.objs[o])
  {
    hide ObjectAfter, Targets;
    var o := Output(f, Targets(f)[i]);
    assert First(f, i + 1) == First(f, i) + {o};
    assert o !in First(f, i) by {
      forall k | 0 <= k < i ensures Targets(f)[k] != Targets(f)[i] { TargetsDiffer(f, k, i); }
    }
  }

  /** Only the objects that were not up to date differ after their turns. */
  lemma LeftSame(rules: Rules, s: State, f: File, i: nat, objs: map<Output, string>)
    requires i < |Targets(f)| && SameAt(objs, s.objs, f)
    ensures objs + LeftAt(rules, s, f, i, false) == objs + TurnObjects(rules, s, f, i)
  {
    hide Targets, CompileOf, UpToDate;
    forall o: Output | o in First(f, i) && UpToDate(rules, s.record, s.objs, s.tree, o)
      ensures o in objs && objs[o] == ObjectAfter(rules, s, o)
    {
      ObjectThere(rules, s, o);
      assert o.f == f;
    }
  }

  lemma ObjectThere(rules: Rules, s: State, o: Output)
    requires UpToDate(rules, s.record, s.objs, s.tree, o)
    ensures o in s.objs
  {
  }

  /** What is there when output i fails: the new objects of the earlier ones,
      and of it if only stripping failed. */
  lemma LeftIs(rules: Rules, s: State, f: File, i: nat, raw: bool, objs: map<Output, string>)
    requires i < |Targets(f)| && SameAt(objs, s.objs, f)
    ensures var o := Output(f, Targets(f)[i]);
            var now := objs + TurnObjects(rules, s, f, i);
            objs + LeftAt(rules, s, f, i, raw) == if raw then now[o := rules.raw(o, Input(rules, s.tree, f))] else now
  {
    hide Targets, CompileOf, UpToDate, Input, TurnObjects;
    LeftSame(rules, s, f, i, objs);
  }

  /** What is left belongs to the file at which the build stopped. */
  lemma LeftAmong(rules: Rules, s: State, f: File, i: nat, raw: bool)
    requires i < |Targets(f)|
    ensures LeftAt(rules, s, f, i, raw).Keys <= Outputs({f})
  {
    hide CompileOf, UpToDate, Input, Targets;
    AllOutputs(f);
    forall x | x in LeftAt(rules, s, f, i, raw) ensures x in First(f, |Targets(f)|) { }
  }

  /** The turns of one file's outputs, in order. */
  method OneFile(rules: Rules, ghost s: State, tree: Tree, record: map<File, string>, ghost order: seq<File>,
                 inc: Graph, f: File, objs: map<Output, string>, result: Output -> Result)
    returns (objs': map<Output, string>, ok: bool, ghost i: nat)
    requires tree == s.tree && record == s.record && f in tree && SameAt(objs, s.objs, f)
    requires Walked(rules, tree, order) && tree.Keys == inc.Keys && Closed(inc)
    requires forall k, x :: k in tree ==> (x in inc[k] <==> Reaches(Direct(rules, tree, order), k, x))
    ensures ok ==> objs' == objs + TurnObjects(rules, s, f, |Targets(f)|)
    ensures !ok ==> i < |Targets(f)| && Failed(rules, s, f, i, result)
    ensures !ok ==> objs' == objs + LeftAt(rules, s, f, i, RawLeft(f, i, result))
  {
    hide Reaches, Direct, UpToDate, ObjectAfter, Targets, Closed, SameAt, LeftAt, TurnObjects;
    objs', ok, i := objs, true, 0;
    assert objs == objs + TurnObjects(rules, s, f, 0) by { NoTurns(rules, s, f); }
    var j := 0;
    while j < |Targets(f)|
      invariant j <= |Targets(f)| && objs' == objs + TurnObjects(rules, s, f, j)
    {
      var o := Output(f, Targets(f)[j]);
      TurnStep(rules, s, f, j, objs);
      objs', ok := OneObject(rules, s, tree, record, order, inc, o, objs', result(o));
      if !ok {
        i := j;
        LeftIs(rules, s, f, i, RawLeft(f, i, result), objs);
        return;
      }
      j := j + 1;
    }
  }

  lemma NoTurns(rules: Rules, s: State, f: File)
    ensures TurnObjects(rules, s, f, 0) == map[]
  {
  }

  /** Output i of f had to be compiled, and its compilation did not end well. */
  ghost predicate Failed(rules: Rules, s: State, f: File, i: nat, result: Output -> Result)
    requires i < |Targets(f)|
  {
    var o := Output(f, Targets(f)[i]);
    !UpToDate(rules, s.record, s.objs, s.tree, o) && !result(o).Fine?
  }

  predicate RawLeft(f: File, i: nat, result: Output -> Result)
    requires i < |Targets(f)|
  {
    IsC(f) && result(Output(f, Targets(f)[i])).StripFails?
  }

  /** The record to write if the build stops, before any file had its turn. */
  method StopRecord(rules: Rules, tree: Tree, record: map<File, string>, ghost s: State) returns (cl: map<File, string>)
    requires tree == s.tree && record == s.record
    ensures cl == RecordAtStop(rules, s, {})
  {
    hide RecordAtStop;
    var n := Hashes(rules, tree);
    NothingDone(rules, s);
    cl := map k | k in record && k in n :: if IsHeader(k) then n[k] else record[k];
  }

  /** The closed include lists of the tree. */
  method Lists(rules: Rules, tree: Tree, order: seq<File>) returns (inc: Graph)
    requires Walked(rules, tree, order)
    ensures tree.Keys == inc.Keys && Closed(inc)
    ensures forall k, x :: k in tree ==> (x in inc[k] <==> Reaches(Direct(rules, tree, order), k, x))
  {
    hide Reaches, Direct;
    DirectIs(rules, tree, order);
    DirectKeys(rules, tree, order);
    inc := Close(Direct(rules, tree, order), order);
  }

  /** A build that stopped: at output i of file at, after the files in done. */
  datatype Halt = Halt(done: set<File>, at: File, i: nat)

  /** The step a stopped build is. */
  ghost function StopOf(rules: Rules, s: State, h: Halt, result: Output -> Result): Op
    requires h.i < |Targets(h.at)|
  {
    Stop(h.done, h.at, LeftAt(rules, s, h.at, h.i, RawLeft(h.at, h.i, result)))
  }

  /** A build: it goes through, or stops at the first output that has to be
      compiled and fails. */
  method BuildAll(rules: Rules, tree: Tree, order: seq<File>, record: map<File, string>, objs: map<Output, string>,
                  result: Output -> Result)
    returns (record': map<File, string>, objs': map<Output, string>, ok: bool, ghost h: Halt)
    requires Walked(rules, tree, order) && NoDuplicates(order)
    ensures ok ==> State(tree, record', objs') == Step(rules, State(tree, record, objs), Build)
    ensures !ok ==>
              var s := State(tree, record, objs);
              && h.at in tree && h.at !in h.done && h.i < |Targets(h.at)| && Failed(rules, s, h.at, h.i, result)
              && StopsAt(s, h.done, h.at, StopOf(rules, s, h, result).left)
              && State(tree, record', objs') == Step(rules, s, StopOf(rules, s, h, result))
  {
    hide Reaches, Direct, UpToDate, ObjectAfter, RecordAtStop, ObjectsAfter, Targets, Closed, SameAt, LeftAt, TurnObjects;
    ghost var s := State(tree, record, objs);
    var inc := Lists(rules, tree, order);
    var n := Hashes(rules, tree);
    var cl := StopRecord(rules, tree, record, s);
    NothingDone(rules, s);
    objs', ok, h := objs, true, Halt({}, "", 0);
    for i := 0 to |order|
      invariant h.done == Elems(order[..i])
      invariant cl == RecordAtStop(rules, s, h.done) && objs' == ObjectsAfter(rules, s, h.done)
    {
      var f := order[i];
      FreshTurn(order, i);
      RecordStep(rules, s, h.done, f);
      ObjectsStep(rules, s, h.done, f);
      NotYetTurned(rules, s, h.done, f);
      var o;
      ghost var at;
      o, ok, at := OneFile(rules, s, tree, record, order, inc, f, objs', result);
      if !ok {
        h := h.(at := f, i := at);
        LeftAmong(rules, s, f, at, RawLeft(f, at, result));
        return cl, o, false, h;
      }
      objs' := o;
      if Compiled(f) { cl := cl[f := n[f]]; }
      h := h.(done := h.done + {f});
    }
    assert order[..|order|] == order;
    record' := n;
  }

  lemma FreshTurn(order: seq<File>, i: nat)
    requires NoDuplicates(order) && i < |order|
    ensures order[i] !in Elems(order[..i]) && Elems(order[..i + 1]) == Elems(order[..i]) + {order[i]}
    ensures order[i] in Elems(order)
  {
    assert order[..i + 1] == order[..i] + [order[i]];
  }

  /** A stop at the first output of a file before its object was written, or at
      any output of an unchanged file but after stripping failed, keeps the
      trust: nothing was replaced, or only by the compiled objects. */
  lemma PlainStopIsHarmless(rules: Rules, s: State, h: Halt, result: Output -> Result)
    requires h.at in s.tree && h.i < |Targets(h.at)| && !RawLeft(h.at, h.i, result)
    requires h.i == 0 || h.at !in s.record || s.record[h.at] == rules.hash(s.tree[h.at])
    ensures Harmless(rules, s, h.at, StopOf(rules, s, h, result).left)
  {
    hide CompileOf, UpToDate, Input, Targets;
  }
}

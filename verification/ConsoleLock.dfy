/** Locks of src/kernel/process/lock.c:35-60, and the console lock of
    src/kernel/gfx/console.c:93-103 taken by any number of CPUs that interleave
    single steps. */
module ConsoleLock {
  import Console

  // ---- handing out locks

  const UNUSED: nat := 255

  class LockTable {
    const sl: array<nat>
    var nsi: nat

    /** The next lock to hand out is unused; locks handed out hold 0 or 1. */
    ghost predicate Valid()
      reads this, sl
    {
      && nsi < sl.Length && sl[nsi] == UNUSED
      && forall i :: 0 <= i < sl.Length ==> sl[i] <= 1 || sl[i] == UNUSED
    }

    constructor (count: nat)
      requires count > 0
      ensures Valid() && nsi == 0 && sl.Length == count && fresh(sl)
    {
      sl := new nat[count](i => UNUSED);
      nsi := 0;
    }

    /** Hands out a lock that nobody has, released, and moves on to the next
        unused one. There must be one: at the end of the table the loop reads
        behind it before it checks the bound. */
    method Create() returns (o: nat)
      requires Valid() && exists i :: nsi < i < sl.Length && sl[i] == UNUSED
      modifies this`nsi, sl
      ensures Valid() && o == old(nsi) < nsi && old(sl[o]) == UNUSED && sl[o] == 0
      ensures forall i :: 0 <= i < sl.Length && i != o ==> sl[i] == old(sl[i])
      ensures forall i :: o < i < nsi ==> sl[i] != UNUSED
    {
      ghost var next :| nsi < next < sl.Length && sl[next] == UNUSED;
      o := nsi;
      sl[o] := 0;
      nsi := nsi + 1;
      while sl[nsi] != UNUSED
        invariant o < nsi <= next && forall i :: o < i < nsi ==> sl[i] != UNUSED
        invariant sl[next] == UNUSED && sl[o] == 0
        invariant forall i :: 0 <= i < sl.Length && i != o ==> sl[i] == old(sl[i])
        decreases next - nsi
      {
        nsi := nsi + 1;
      }
    }

    /** One compare-and-swap of 0 by 1. */
    method TryAcquire(l: nat) returns (ok: bool)
      requires Valid() && l < sl.Length && sl[l] <= 1
      modifies sl
      ensures Valid() && ok == (old(sl[l]) == 0) && sl[l] == 1
      ensures forall i :: 0 <= i < sl.Length && i != l ==> sl[i] == old(sl[i])
    {
      ok := sl[l] == 0;
      if ok { sl[l] := 1; }
    }

    method Release(l: nat)
      requires Valid() && l < sl.Length && sl[l] <= 1
      modifies sl
      ensures Valid() && sl[l] == 0 && forall i :: 0 <= i < sl.Length && i != l ==> sl[i] == old(sl[i])
    {
      sl[l] := 0;
    }
  }

  // ---- CPUs printing strings

  /** Where a CPU is in printing the first of its strings. */
  datatype Place = Outside | Inside(i: nat)

  /** One call of _console_print: a string and its color. */
  datatype Call = Call(s: string, cl: nat) {
    function Text(): seq<Console.Glyph> { Console.Glyphs(Codes(s), cl) }
  }

  function Codes(t: string): seq<nat> {
    seq(|t|, i requires 0 <= i < |t| => t[i] as nat)
  }

  datatype Cpu = Cpu(todo: seq<Call>, at: Place)

  /** The lock byte, the CPUs, and the characters printed so far. */
  datatype State = State(l: nat, cpus: seq<Cpu>, log: seq<Console.Glyph>)

  /** One step of CPU p: a compare-and-swap that may fail, the printing of one
      character, or the release. */
  function Step(s: State, p: nat): (r: State)
    requires p < |s.cpus|
    ensures |r.cpus| == |s.cpus|
  {
    var c := s.cpus[p];
    match c.at
    case Outside =>
      if c.todo != [] && s.l == 0 then s.(l := 1, cpus := s.cpus[p := c.(at := Inside(0))]) else s
    case Inside(i) =>
      if c.todo == [] then s
      else if i < |c.todo[0].Text()| then s.(log := s.log + [c.todo[0].Text()[i]], cpus := s.cpus[p := c.(at := Inside(i + 1))])
      else s.(l := 0, cpus := s.cpus[p := Cpu(c.todo[1..], Outside)])
  }

  function Run(s: State, schedule: seq<nat>): (r: State)
    requires forall n :: 0 <= n < |schedule| ==> schedule[n] < |s.cpus|
    ensures |r.cpus| == |s.cpus|
  {
    if schedule == [] then s
    else
      var init := schedule[..|schedule| - 1];
      Step(Run(s, init), schedule[|schedule| - 1])
  }

  function Start(programs: seq<seq<Call>>): State {
    State(0, seq(|programs|, p requires 0 <= p < |programs| => Cpu(programs[p], Outside)), [])
  }

  /** Whole strings in the order their printing ended, each with its CPU. */
  type History = seq<(nat, Call)>

  function Flat(h: History): seq<Console.Glyph> {
    if h == [] then [] else Flat(h[..|h| - 1]) + h[|h| - 1].1.Text()
  }

  /** The strings of CPU p in the history. */
  function Of(h: History, p: nat): seq<Call> {
    if h == [] then []
    else Of(h[..|h| - 1], p) + (if h[|h| - 1].0 == p then [h[|h| - 1].1] else [])
  }

  predicate InsideOk(c: Cpu) {
    c.at.Inside? ==> c.todo != [] && c.at.i <= |c.todo[0].Text()|
  }

  /** At most one CPU is inside, and the lock is taken exactly when one is. */
  ghost predicate Exclusive(s: State) {
    && s.l <= 1
    && (forall p, q :: 0 <= p < |s.cpus| && 0 <= q < |s.cpus| && s.cpus[p].at.Inside? && s.cpus[q].at.Inside? ==> p == q)
    && (s.l == 0 <==> forall p :: 0 <= p < |s.cpus| ==> s.cpus[p].at.Outside?)
    && forall p :: 0 <= p < |s.cpus| ==> InsideOk(s.cpus[p])
  }

  /** What is printed is the whole strings of the history and then the part
      that the CPU inside, if any, has printed of its current one. */
  ghost predicate Serial(s: State, programs: seq<seq<Call>>, h: History) {
    && |programs| == |s.cpus| && Exclusive(s)
    && (forall p :: 0 <= p < |s.cpus| ==> Of(h, p) + s.cpus[p].todo == programs[p])
    && (s.l == 0 ==> s.log == Flat(h))
    && forall p :: 0 <= p < |s.cpus| && s.cpus[p].at.Inside? ==> s.log == Flat(h) + s.cpus[p].todo[0].Text()[..s.cpus[p].at.i]
  }

  lemma HistoryAppend(h: History, p: nat, x: Call)
    ensures Flat(h + [(p, x)]) == Flat(h) + x.Text()
    ensures forall q: nat :: Of(h + [(p, x)], q) == Of(h, q) + if q == p then [x] else []
  {
    assert (h + [(p, x)])[..|h|] == h;
  }

  lemma StepSerial(s: State, programs: seq<seq<Call>>, h: History, p: nat) returns (h': History)
    requires p < |s.cpus| && Serial(s, programs, h)
    ensures Serial(Step(s, p), programs, h')
  {
    hide Serial, Exclusive;
    InsideHas(s, programs, h, p);
    var c := s.cpus[p];
    h' := h;
    if c.at.Inside? && c.at.i == |c.todo[0].Text()| {
      h' := h + [(p, c.todo[0])];
      LeaveSerial(s, programs, h, p);
    } else if c.at.Inside? {
      PrintSerial(s, programs, h, p);
    } else {
      EnterSerial(s, programs, h, p);
    }
  }

  lemma InsideHas(s: State, programs: seq<seq<Call>>, h: History, p: nat)
    requires p < |s.cpus| && Serial(s, programs, h)
    ensures InsideOk(s.cpus[p])
  {
  }

  lemma EnterSerial(s: State, programs: seq<seq<Call>>, h: History, p: nat)
    requires p < |s.cpus| && Serial(s, programs, h) && s.cpus[p].at.Outside?
    ensures Serial(Step(s, p), programs, h)
  {
    hide Flat, Of;
    if s.cpus[p].todo != [] && s.l == 0 {
      var s' := Step(s, p);
      assert s'.cpus[p].at.Inside?;
      assert s.cpus[p].todo[0].Text()[..0] == [] && Flat(h) + [] == Flat(h);
    }
  }

  lemma PrintSerial(s: State, programs: seq<seq<Call>>, h: History, p: nat)
    requires p < |s.cpus| && Serial(s, programs, h)
    requires s.cpus[p].at.Inside? && s.cpus[p].at.i < |s.cpus[p].todo[0].Text()|
    ensures Serial(Step(s, p), programs, h)
  {
    hide Flat, Of;
    var c := s.cpus[p];
    var x, i := c.todo[0].Text(), c.at.i;
    assert x[..i + 1] == x[..i] + [x[i]];
    assert Flat(h) + x[..i] + [x[i]] == Flat(h) + x[..i + 1];
    var s' := Step(s, p);
    assert s'.cpus[p].at.Inside?;
  }

  lemma LeaveSerial(s: State, programs: seq<seq<Call>>, h: History, p: nat)
    requires p < |s.cpus| && Serial(s, programs, h)
    requires s.cpus[p].at.Inside? && s.cpus[p].at.i == |s.cpus[p].todo[0].Text()|
    ensures Serial(Step(s, p), programs, h + [(p, s.cpus[p].todo[0])])
  {
    var c := s.cpus[p];
    var x := c.todo[0];
    HistoryAppend(h, p, x);
    assert c.todo == [x] + c.todo[1..] && x.Text()[..c.at.i] == x.Text();
    var s', h' := Step(s, p), h + [(p, x)];
    forall q | 0 <= q < |s.cpus| ensures Of(h', q) + s'.cpus[q].todo == programs[q] {
      if q == p { assert Of(h, q) + [x] + c.todo[1..] == Of(h, q) + c.todo; }
    }
  }

  lemma StartSerial(programs: seq<seq<Call>>)
    ensures Serial(Start(programs), programs, [])
  {
  }

  /** In every run at most one CPU is inside, and what is printed is some
      order of whole strings, each CPU's in its own order, and a part of at most
      one more. */
  lemma {:induction false} RunSerial(programs: seq<seq<Call>>, schedule: seq<nat>) returns (h: History)
    requires forall n :: 0 <= n < |schedule| ==> schedule[n] < |programs|
    ensures Serial(Run(Start(programs), schedule), programs, h)
    decreases |schedule|
  {
    if schedule == [] {
      StartSerial(programs);
      h := [];
    } else {
      var init := schedule[..|schedule| - 1];
      var g := RunSerial(programs, init);
      h := StepSerial(Run(Start(programs), init), programs, g, schedule[|schedule| - 1]);
    }
  }

  ghost predicate Finished(s: State) {
    forall p :: 0 <= p < |s.cpus| ==> s.cpus[p].todo == []
  }

  /** When every CPU is done the console is as if the strings had been printed
      one after the other: the lines are those of a sequence of whole strings
      that holds each CPU's program in order. */
  lemma FinishedRun(programs: seq<seq<Call>>, schedule: seq<nat>) returns (h: History)
    requires forall n :: 0 <= n < |schedule| ==> schedule[n] < |programs|
    requires Finished(Run(Start(programs), schedule))
    ensures Run(Start(programs), schedule).log == Flat(h)
    ensures forall p: nat :: p < |programs| ==> Of(h, p) == programs[p]
  {
    h := RunSerial(programs, schedule);
    var s := Run(Start(programs), schedule);
    forall p: nat | p < |s.cpus| ensures Of(h, p) == programs[p] && s.cpus[p].at.Outside? {
      assert Of(h, p) + s.cpus[p].todo == programs[p];
      InsideHas(s, programs, h, p);
    }
  }

  /** Characters a CPU prints between taking and releasing the lock are next to
      each other: no other CPU's step prints while one is inside. */
  lemma OthersWait(s: State, p: nat, q: nat)
    requires Exclusive(s) && p < |s.cpus| && q < |s.cpus| && p != q && s.cpus[p].at.Inside?
    ensures Step(s, q) == s
  {
  }

  // ---- the lock is never lost

  /** Steps a CPU has left: for each string one to enter, one for each
      character and one to leave. */
  function Work(todo: seq<Call>): nat {
    if todo == [] then 0 else |todo[0].Text()| + 2 + Work(todo[1..])
  }

  function WorkLeft(c: Cpu): int {
    Work(c.todo) - match c.at case Outside => 0 case Inside(i) => i + 1
  }

  function AllLeft(cpus: seq<Cpu>): int {
    if cpus == [] then 0 else WorkLeft(cpus[0]) + AllLeft(cpus[1..])
  }

  lemma {:induction false} LeftUpdate(cpus: seq<Cpu>, p: nat, c: Cpu)
    requires p < |cpus|
    ensures AllLeft(cpus[p := c]) == AllLeft(cpus) - WorkLeft(cpus[p]) + WorkLeft(c)
  {
    hide WorkLeft;
    if p == 0 {
      assert cpus[0 := c][1..] == cpus[1..];
    } else {
      LeftUpdate(cpus[1..], p - 1, c);
      assert cpus[p := c][1..] == cpus[1..][p - 1 := c];
    }
  }

  /** A CPU that can do something: it is inside, or has a string and the lock is
      free. */
  predicate CanMove(s: State, p: nat)
    requires p < |s.cpus|
  {
    s.cpus[p].at.Inside? || (s.cpus[p].todo != [] && s.l == 0)
  }

  /** Its step leaves one step fewer to be done; any other step changes nothing. */
  lemma StepWorks(s: State, p: nat)
    requires p < |s.cpus| && Exclusive(s)
    ensures if CanMove(s, p) then AllLeft(Step(s, p).cpus) == AllLeft(s.cpus) - 1 else Step(s, p) == s
  {
    var c := s.cpus[p];
    assert InsideOk(c);
    LeftUpdate(s.cpus, p, Step(s, p).cpus[p]);
  }

  /** While a string is left to be printed some CPU can do something. */
  lemma SomeoneMoves(s: State) returns (p: nat)
    requires Exclusive(s) && !Finished(s)
    ensures p < |s.cpus| && CanMove(s, p)
  {
    if s.l == 0 {
      p :| 0 <= p < |s.cpus| && s.cpus[p].todo != [];
    } else {
      p :| 0 <= p < |s.cpus| && s.cpus[p].at.Inside?;
    }
  }

  lemma LeftAtLeastNone(s: State)
    requires Exclusive(s)
    ensures AllLeft(s.cpus) >= 0
  {
    LeftNone(s.cpus);
  }

  lemma {:induction false} LeftNone(cpus: seq<Cpu>)
    requires forall p :: 0 <= p < |cpus| ==> InsideOk(cpus[p])
    ensures AllLeft(cpus) >= 0
  {
    if cpus != [] {
      assert InsideOk(cpus[0]);
      LeftNone(cpus[1..]);
    }
  }

  /** From every state of every run a schedule leads to its end, with as many
      steps as there are left: nobody waits for ever for a lock that is not
      given back. */
  lemma {:induction false} CanFinish(programs: seq<seq<Call>>, schedule: seq<nat>) returns (more: seq<nat>)
    requires forall n :: 0 <= n < |schedule| ==> schedule[n] < |programs|
    ensures forall n :: 0 <= n < |schedule + more| ==> (schedule + more)[n] < |programs|
    ensures Finished(Run(Start(programs), schedule + more))
    ensures |more| <= AllLeft(Run(Start(programs), schedule).cpus)
    decreases AllLeft(Run(Start(programs), schedule).cpus)
  {
    hide Step, AllLeft, Exclusive, CanMove, Flat, Of;
    var s := Run(Start(programs), schedule);
    var h := RunSerial(programs, schedule);
    LeftAtLeastNone(s);
    if Finished(s) {
      more := [];
      assert schedule + [] == schedule;
    } else {
      var p := SomeoneMoves(s);
      StepWorks(s, p);
      assert (schedule + [p])[..|schedule|] == schedule;
      var rest := CanFinish(programs, schedule + [p]);
      more := [p] + rest;
      assert schedule + [p] + rest == schedule + more;
    }
  }

  // ---- on the screen

  lemma {:induction false} PutAllConcat(lines: seq<Console.Line>, a: seq<Console.Glyph>, b: seq<Console.Glyph>, w: nat)
    requires lines != []
    ensures Console.PutAll(lines, a + b, w) == Console.PutAll(Console.PutAll(lines, a, w), b, w)
    decreases |b|
  {
    if b == [] {
      assert a + b == a;
    } else {
      assert (a + b)[..|a + b| - 1] == a + b[..|b| - 1];
      PutAllConcat(lines, a, b[..|b| - 1], w);
    }
  }

  /** Printing the strings of a history one by one, each in its color. */
  function PrintEach(lines: seq<Console.Line>, h: History, w: nat): (r: seq<Console.Line>)
    requires lines != []
    ensures r != []
  {
    if h == [] then lines
    else Console.PutAll(PrintEach(lines, h[..|h| - 1], w), h[|h| - 1].1.Text(), w)
  }

  /** The interleaved characters leave the lines that whole strings printed one
      by one leave. */
  lemma {:induction false} ScreenIsSequential(lines: seq<Console.Line>, h: History, w: nat)
    requires lines != []
    ensures Console.PutAll(lines, Flat(h), w) == PrintEach(lines, h, w)
    decreases |h|
  {
    if h != [] {
      var init, x := h[..|h| - 1], h[|h| - 1].1;
      ScreenIsSequential(lines, init, w);
      PutAllConcat(lines, Flat(init), x.Text(), w);
    }
  }

  /** So when every CPU is done the lines on the screen are those of whole
      strings printed one after the other, each in its own color and each CPU's
      in its own order. */
  lemma FinishedScreen(programs: seq<seq<Call>>, schedule: seq<nat>, lines: seq<Console.Line>, w: nat) returns (h: History)
    requires forall n :: 0 <= n < |schedule| ==> schedule[n] < |programs|
    requires Finished(Run(Start(programs), schedule)) && lines != []
    ensures Console.PutAll(lines, Run(Start(programs), schedule).log, w) == PrintEach(lines, h, w)
    ensures forall p: nat :: p < |programs| ==> Of(h, p) == programs[p]
  {
    hide Run, Finished, PrintEach, Flat, Of;
    h := FinishedRun(programs, schedule);
    ScreenIsSequential(lines, h, w);
  }
}

/** The hash file of src/_build/create_kernel.py:78-85 and 392-395: one line a
    file, its path and a hash of 32 characters. */
module HashFile {
  const HASH: nat := 32

  function Line(e: (string, string)): string { e.0 + e.1 }

  function Write(items: seq<(string, string)>): string {
    if items == [] then "" else Line(items[0]) + "\n" + Write(items[1..])
  }

  /** A file read as text ends its lines at a newline or a carriage return. For
      the two together the empty line between them is skipped by its length. */
  predicate IsNewline(c: char) { c == '\n' || c == '\r' }

  /** Split at the ends of lines. */
  function Lines(s: string): (l: seq<string>)
    ensures |l| > 0
  {
    if s == "" then [""]
    else
      var rest := Lines(s[1..]);
      if IsNewline(s[0]) then [""] + rest else [[s[0]] + rest[0]] + rest[1..]
  }

  predicate IsSpace(c: char) { c == ' ' || '\t' <= c <= '\r' || '\U{1c}' <= c <= '\U{1f}' }

  function StripLeft(s: string): string {
    if s != "" && IsSpace(s[0]) then StripLeft(s[1..]) else s
  }

  function StripRight(s: string): string {
    if s != "" && IsSpace(s[|s| - 1]) then StripRight(s[..|s| - 1]) else s
  }

  function Strip(s: string): string { StripRight(StripLeft(s)) }

  /** The loop over the lines: short ones are skipped, a later line for the
      same path wins. */
  method Read(text: string) returns (m: map<string, string>)
    ensures m == Entries(Lines(text))
  {
    m := map[];
    var lines := Lines(text);
    for i := 0 to |lines|
      invariant m == Entries(lines[..i])
    {
      assert lines[..i + 1][..i] == lines[..i];
      var k := Strip(lines[i]);
      if |k| >= HASH + 1 {
        m := m[k[..|k| - HASH] := k[|k| - HASH..]];
      }
    }
    assert lines[..|lines|] == lines;
  }

  function Entries(lines: seq<string>): map<string, string> {
    if lines == [] then map[]
    else
      var m := Entries(lines[..|lines| - 1]);
      var k := Strip(lines[|lines| - 1]);
      if |k| < HASH + 1 then m else m[k[..|k| - HASH] := k[|k| - HASH..]]
  }

  ghost predicate OneLine(x: string) { forall c :: c in x ==> !IsNewline(c) }

  /** A path the file can hold: it is not empty, does not start with a space and
      is one line. */
  ghost predicate PathOk(p: string) { p != "" && !IsSpace(p[0]) && OneLine(p) }

  /** A hash is 32 characters without spaces. */
  ghost predicate HashOk(h: string) { |h| == HASH && forall c :: c in h ==> !IsSpace(c) }

  ghost predicate Item(e: (string, string)) { PathOk(e.0) && HashOk(e.1) }

  lemma {:induction false} FirstLine(x: string, rest: string)
    requires OneLine(x)
    ensures Lines(x + "\n" + rest) == [x] + Lines(rest)
  {
    var s := x + "\n" + rest;
    if x == "" {
      assert s[1..] == rest;
    } else {
      assert s[1..] == x[1..] + "\n" + rest;
      FirstLine(x[1..], rest);
      assert x == [x[0]] + x[1..];
    }
  }

  function AllLines(items: seq<(string, string)>): seq<string> {
    if items == [] then [""] else [Line(items[0])] + AllLines(items[1..])
  }

  lemma {:induction false} LinesOfWrite(items: seq<(string, string)>)
    requires forall e :: e in items ==> Item(e)
    ensures Lines(Write(items)) == AllLines(items)
  {
    if items != [] {
      var e := items[0];
      assert Item(e);
      assert OneLine(Line(e)) by {
        forall c | c in Line(e) ensures !IsNewline(c) {
          assert c in e.0 || !IsSpace(c);
        }
      }
      FirstLine(Line(e), Write(items[1..]));
      LinesOfWrite(items[1..]);
    }
  }

  lemma LineParses(e: (string, string))
    requires Item(e)
    ensures var k := Strip(Line(e));
            k == Line(e) && |k| >= HASH + 1 && k[..|k| - HASH] == e.0 && k[|k| - HASH..] == e.1
  {
    var k := Line(e);
    assert k[|k| - 1] == e.1[|e.1| - 1] && k[|k| - 1] in e.1;
  }

  /** The map the entries make, later ones winning. */
  function MapOf(items: seq<(string, string)>): map<string, string> {
    if items == [] then map[] else MapOf(items[..|items| - 1])[items[|items| - 1].0 := items[|items| - 1].1]
  }

  lemma TailPrefix(x: string, a: seq<string>, b: seq<string>, n: nat)
    requires n <= |a| && n <= |b| && a[..n] == b[..n]
    ensures ([x] + a)[..n + 1] == ([x] + b)[..n + 1]
  {
    assert ([x] + a)[..n + 1] == [x] + a[..n] && ([x] + b)[..n + 1] == [x] + b[..n];
  }

  lemma {:induction false} LinesSnoc(items: seq<(string, string)>, e: (string, string))
    ensures |AllLines(items)| == |items| + 1 && |AllLines(items + [e])| == |items| + 2
    ensures AllLines(items + [e])[|items|] == Line(e) && AllLines(items)[|items|] == ""
    ensures AllLines(items + [e])[..|items|] == AllLines(items)[..|items|]
  {
    if items == [] {
      assert [] + [e] == [e];
    } else {
      LinesSnoc(items[1..], e);
      assert (items + [e])[1..] == items[1..] + [e];
      TailPrefix(Line(items[0]), AllLines(items[1..] + [e]), AllLines(items[1..]), |items| - 1);
    }
  }

  lemma {:induction false} EntriesOfLines(items: seq<(string, string)>)
    requires forall e :: e in items ==> Item(e)
    ensures |AllLines(items)| == |items| + 1 && AllLines(items)[|items|] == ""
    ensures Entries(AllLines(items)[..|items|]) == MapOf(items)
    decreases |items|
  {
    if items != [] {
      var init, e := items[..|items| - 1], items[|items| - 1];
      assert items == init + [e];
      EntriesOfLines(init);
      LinesSnoc(init, e);
      LinesSnoc(items, e);
      LineParses(e);
      var l := AllLines(items)[..|items|];
      assert l[..|l| - 1] == AllLines(init)[..|init|];
    }
  }

  /** Whatever the text, only paths the file can hold are read from it. */
  lemma {:induction false} PathsRead(lines: seq<string>, p: string)
    requires forall l :: l in lines ==> OneLine(l)
    requires p in Entries(lines)
    ensures PathOk(p)
    decreases |lines|
  {
    if lines != [] {
      var l, k := lines[|lines| - 1], Strip(lines[|lines| - 1]);
      StripsLeft(l);
      StripsRight(StripLeft(l));
      if |k| < HASH + 1 || p != k[..|k| - HASH] {
        PathsRead(lines[..|lines| - 1], p);
      } else {
        assert p <= k <= StripLeft(l) && p[0] == StripLeft(l)[0];
        assert OneLine(l) by { assert l in lines; }
        forall c | c in p ensures c in l && !IsNewline(c) { assert c in k && c in StripLeft(l); }
      }
    }
  }

  lemma {:induction false} StripsLeft(s: string)
    ensures StripLeft(s) == "" || !IsSpace(StripLeft(s)[0])
    ensures forall c :: c in StripLeft(s) ==> c in s
  {
    if s != "" && IsSpace(s[0]) { StripsLeft(s[1..]); }
  }

  lemma {:induction false} StripsRight(s: string)
    ensures StripRight(s) <= s
  {
    if s != "" && IsSpace(s[|s| - 1]) { StripsRight(s[..|s| - 1]); }
  }

  lemma {:induction false} LinesAreSingle(s: string)
    ensures forall l :: l in Lines(s) ==> OneLine(l)
  {
    if s != "" {
      var rest := Lines(s[1..]);
      LinesAreSingle(s[1..]);
      assert rest[0] in rest && forall l :: l in rest[1..] ==> l in rest;
    }
  }

  lemma {:induction false} HasPath(items: seq<(string, string)>, e: (string, string))
    requires e in items
    ensures e.0 in MapOf(items)
    decreases |items|
  {
    if e != items[|items| - 1] { HasPath(items[..|items| - 1], e); }
  }

  /** What a build writes is what the next one reads, exactly when the file can
      hold every path. */
  lemma ReadsWhatWasWritten(items: seq<(string, string)>)
    requires forall e :: e in items ==> HashOk(e.1)
    ensures Entries(Lines(Write(items))) == MapOf(items) <==> forall e :: e in items ==> PathOk(e.0)
  {
    if forall e :: e in items ==> PathOk(e.0) {
      LinesOfWrite(items);
      EntriesOfLines(items);
      var l := AllLines(items);
      assert l[..|l| - 1] == l[..|items|];
    }
    if Entries(Lines(Write(items))) == MapOf(items) {
      LinesAreSingle(Write(items));
      forall e | e in items ensures PathOk(e.0) {
        HasPath(items, e);
        PathsRead(Lines(Write(items)), e.0);
      }
    }
  }
}

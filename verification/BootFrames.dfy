/** Which physical frames go where at start-up: the loader's frame picking
    (src/uefi/main.c:406-434) and the frame allocator's start-up
    (src/kernel/memory/pm.c:21-69). */
module BootFrames {
  import opened BootMap
  import opened Division

  // ---- the pages of a map

  ghost predicate InEntry(es: seq<Entry>, j: nat, p: nat) {
    j < |es| && es[j].Base() <= p < es[j].End()
  }

  /** p is the address of a page of the map. */
  ghost predicate InMap(es: seq<Entry>, p: nat) {
    p % PAGE_SIZE == 0 && exists j: nat :: InEntry(es, j, p)
  }

  /** Pages in the first j entries. */
  function PagesUpTo(es: seq<Entry>, j: nat): nat
    requires j <= |es|
  {
    if j == 0 then 0 else PagesUpTo(es, j - 1) + es[j - 1].l / PAGE_SIZE
  }

  function TotalPages(es: seq<Entry>): nat { PagesUpTo(es, |es|) }

  lemma {:induction false} PagesUpToMonotone(es: seq<Entry>, i: nat, j: nat)
    requires i <= j <= |es|
    ensures PagesUpTo(es, i) <= PagesUpTo(es, j)
    decreases j
  {
    if i < j { PagesUpToMonotone(es, i, j - 1); }
  }

  /** A cursor into the map: entry j, address k on a page boundary of it. */
  ghost predicate Cursor(es: seq<Entry>, j: nat, k: nat) {
    OrderlyMap(es) && j < |es| && es[j].Base() <= k <= es[j].End() && k % PAGE_SIZE == 0
  }

  /** Moving on to the next entry passes no page of the map. */
  lemma NextEntry(es: seq<Entry>, j: nat, p: nat)
    requires OrderlyMap(es) && j + 1 < |es| && InMap(es, p)
    ensures p < es[j].End() <==> p < es[j + 1].Base()
  {
    var i: nat :| InEntry(es, i, p);
    if i <= j {
      assert i < j ==> es[i].End() <= es[j].Base();
    } else {
      assert i > j + 1 ==> es[j + 1].End() <= es[i].Base();
      assert es[j].End() <= es[i].Base();
    }
  }

  lemma LastEntry(es: seq<Entry>, p: nat)
    requires OrderlyMap(es) && InMap(es, p)
    ensures es != [] && p < es[|es| - 1].End()
  {
    var i: nat :| InEntry(es, i, p);
    if i < |es| - 1 { assert es[i].End() <= es[|es| - 1].Base(); }
  }

  /** Pages of the map before the cursor. */
  function PagesBefore(es: seq<Entry>, j: nat, k: nat): nat
    requires j < |es| && es[j].Base() <= k
  {
    PagesUpTo(es, j) + (k - es[j].Base()) / PAGE_SIZE
  }

  lemma CursorOffset(es: seq<Entry>, j: nat, k: nat)
    requires Cursor(es, j, k)
    ensures PagesBefore(es, j, k) == PagesUpTo(es, j) + k / PAGE_SIZE - es[j].Base() / PAGE_SIZE
    ensures k < es[j].End() ==> PagesBefore(es, j, k) < TotalPages(es)
    ensures k == es[j].End() ==> PagesBefore(es, j, k) == PagesUpTo(es, j + 1)
  {
    var a, b := k / PAGE_SIZE, es[j].Base() / PAGE_SIZE;
    assert k == a * PAGE_SIZE && es[j].Base() == b * PAGE_SIZE;
    QuotientUnique(k - es[j].Base(), PAGE_SIZE, a - b, 0);
    PagesUpToMonotone(es, j + 1, |es|);
  }

  /** The next page address of the map after k, within entry j. */
  lemma NextPage(es: seq<Entry>, j: nat, k: nat, p: nat)
    requires Cursor(es, j, k) && k < es[j].End() && p % PAGE_SIZE == 0
    ensures InMap(es, k) && k + PAGE_SIZE <= es[j].End() && (k + PAGE_SIZE) % PAGE_SIZE == 0
    ensures p < k + PAGE_SIZE <==> p <= k
  {
    assert InEntry(es, j, k);
    var a, b, c := k / PAGE_SIZE, es[j].Base() / PAGE_SIZE, es[j].l / PAGE_SIZE;
    assert es[j].End() == (b + c) * PAGE_SIZE;
    QuotientUnique(k + PAGE_SIZE, PAGE_SIZE, a + 1, 0);
    assert p == p / PAGE_SIZE * PAGE_SIZE;
  }

  // ---- walking the pages of a map

  /** Entry j and page address k of the map; behind the last page j is the
      number of entries. */
  datatype Position = Position(j: nat, k: nat)

  /** The first entry from j on, past those of ACPI tables if skip. */
  function EntryFrom(es: seq<Entry>, j: nat, skip: bool): (i: nat)
    requires j <= |es|
    ensures j <= i <= |es| && (i < |es| && skip ==> es[i].Acpi() == 0) && (!skip ==> i == j)
    ensures forall k :: j <= k < i ==> es[k].Acpi() == 1
    decreases |es| - j
  {
    if j == |es| || !skip || es[j].Acpi() == 0 then j else EntryFrom(es, j + 1, skip)
  }

  /** Where entry j at address k stands once it is off the end of the entry. */
  function Settled(es: seq<Entry>, j: nat, k: nat, skip: bool): Position
    requires j < |es|
  {
    if k < es[j].End() then Position(j, k)
    else
      var i := EntryFrom(es, j + 1, skip);
      Position(i, if i < |es| then es[i].Base() else 0)
  }

  /** The place n pages on from p. */
  function Onward(es: seq<Entry>, p: Position, n: nat, skip: bool): (q: Position)
  {
    if n == 0 then p
    else
      var q := Onward(es, p, n - 1, skip);
      if q.j < |es| then Settled(es, q.j, q.k + PAGE_SIZE, skip) else q
  }

  /** Pages of the entries from j on that hold no ACPI tables. */
  function UsableFrom(es: seq<Entry>, j: nat): nat
    requires j <= |es|
    decreases |es| - j
  {
    if j == |es| then 0 else UsableFrom(es, j + 1) + if es[j].Acpi() == 0 then es[j].l / PAGE_SIZE else 0
  }

  /** Usable pages from p on: the rest of its entry, and the later entries
      without ACPI tables. */
  function Remaining(es: seq<Entry>, p: Position): nat
    requires p.j < |es| && p.k <= es[p.j].End()
  {
    (es[p.j].End() - p.k) / PAGE_SIZE + UsableFrom(es, p.j + 1)
  }

  lemma {:induction false} UsableSkips(es: seq<Entry>, j: nat)
    requires j <= |es|
    ensures var i := EntryFrom(es, j, true);
            UsableFrom(es, j) == if i < |es| then es[i].l / PAGE_SIZE + UsableFrom(es, i + 1) else 0
    decreases |es| - j
  {
    if j < |es| && es[j].Acpi() == 1 { UsableSkips(es, j + 1); }
  }

  /** A page on, one usable page fewer remains. */
  lemma RemainingStep(es: seq<Entry>, j: nat, k: nat)
    requires Cursor(es, j, k) && k < es[j].End()
    ensures var q := Settled(es, j, k + PAGE_SIZE, true);
            && (q.j < |es| ==> Cursor(es, q.j, q.k) && q.k < es[q.j].End())
            && Remaining(es, Position(j, k)) == 1 + if q.j < |es| then Remaining(es, q) else 0
  {
    hide OrderlyMap, UsableFrom, EntryFrom;
    SettledCursor(es, j, k);
    UsableSkips(es, j + 1);
    var q := Settled(es, j, k + PAGE_SIZE, true);
    if q.j != j && q.j < |es| { WholeEntry(es, q.j); }
  }

  lemma WholeEntry(es: seq<Entry>, i: nat)
    requires OrderlyMap(es) && i < |es|
    ensures Cursor(es, i, es[i].Base()) && es[i].Base() < es[i].End() && es[i].End() - es[i].Base() == es[i].l
  {
  }

  lemma SettledCursor(es: seq<Entry>, j: nat, k: nat)
    requires Cursor(es, j, k) && k < es[j].End()
    ensures k + PAGE_SIZE <= es[j].End() && Cursor(es, j, k + PAGE_SIZE)
    ensures (es[j].End() - k) / PAGE_SIZE == (es[j].End() - (k + PAGE_SIZE)) / PAGE_SIZE + 1
    ensures es[j].End() == k + PAGE_SIZE ==> (es[j].End() - k) / PAGE_SIZE == 1
  {
    hide OrderlyMap;
    NextPage(es, j, k, k);
    var rest := es[j].End() - (k + PAGE_SIZE);
    assert rest % PAGE_SIZE == 0 by { WholeRest(es, j, k + PAGE_SIZE); }
    QuotientUnique(rest + PAGE_SIZE, PAGE_SIZE, rest / PAGE_SIZE + 1, 0);
  }

  /** There is a page n on exactly when more than n usable ones remain. */
  lemma {:induction false} OnwardWithin(es: seq<Entry>, p: Position, n: nat)
    requires Cursor(es, p.j, p.k) && p.k < es[p.j].End()
    ensures var q := Onward(es, p, n, true);
            && (q.j < |es| <==> Remaining(es, p) > n)
            && (q.j < |es| ==> Cursor(es, q.j, q.k) && q.k < es[q.j].End() && Remaining(es, q) == Remaining(es, p) - n)
  {
    hide Remaining, Settled;
    if n == 0 {
      RemainingStep(es, p.j, p.k);
    } else {
      OnwardWithin(es, p, n - 1);
      var q := Onward(es, p, n - 1, true);
      if q.j < |es| {
        RemainingStep(es, q.j, q.k);
        var t := Onward(es, p, n, true);
        if t.j < |es| { RemainingStep(es, t.j, t.k); }
      }
    }
  }

  lemma WholeRest(es: seq<Entry>, j: nat, k: nat)
    requires Cursor(es, j, k)
    ensures (es[j].End() - k) % PAGE_SIZE == 0
  {
    var a, b, c := k / PAGE_SIZE, es[j].Base() / PAGE_SIZE, es[j].l / PAGE_SIZE;
    assert es[j].End() - k == (b + c - a) * PAGE_SIZE;
    QuotientUnique(es[j].End() - k, PAGE_SIZE, b + c - a, 0);
  }

  ghost predicate Ascending(s: seq<nat>) {
    forall i, j :: 0 <= i < j < |s| ==> s[i] < s[j]
  }

  /** The frames are the pages of the map below k, in order. */
  ghost predicate PickedBelow(es: seq<Entry>, frames: seq<nat>, k: nat) {
    && Ascending(frames)
    && (forall p: nat :: p in frames <==> InMap(es, p) && p < k)
  }

  lemma PickOne(es: seq<Entry>, frames: seq<nat>, j: nat, k: nat)
    requires Cursor(es, j, k) && k < es[j].End() && PickedBelow(es, frames, k)
    ensures PickedBelow(es, frames + [k], k + PAGE_SIZE) && Cursor(es, j, k + PAGE_SIZE)
    ensures PagesBefore(es, j, k + PAGE_SIZE) == PagesBefore(es, j, k) + 1
  {
    NextPage(es, j, k, k);
    CursorOffset(es, j, k);
    CursorOffset(es, j, k + PAGE_SIZE);
    var s := frames + [k];
    forall a, b | 0 <= a < b < |s| ensures s[a] < s[b] {
      if b == |frames| { assert frames[a] in frames; }
    }
    forall p: nat ensures p in s <==> InMap(es, p) && p < k + PAGE_SIZE {
      if InMap(es, p) { NextPage(es, j, k, p); }
      assert p in s <==> p in frames || p == k;
    }
  }

  lemma SkipToNext(es: seq<Entry>, frames: seq<nat>, j: nat, k: nat)
    requires Cursor(es, j, k) && k == es[j].End() && PickedBelow(es, frames, k) && j + 1 < |es|
    ensures PickedBelow(es, frames, es[j + 1].Base()) && Cursor(es, j + 1, es[j + 1].Base())
    ensures PagesBefore(es, j + 1, es[j + 1].Base()) == PagesBefore(es, j, k)
  {
    CursorOffset(es, j, k);
    forall p: nat ensures p in frames <==> InMap(es, p) && p < es[j + 1].Base() {
      if InMap(es, p) { NextEntry(es, j, p); }
    }
  }

  datatype Status = Ok | OutOfMemory | AssertionFailed

  /** Moves the cursor off the end of an entry (main.c:412-419, 425-432). */
  method Settle(es: seq<Entry>, j: nat, k: nat, ghost frames: seq<nat>) returns (ok: bool, j': nat, k': nat)
    requires Cursor(es, j, k) && PickedBelow(es, frames, k)
    ensures !ok ==> PagesBefore(es, j, k) == TotalPages(es)
    ensures ok ==> Cursor(es, j', k') && k' < es[j'].End() && PickedBelow(es, frames, k')
    ensures ok ==> PagesBefore(es, j', k') == PagesBefore(es, j, k) < TotalPages(es)
    ensures ok ==> Position(j', k') == Settled(es, j, k, false)
  {
    ok, j', k' := true, j, k;
    CursorOffset(es, j, k);
    if k' >= es[j'].End() {
      j' := j' + 1;
      if j' >= |es| {
        return false, j', k';
      }
      k' := es[j'].Base();
      SkipToNext(es, frames, j, k);
      CursorOffset(es, j', k');
    }
  }

  /** Where the kernel's own frames start once the loader has n. */
  function AfterLoader(es: seq<Entry>, n: nat): Position
    requires es != []
  {
    Onward(es, Position(0, es[0].Base()), n, false)
  }

  /** Picks the first frames of the map for the kernel and leaves the next one
      as the first of the kernel's own; fails when the map has no page left
      for that. */
  method PickFrames(es: seq<Entry>, frames: array<nat>) returns (r: Status, nPa: nat, nPaIdx: nat)
    requires OrderlyMap(es) && es != []
    modifies frames
    ensures r == if frames.Length < TotalPages(es) then Ok else OutOfMemory
    ensures r == Ok ==> PickedBelow(es, frames[..], nPa) && Cursor(es, nPaIdx, nPa) && nPa < es[nPaIdx].End()
    ensures r == Ok ==> Position(nPaIdx, nPa) == AfterLoader(es, frames.Length)
  {
    hide PickedBelow, InMap, Ascending, OrderlyMap, PagesBefore, TotalPages, Settled;
    var i: nat, j: nat, k: nat := 0, 0, es[0].Base();
    nPa, nPaIdx := 0, 0;
    PickStart(es);
    var ok;
    while i < frames.Length
      invariant i <= frames.Length && Cursor(es, j, k)
      invariant PickedBelow(es, frames[..i], k)
      invariant i == PagesBefore(es, j, k)
      invariant Settled(es, j, k, false) == AfterLoader(es, i)
    {
      ok, j, k := Settle(es, j, k, frames[..i]);
      if !ok {
        return OutOfMemory, 0, 0;
      }
      PickOne(es, frames[..i], j, k);
      frames[i] := k;
      assert frames[..i + 1] == frames[..i] + [k];
      i := i + 1;
      k := k + PAGE_SIZE;
    }
    assert frames[..i] == frames[..];
    ok, j, k := Settle(es, j, k, frames[..]);
    if !ok {
      return OutOfMemory, 0, 0;
    }
    r, nPa, nPaIdx := Ok, k, j;
  }

  lemma PickStart(es: seq<Entry>)
    requires OrderlyMap(es) && es != []
    ensures Cursor(es, 0, es[0].Base()) && PickedBelow(es, [], es[0].Base()) && PagesBefore(es, 0, es[0].Base()) == 0
    ensures Settled(es, 0, es[0].Base(), false) == AfterLoader(es, 0)
  {
    forall p: nat | InMap(es, p) ensures p >= es[0].Base() {
      var i: nat :| InEntry(es, i, p);
      if i > 0 { assert es[0].End() <= es[i].Base(); }
    }
  }
}

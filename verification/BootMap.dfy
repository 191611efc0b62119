/** The loader's memory map: the two passes over the firmware's descriptors
    that coalesce them into entries (src/uefi/main.c:242-296). */
module BootMap {
  import opened Division

  const PAGE_SIZE: nat := 4096
  const MIN_MEM_ADDRESS: nat := 0x10_0000
  const TWO_64: nat := 0x1_0000_0000_0000_0000

  datatype MemoryType =
    | ConventionalMemory
    | BootServicesCode | BootServicesData
    | LoaderCode | LoaderData
    | RuntimeServicesCode | RuntimeServicesData
    | ACPIReclaimMemory
    | OtherMemory

  datatype Descriptor = Descriptor(kind: MemoryType, start: nat, pages: nat) {
    function Bytes(): nat { pages * PAGE_SIZE }
    function End(): nat { start + Bytes() }
    predicate Eligible() { start >= MIN_MEM_ADDRESS && !kind.OtherMemory? }
    function Tag(): nat { if kind.ACPIReclaimMemory? then 1 else 0 }
  }

  /** b holds the base address with the ACPI tag in bit 0; l the length. */
  datatype Entry = Entry(b: nat, l: nat) {
    function Base(): nat { b - b % 2 }
    function Acpi(): nat { b % 2 }
    function End(): nat { Base() + l }
  }

  /** What firmware guarantees of every descriptor: page-aligned and within the
      64-bit address space. */
  predicate WellFormed(ds: seq<Descriptor>) {
    forall d :: d in ds ==> d.start % PAGE_SIZE == 0 && d.End() < TWO_64
  }

  // ---- what the two passes compute

  /** The descriptor continues the entry: same tag, starting where it ends. */
  predicate Continues(e: Entry, d: Descriptor) {
    e.Acpi() == d.Tag() && e.End() == d.start
  }

  function Add(es: seq<Entry>, d: Descriptor): seq<Entry> {
    if !d.Eligible() then es
    else if es != [] && Continues(es[|es| - 1], d) then
      es[|es| - 1 := es[|es| - 1].(l := es[|es| - 1].l + d.Bytes())]
    else es + [Entry(d.start + d.Tag(), d.Bytes())]
  }

  /** The coalesced map of a descriptor list. */
  function Coalesce(ds: seq<Descriptor>): seq<Entry> {
    if ds == [] then [] else Add(Coalesce(ds[..|ds| - 1]), ds[|ds| - 1])
  }

  lemma CoalesceStep(ds: seq<Descriptor>, i: nat)
    requires i < |ds|
    ensures Coalesce(ds[..i + 1]) == Add(Coalesce(ds[..i]), ds[i])
  {
    assert ds[..i + 1][..i] == ds[..i];
  }

  lemma TaggedBase(start: nat, t: nat)
    requires start % PAGE_SIZE == 0 && t < 2
    ensures (start + t) % 2 == t
    ensures Entry(start + t, 0).Base() == start
  {
    QuotientUnique(start + t, 2, start / PAGE_SIZE * 2048, t);
  }

  /** What an eligible descriptor does to the end of the map. */
  lemma AddLast(es: seq<Entry>, d: Descriptor)
    requires d.Eligible() && d.start % PAGE_SIZE == 0
    ensures var r := Add(es, d);
            && |r| == |es| + (if es != [] && Continues(es[|es| - 1], d) then 0 else 1)
            && r[|r| - 1].Acpi() == d.Tag() && r[|r| - 1].End() == d.End()
  {
    TaggedBase(d.start, d.Tag());
  }

  /** The counting pass. */
  method CountEntries(ds: seq<Descriptor>) returns (sz: nat)
    requires WellFormed(ds)
    ensures sz == |Coalesce(ds)|
  {
    sz := 0;
    hide Coalesce, Add;
    var lt: nat, le: nat := 0, TWO_64 - 1;
    for i := 0 to |ds|
      invariant sz == |Coalesce(ds[..i])|
      invariant if sz == 0 then lt == 0 && le == TWO_64 - 1
                else lt == Coalesce(ds[..i])[sz - 1].Acpi() && le == Coalesce(ds[..i])[sz - 1].End()
    {
      CoalesceStep(ds, i);
      var d := ds[i];
      if !d.Eligible() {
        assert Add(Coalesce(ds[..i]), d) == Coalesce(ds[..i]) by { AddIneligible(Coalesce(ds[..i]), d); }
      } else {
        AddLast(Coalesce(ds[..i]), d);
        if lt != d.Tag() || le != d.start {
          sz := sz + 1;
          lt := d.Tag();
        }
        le := d.start + d.pages * PAGE_SIZE;
      }
    }
    assert ds[..|ds|] == ds;
  }

  function TotalBytes(ds: seq<Descriptor>): nat {
    if ds == [] then 0
    else TotalBytes(ds[..|ds| - 1]) + (if ds[|ds| - 1].Eligible() then ds[|ds| - 1].Bytes() else 0)
  }

  lemma TotalBytesStep(ds: seq<Descriptor>, i: nat)
    requires i < |ds|
    ensures TotalBytes(ds[..i + 1]) == TotalBytes(ds[..i]) + (if ds[i].Eligible() then ds[i].Bytes() else 0)
  {
    assert ds[..i + 1][..i] == ds[..i];
  }

  /** Adds one eligible descriptor to the array (main.c:279-292). Entry 0 still
      being zero tells the first one. */
  method Place(d: Descriptor, mmap: array<Entry>, j: nat, lt: nat, le: nat, ghost es: seq<Entry>)
    returns (j': nat, lt': nat, le': nat)
    requires d.Eligible() && d.start % PAGE_SIZE == 0
    requires Filled(mmap[..], es, j, lt, le) && |Add(es, d)| <= mmap.Length
    modifies mmap
    ensures Filled(mmap[..], Add(es, d), j', lt', le')
  {
    ghost var was := mmap[..];
    TaggedBase(d.start, d.Tag());
    j', lt' := j, lt;
    if j == 0 && mmap[0].b == 0 && mmap[0].l == 0 {
      mmap[0] := mmap[0].(b := d.start + d.Tag());
      lt' := d.Tag();
    } else if lt != d.Tag() || le != d.start {
      j' := j + 1;
      mmap[j'] := Entry(d.start + d.Tag(), 0);
      lt' := d.Tag();
    }
    mmap[j'] := mmap[j'].(l := mmap[j'].l + d.pages * PAGE_SIZE);
    le' := d.start + d.pages * PAGE_SIZE;
    FilledStep(was, es, d, j', mmap[..]);
  }

  /** The filling pass, into an array of the size the counting pass gave. */
  method FillEntries(ds: seq<Descriptor>, mmap: array<Entry>) returns (tm: nat)
    requires WellFormed(ds) && mmap.Length == |Coalesce(ds)| > 0
    modifies mmap
    ensures mmap[..] == Coalesce(ds) && tm == TotalBytes(ds)
  {
    hide Coalesce, TotalBytes, Add, Filled;
    tm := 0;
    var j: nat, lt: nat, le: nat := 0, 0, 0;
    mmap[0] := Entry(0, 0);
    FilledStart(mmap[..], ds);
    for i := 0 to |ds|
      invariant tm == TotalBytes(ds[..i])
      invariant Filled(mmap[..], Coalesce(ds[..i]), j, lt, le)
    {
      CoalesceStep(ds, i);
      TotalBytesStep(ds, i);
      CoalesceGrows(ds, i + 1);
      var d := ds[i];
      if d.Eligible() {
        j, lt, le := Place(d, mmap, j, lt, le, Coalesce(ds[..i]));
        tm := tm + d.pages * PAGE_SIZE;
      } else {
        AddIneligible(Coalesce(ds[..i]), d);
      }
    }
    assert ds[..|ds|] == ds;
    FilledEnd(mmap[..], Coalesce(ds), j, lt, le);
  }

  lemma FilledStart(m: seq<Entry>, ds: seq<Descriptor>)
    requires m != [] && m[0] == Entry(0, 0)
    ensures TotalBytes(ds[..0]) == 0 && Filled(m, Coalesce(ds[..0]), 0, 0, 0)
  {
  }

  lemma FilledEnd(m: seq<Entry>, es: seq<Entry>, j: nat, lt: nat, le: nat)
    requires Filled(m, es, j, lt, le) && |m| == |es|
    ensures m == es
  {
    assert m[..|m|] == m;
  }

  lemma AddIneligible(es: seq<Entry>, d: Descriptor)
    requires !d.Eligible()
    ensures Add(es, d) == es
  {
  }

  /** The array holds the entries so far, the last at index j; before the first
      entry it holds a zero there. */
  ghost predicate Filled(m: seq<Entry>, es: seq<Entry>, j: nat, lt: nat, le: nat) {
    if es == [] then m != [] && m[0] == Entry(0, 0) && j == 0 && lt == 0 && le == 0
    else j == |es| - 1 < |m| && m[..|es|] == es && lt == es[j].Acpi() && le == es[j].End() && m[0].b > 0
  }

  lemma FilledStep(m: seq<Entry>, es: seq<Entry>, d: Descriptor, j: nat, m': seq<Entry>)
    requires d.Eligible() && d.start % PAGE_SIZE == 0 && |m'| == |m| && j < |m|
    requires j == |Add(es, d)| - 1
    requires |es| <= |m| && m[..|es|] == es && (es != [] ==> m[0].b > 0)
    requires m'[j] == Add(es, d)[j] && forall k :: 0 <= k < j ==> m'[k] == m[k]
    ensures m'[..j + 1] == Add(es, d) && m'[0].b > 0
  {
  }

  lemma {:induction false} CoalesceGrows(ds: seq<Descriptor>, i: nat)
    requires i <= |ds|
    ensures |Coalesce(ds[..i])| <= |Coalesce(ds)|
    decreases |ds| - i
  {
    if i < |ds| {
      CoalesceStep(ds, i);
      CoalesceGrows(ds, i + 1);
    } else {
      assert ds[..i] == ds;
    }
  }

  // ---- what the coalesced map means

  ghost predicate EntryCovers(es: seq<Entry>, x: nat, t: nat) {
    exists i :: 0 <= i < |es| && es[i].Base() <= x < es[i].End() && es[i].Acpi() == t
  }

  ghost predicate DescriptorCovers(ds: seq<Descriptor>, x: nat, t: nat) {
    exists i :: 0 <= i < |ds| && Holds(ds[i], x, t)
  }

  /** Address x lies in a descriptor above the first megabyte of one of the
      kinds taken, and t is 1 exactly for reclaimable ACPI tables. */
  ghost predicate Holds(d: Descriptor, x: nat, t: nat) {
    && d.start >= 0x10_0000 && d.kind != OtherMemory && d.start <= x < d.start + d.pages * 4096
    && t == if d.kind == ACPIReclaimMemory then 1 else 0
  }

  lemma AddCovers(es: seq<Entry>, d: Descriptor, x: nat, t: nat)
    requires d.Eligible() && d.start % PAGE_SIZE == 0
    ensures EntryCovers(Add(es, d), x, t) <==>
            EntryCovers(es, x, t) || (d.start <= x < d.End() && d.Tag() == t)
  {
    hide EntryCovers;
    if es != [] && Continues(es[|es| - 1], d) {
      var init, e := es[..|es| - 1], es[|es| - 1];
      assert es == init + [e] && Add(es, d) == init + [e.(l := e.l + d.Bytes())];
      CoversOneMore(init, e, x, t);
      CoversOneMore(init, e.(l := e.l + d.Bytes()), x, t);
    } else {
      TaggedBase(d.start, d.Tag());
      CoversOneMore(es, Entry(d.start + d.Tag(), d.Bytes()), x, t);
    }
  }

  lemma CoversOneMore(es: seq<Entry>, e: Entry, x: nat, t: nat)
    ensures EntryCovers(es + [e], x, t) <==> EntryCovers(es, x, t) || (e.Base() <= x < e.End() && e.Acpi() == t)
  {
    hide Entry.Base, Entry.End, Entry.Acpi;
    var r := es + [e];
    assert r[|es|] == e;
    if EntryCovers(es, x, t) {
      var i :| 0 <= i < |es| && es[i].Base() <= x < es[i].End() && es[i].Acpi() == t;
      assert r[i] == es[i];
    }
    if EntryCovers(r, x, t) {
      var i :| 0 <= i < |r| && r[i].Base() <= x < r[i].End() && r[i].Acpi() == t;
      if i < |es| { assert es[i] == r[i]; }
    }
  }

  /** The entries cover exactly the eligible memory, with its ACPI tag. */
  lemma {:induction false} CoalesceCovers(ds: seq<Descriptor>, x: nat, t: nat)
    requires WellFormed(ds)
    ensures EntryCovers(Coalesce(ds), x, t) <==> DescriptorCovers(ds, x, t)
    decreases |ds|
  {
    if ds != [] {
      var init, d := ds[..|ds| - 1], ds[|ds| - 1];
      CoalesceCovers(init, x, t);
      if d.Eligible() { AddCovers(Coalesce(init), d, x, t); }
      assert Holds(d, x, t) <==> d.Eligible() && d.start <= x < d.End() && d.Tag() == t;
      hide Holds;
      if i :| 0 <= i < |init| && Holds(init[i], x, t) { assert ds[i] == init[i]; }
      if i :| 0 <= i < |ds| && Holds(ds[i], x, t) { assert i < |ds| - 1 ==> init[i] == ds[i]; }
    }
  }

  function EntryBytes(es: seq<Entry>): nat {
    if es == [] then 0 else EntryBytes(es[..|es| - 1]) + es[|es| - 1].l
  }

  /** No byte of eligible memory is lost or counted twice. */
  lemma {:induction false} CoalesceConservesBytes(ds: seq<Descriptor>)
    requires WellFormed(ds)
    ensures EntryBytes(Coalesce(ds)) == TotalBytes(ds)
    decreases |ds|
  {
    if ds != [] {
      var init, d := ds[..|ds| - 1], ds[|ds| - 1];
      CoalesceConservesBytes(init);
      var es := Coalesce(init);
      if d.Eligible() {
        var r := Add(es, d);
        if es != [] && Continues(es[|es| - 1], d) {
          assert r[..|r| - 1] == es[..|es| - 1];
        } else {
          assert r[..|r| - 1] == es;
        }
      }
    }
  }

  /** Neighbouring entries that could still be merged. */
  predicate Mergeable(e: Entry, f: Entry) {
    e.Acpi() == f.Acpi() && e.End() == f.Base()
  }

  lemma {:induction false} CoalesceIsMaximal(ds: seq<Descriptor>)
    requires WellFormed(ds)
    ensures forall i {:trigger Coalesce(ds)[i]} :: 0 < i < |Coalesce(ds)| ==> !Mergeable(Coalesce(ds)[i - 1], Coalesce(ds)[i])
    decreases |ds|
  {
    if ds != [] {
      CoalesceIsMaximal(ds[..|ds| - 1]);
      var d := ds[|ds| - 1];
      if d.Eligible() {
        TaggedBase(d.start, d.Tag());
        AddIsMaximal(Coalesce(ds[..|ds| - 1]), d);
      }
    }
  }

  lemma AddIsMaximal(es: seq<Entry>, d: Descriptor)
    requires d.Eligible() && Entry(d.start + d.Tag(), 0).Base() == d.start && (d.start + d.Tag()) % 2 == d.Tag()
    requires forall i {:trigger es[i]} :: 0 < i < |es| ==> !Mergeable(es[i - 1], es[i])
    ensures forall i {:trigger Add(es, d)[i]} :: 0 < i < |Add(es, d)| ==> !Mergeable(Add(es, d)[i - 1], Add(es, d)[i])
  {
    var r := Add(es, d);
    forall i {:trigger r[i]} | 0 < i < |r| ensures !Mergeable(r[i - 1], r[i]) {
      if i < |es| { assert !Mergeable(es[i - 1], es[i]); }
    }
  }

  // ---- ascending maps

  /** Firmware lists memory in ascending order, without overlap. */
  ghost predicate AscendingDescriptors(ds: seq<Descriptor>) {
    && (forall i :: 0 <= i < |ds| ==> ds[i].pages > 0)
    && forall i, j :: 0 <= i < j < |ds| ==> ds[i].End() <= ds[j].start
  }

  /** Entries start on a page, are whole pages, lie above the first megabyte and
      ascend without overlap. */
  ghost predicate OrderlyMap(es: seq<Entry>) {
    && (forall i :: 0 <= i < |es| ==>
          es[i].Base() % PAGE_SIZE == 0 && es[i].l % PAGE_SIZE == 0 && es[i].l > 0 && es[i].Base() >= MIN_MEM_ADDRESS)
    && forall i, j :: 0 <= i < j < |es| ==> es[i].End() <= es[j].Base()
  }

  /** Entries keep their order, and end where the descriptor does at most. */
  lemma AddOrdered(es: seq<Entry>, d: Descriptor)
    requires d.start % PAGE_SIZE == 0 && d.pages > 0
    requires forall i, j :: 0 <= i < j < |es| ==> es[i].End() <= es[j].Base()
    requires forall i :: 0 <= i < |es| ==> es[i].End() <= d.start
    ensures var r := Add(es, d);
            && (forall i, j :: 0 <= i < j < |r| ==> r[i].End() <= r[j].Base())
            && forall i :: 0 <= i < |r| ==> r[i].End() <= d.End()
  {
    TaggedBase(d.start, d.Tag());
    var r := Add(es, d);
    forall i, j | 0 <= i < j < |r| ensures r[i].End() <= r[j].Base() {
      if j < |es| { assert es[i].End() <= es[j].Base(); }
    }
  }

  /** Entries stay whole pages above the first megabyte. */
  lemma AddWhole(es: seq<Entry>, d: Descriptor)
    requires d.Eligible() && d.start % PAGE_SIZE == 0 && d.pages > 0
    requires forall i :: 0 <= i < |es| ==>
               es[i].Base() % PAGE_SIZE == 0 && es[i].l % PAGE_SIZE == 0 && es[i].l > 0 && es[i].Base() >= MIN_MEM_ADDRESS
    ensures var r := Add(es, d);
            forall i :: 0 <= i < |r| ==>
              r[i].Base() % PAGE_SIZE == 0 && r[i].l % PAGE_SIZE == 0 && r[i].l > 0 && r[i].Base() >= MIN_MEM_ADDRESS
  {
    TaggedBase(d.start, d.Tag());
    WholePages(0, d);
    if es != [] { WholePages(es[|es| - 1].l, d); }
  }

  lemma WholePages(l: nat, d: Descriptor)
    requires l % PAGE_SIZE == 0
    ensures (l + d.Bytes()) % PAGE_SIZE == 0
  {
    QuotientUnique(l + d.Bytes(), PAGE_SIZE, l / PAGE_SIZE + d.pages, 0);
  }

  lemma AddOrderly(es: seq<Entry>, d: Descriptor)
    requires OrderlyMap(es) && d.Eligible() && d.start % PAGE_SIZE == 0 && d.pages > 0
    requires forall i :: 0 <= i < |es| ==> es[i].End() <= d.start
    ensures OrderlyMap(Add(es, d))
    ensures forall i :: 0 <= i < |Add(es, d)| ==> Add(es, d)[i].End() <= d.End()
  {
    hide Add;
    AddOrdered(es, d);
    AddWhole(es, d);
  }

  /** An ascending firmware list coalesces to an orderly map. */
  lemma {:induction false} CoalesceOrderly(ds: seq<Descriptor>)
    requires WellFormed(ds) && AscendingDescriptors(ds)
    ensures OrderlyMap(Coalesce(ds))
    ensures forall i :: ds != [] && 0 <= i < |Coalesce(ds)| ==> Coalesce(ds)[i].End() <= ds[|ds| - 1].End()
    decreases |ds|
  {
    if ds != [] {
      var init, d := ds[..|ds| - 1], ds[|ds| - 1];
      CoalesceOrderly(init);
      var es := Coalesce(init);
      forall i | 0 <= i < |es| ensures es[i].End() <= d.start {
        if init != [] { assert init[|init| - 1].End() <= d.start; }
      }
      if d.Eligible() { AddOrderly(es, d); }
    }
  }
}

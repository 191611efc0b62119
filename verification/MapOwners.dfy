/** Who owns which page of the memory map once the loader, the frame allocator
    and the range manager have taken theirs (src/uefi/main.c:406-434,
    src/kernel/memory/pm.c:21-69, src/kernel/memory/vm.c:45-53). */
module MapOwners {
  import opened BootMap
  import opened BootFrames
  import opened FrameStartup
  import opened BootLoader
  import opened Division
  import opened Startup

  /** Page addresses: the loader's, in the order of the image's pages; the frame
      bitmap's; the ownership bitmap's. And the frames that are free. */
  datatype Accounts = Accounts(loader: seq<nat>, bitmap: seq<nat>, own: seq<nat>, free: set<nat>)

  datatype Owner = Image | FrameBitmap | OwnershipBitmap | AcpiLeft | Tables | Free

  ghost predicate Owns(es: seq<Entry>, s: Split, a: Accounts, o: Owner, p: nat) {
    match o
    case Image => p in a.loader
    case FrameBitmap => p in a.bitmap
    case OwnershipBitmap => p in a.own
    case AcpiLeft => SkippedPage(es, s, p)
    case Tables => WindowFrame(es, s, p)
    case Free => p % PAGE_SIZE == 0 && p / PAGE_SIZE in a.free
  }

  /** A page of the tables that is also handed out: the base of a later entry. */
  ghost predicate Shared(es: seq<Entry>, s: Split, p: nat) { WindowFrame(es, s, p) && LaterBase(es, s.idx1, p) }

  /** A page of the map has an owner, any other address has none, and there is
      only one, but for the shared pages of the tables, which are also free or
      the ownership bitmap's. */
  ghost predicate AccountedAt(es: seq<Entry>, s: Split, a: Accounts, p: nat) {
    && (InMap(es, p) <==> exists o :: Owns(es, s, a, o, p))
    && (forall o, o' :: Owns(es, s, a, o, p) && Owns(es, s, a, o', p) && o != o' ==> Shared(es, s, p) && Tables in {o, o'})
    && (Shared(es, s, p) ==> Owns(es, s, a, OwnershipBitmap, p) || Owns(es, s, a, Free, p))
  }

  /** So it is with every address, and no page is taken twice by its owner. */
  ghost predicate Accounted(es: seq<Entry>, s: Split, a: Accounts) {
    && (forall p: nat :: AccountedAt(es, s, a, p))
    && Ascending(a.loader) && Ascending(a.bitmap) && Ascending(a.own)
  }

  /** What pm_init leaves is such an account. */
  lemma StartAccounted(es: seq<Entry>, s: Split, loader: seq<nat>, bitmap: seq<nat>, free: set<nat>)
    requires es != [] && WellSplit(es, s)
    requires PickedBelow(es, loader, s.nPa0) && Backed(es, s.nPa0, s.idx0, bitmap, s.nPa1)
    requires MarkedBelow(free, es, s.nPa1, s.idx1, s.w0, s.w1, es[|es| - 1].End())
    ensures Accounted(es, s, Accounts(loader, bitmap, [], free))
  {
    hide AccountedAt, MarkedBelow, InMap, OrderlyMap;
    forall p: nat ensures AccountedAt(es, s, Accounts(loader, bitmap, [], free), p) {
      StartAccountedAt(es, s, loader, bitmap, free, p);
    }
  }

  lemma StartAccountedAt(es: seq<Entry>, s: Split, loader: seq<nat>, bitmap: seq<nat>, free: set<nat>, p: nat)
    requires es != [] && WellSplit(es, s)
    requires PickedBelow(es, loader, s.nPa0) && Backed(es, s.nPa0, s.idx0, bitmap, s.nPa1)
    requires MarkedBelow(free, es, s.nPa1, s.idx1, s.w0, s.w1, es[|es| - 1].End())
    ensures AccountedAt(es, s, Accounts(loader, bitmap, [], free), p)
  {
    hide PickedBelow, Backed, MarkedBelow, InMap, LaterBase, OrderlyMap, Ascending;
    OwnersAre(es, s, loader, bitmap, free, p);
    hide FreeAt, SkippedPage, LoaderPage, BitmapPage, FreePage, WindowFrame, WellSplit;
    var a := Accounts(loader, bitmap, [], free);
    if InMap(es, p) {
      BootPartition(es, s, p);
      Whose(es, s, a, p);
    }
  }

  /** The owners one by one. */
  lemma Whose(es: seq<Entry>, s: Split, a: Accounts, p: nat)
    ensures (exists o :: Owns(es, s, a, o, p)) <==>
              Owns(es, s, a, Image, p) || Owns(es, s, a, FrameBitmap, p) || Owns(es, s, a, OwnershipBitmap, p)
              || Owns(es, s, a, AcpiLeft, p) || Owns(es, s, a, Tables, p) || Owns(es, s, a, Free, p)
  {
    hide Owns;
    if o :| Owns(es, s, a, o, p) {
      match o
      case Image => case FrameBitmap => case OwnershipBitmap => case AcpiLeft => case Tables => case Free =>
    }
  }

  /** The owners in terms of addresses. */
  lemma OwnersAre(es: seq<Entry>, s: Split, loader: seq<nat>, bitmap: seq<nat>, free: set<nat>, p: nat)
    requires es != [] && WellSplit(es, s)
    requires PickedBelow(es, loader, s.nPa0) && Backed(es, s.nPa0, s.idx0, bitmap, s.nPa1)
    requires MarkedBelow(free, es, s.nPa1, s.idx1, s.w0, s.w1, es[|es| - 1].End())
    ensures var a := Accounts(loader, bitmap, [], free);
            && (Owns(es, s, a, Image, p) <==> LoaderPage(es, s, p))
            && (Owns(es, s, a, FrameBitmap, p) <==> BitmapPage(es, s, p))
            && (Owns(es, s, a, Free, p) <==> FreePage(es, s, p))
            && forall o :: Owns(es, s, a, o, p) ==> InMap(es, p)
  {
    hide LaterBase, SkippedAcpi, OrderlyMap;
    if p % PAGE_SIZE == 0 {
      assert p == p / PAGE_SIZE * PAGE_SIZE;
      if InMap(es, p) { LastEntry(es, p); }
    }
  }

  /** Frames that pass from the free ones to the ownership bitmap keep the
      account. */
  lemma TakenAccounted(es: seq<Entry>, s: Split, a: Accounts, own: seq<nat>, free: set<nat>)
    requires Accounted(es, s, a) && a.own == [] && Ascending(own)
    requires forall f :: f in a.free <==> f in free || f * PAGE_SIZE in own
    requires forall f :: f in free ==> f * PAGE_SIZE !in own
    requires forall p :: p in own ==> p % PAGE_SIZE == 0
    ensures Accounted(es, s, a.(own := own, free := free))
  {
    hide AccountedAt, InMap, OrderlyMap;
    forall p: nat ensures AccountedAt(es, s, a.(own := own, free := free), p) {
      assert AccountedAt(es, s, a, p);
      TakenAt(es, s, a, own, free, p);
    }
  }

  lemma TakenAt(es: seq<Entry>, s: Split, a: Accounts, own: seq<nat>, free: set<nat>, p: nat)
    requires AccountedAt(es, s, a, p) && a.own == []
    requires forall f :: f in a.free <==> f in free || f * PAGE_SIZE in own
    requires forall f :: f in free ==> f * PAGE_SIZE !in own
    requires forall p :: p in own ==> p % PAGE_SIZE == 0
    ensures AccountedAt(es, s, a.(own := own, free := free), p)
  {
    var b := a.(own := own, free := free);
    OwnersMove(es, s, a, own, free, p);
    hide Owns, InMap, Shared;
    Whose(es, s, a, p);
    Whose(es, s, b, p);
  }

  lemma OwnersMove(es: seq<Entry>, s: Split, a: Accounts, own: seq<nat>, free: set<nat>, p: nat)
    requires a.own == []
    requires forall f :: f in a.free <==> f in free || f * PAGE_SIZE in own
    requires forall f :: f in free ==> f * PAGE_SIZE !in own
    requires forall p :: p in own ==> p % PAGE_SIZE == 0
    ensures var b := a.(own := own, free := free);
            && (forall o: Owner :: !o.Free? && !o.OwnershipBitmap? ==> (Owns(es, s, b, o, p) <==> Owns(es, s, a, o, p)))
            && (Owns(es, s, a, Free, p) <==> Owns(es, s, b, Free, p) || Owns(es, s, b, OwnershipBitmap, p))
            && !(Owns(es, s, b, Free, p) && Owns(es, s, b, OwnershipBitmap, p))
            && !Owns(es, s, a, OwnershipBitmap, p)
  {
    hide SkippedPage, WindowFrame;
    if p % PAGE_SIZE == 0 { assert p == p / PAGE_SIZE * PAGE_SIZE; }
  }
}

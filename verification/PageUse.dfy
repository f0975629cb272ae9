/** How many frames the paging operations take: `page_mapv` pays for every page asked for, mapped or not,
    and for every table it creates. */
module PageUse {
  import opened Words
  import opened PageTables
  import opened PageSteps
  import opened PageRanges
  import opened PageUndo
  import opened PageRuns

  /** Bytes of memory in use, one page for each set bit. */
  function MemoryUse(w: World): nat {
    0x1000 * |Marked(w.used)|
  }

  /** The frames that hold page tables. */
  function Tables(owner: map<nat, Owner>): (s: set<nat>)
    ensures forall f :: f in s <==> f in owner && owner[f].Table?
  {
    set f | f in owner && owner[f].Table?
  }

  lemma NewTable(owner: map<nat, Owner>, f: nat, o: Owner)
    requires f !in owner
    ensures |Tables(owner[f := o])| == |Tables(owner)| + if o.Table? then 1 else 0
  {
    assert Tables(owner[f := o]) == if o.Table? then Tables(owner) + {f} else Tables(owner);
  }

  lemma EnsureTableAdds(w: World, x: seq<nat>, flags: nat)
    requires Inv(w) && IsPath(x, 3) && |x| > 0 && Walk(w.ram, x[..|x| - 1]).Some?
    requires Walk(w.ram, x).None? ==> FreeCount(w.used) > 0
    ensures |Tables(EnsureTable(w, x, flags).owner)| == |Tables(w.owner)| + if Walk(w.ram, x).None? then 1 else 0
  {
    hide Inv, Walk, FreeCount, FirstFree, Tables;
    if Walk(w.ram, x).None? {
      ClaimsUnowned(w);
      NewTable(w.owner, FirstFree(w.used), Table(x));
    }
  }

  lemma ClaimsUnowned(w: World)
    requires Inv(w) && FreeCount(w.used) > 0
    ensures Shape(w) && FirstFree(w.used) < FRAMES && FirstFree(w.used) !in w.owner
  {
    FreeCountPositive(w.used);
  }

  lemma {:induction false} EnsurePathAdds(w: World, p: seq<nat>, k: nat, flags: nat)
    requires Inv(w) && IsPage(p) && k <= 3 && GoodFlags(flags) && FreeCount(w.used) >= Missing(w.ram, p, k)
    ensures |Tables(EnsurePath(w, p, k, flags).owner)| == |Tables(w.owner)| + Missing(w.ram, p, k)
    decreases k
  {
    hide Inv, PathEnsured, EnsureTable, FreeCount, Walk, Tables;
    if k > 0 {
      var w1, x := EnsurePath(w, p, k - 1, flags), p[..k];
      EnsurePathInv(w, p, k - 1, flags);
      EnsurePathAdds(w, p, k - 1, flags);
      PathFacts(w, w1, p, k);
      assert x[..k - 1] == p[..k - 1];
      EnsureTableAdds(w1, x, flags);
    }
  }

  lemma MapPageAdds(w: World, p: seq<nat>, flags: nat)
    requires Inv(w) && IsPage(p) && GoodFlags(flags) && FreeCount(w.used) > Missing(w.ram, p, 3)
    ensures |Tables(MapPage(w, p, flags).owner)| == |Tables(w.owner)| + Missing(w.ram, p, 3)
  {
    hide Inv, PathEnsured, EnsurePath, FreeCount, FirstFree, Walk, LeafEntry, Missing, Set, Tables;
    var w3 := EnsurePath(w, p, 3, flags);
    EnsurePathInv(w, p, 3, flags);
    EnsurePathAdds(w, p, 3, flags);
    PathLeaves(w, w3, p);
    ClaimsUnowned(w3);
    var f := FirstFree(w3.used);
    NewTable(w3.owner, f, Claimed);
    NewTable(w3.owner, f, Leaf(p));
    assert w3.owner[f := Claimed][f := Leaf(p)] == w3.owner[f := Leaf(p)];
  }

  lemma PathLeaves(w: World, w3: World, p: seq<nat>)
    requires |p| == 4 && PathEnsured(w, w3, p, 3)
    ensures Inv(w3) && FreeCount(w3.used) == FreeCount(w.used) - Missing(w.ram, p, 3)
  {
    hide Inv;
  }

  /** The tables `page_mapv` is charged for are the ones it creates. */
  lemma {:induction false} TablesMadeAreNew(w: World, virt: nat, n: nat, flags: nat)
    requires Inv(w) && GoodFlags(flags) && AvoidsWindow(virt, n)
    requires FreeCount(w.used) >= n + TablesMade(w, virt, n, flags)
    ensures |Tables(MapPages(w, virt, n, flags).owner)| == |Tables(w.owner)| + TablesMade(w, virt, n, flags)
    decreases n
  {
    hide Inv, MapPage, Missing, FreeCount, RangeMapped, PageAt, Grows, Tables;
    if n > 0 {
      RangeGrows(virt, n);
      assert InRange(PageAt(virt, n - 1), virt, n);
      MapPagesInv(w, virt, n - 1, flags);
      TablesMadeAreNew(w, virt, n - 1, flags);
      MapPageAdds(MapPages(w, virt, n - 1, flags), PageAt(virt, n - 1), flags);
    }
  }

  /** Mapping n pages raises the memory in use by one page for each of them, already mapped or not, and one
      for each table frame created. */
  lemma MapPagesUse(w: World, virt: nat, n: nat, flags: nat)
    requires Inv(w) && GoodFlags(flags) && AvoidsWindow(virt, n)
    requires FreeCount(w.used) >= n + TablesMade(w, virt, n, flags)
    ensures var w' := MapPages(w, virt, n, flags);
      MemoryUse(w') == MemoryUse(w) + 0x1000 * (n + (|Tables(w'.owner)| - |Tables(w.owner)|))
  {
    hide Inv, FreeCount, RangeMapped, Grows, Tables, Marked, MapPages, TablesMade;
    var w' := MapPages(w, virt, n, flags);
    MapPagesInv(w, virt, n, flags);
    TablesMadeAreNew(w, virt, n, flags);
    InvShape(w);
    InvShape(w');
    MarkedCount(w.used);
    MarkedCount(w'.used);
  }

  // ---------------------------------------------------------------- a condition callers can check

  /** No page needs more than three new tables. */
  lemma {:induction false} TablesMadeAtMost(w: World, virt: nat, n: nat, flags: nat)
    ensures TablesMade(w, virt, n, flags) <= 3 * n
  {
    hide MapPages, PageAt;
    if n > 0 {
      TablesMadeAtMost(w, virt, n - 1, flags);
      AtMostThree(MapPages(w, virt, n - 1, flags).ram, PageAt(virt, n - 1));
    }
  }

  lemma AtMostThree(ram: Ram, p: seq<nat>)
    requires |p| == 4
    ensures Missing(ram, p, 3) <= 3
  {
    hide Walk;
    assert Missing(ram, p, 0) == 0 && Missing(ram, p, 1) <= 1 && Missing(ram, p, 2) <= 2;
  }

  /** The boot loader leaves all but seven frames free. */
  lemma BootFree(ram: Ram)
    requires FullRam(ram)
    ensures FreeCount(BootWorld(ram).used) == FRAMES - 7
  {
    FreeAbove(BootWorld(ram).used, 7);
    assert BootWorld(ram).used[..FRAMES] == BootWorld(ram).used;
  }

  lemma {:induction false} FreeAbove(used: seq<bool>, m: nat)
    requires m <= |used| && forall f :: 0 <= f < |used| ==> used[f] == (f < m)
    ensures FreeCount(used) == |used| - m
    decreases |used|
  {
    if used != [] {
      var n := |used| - 1;
      FreeAbove(used[..n], if m <= n then m else n);
    }
  }

  /** From boot, any range that avoids the window and takes at most a quarter of the free frames can be mapped. */
  lemma FirstMappingIsLegal(ram: Ram, virt: nat, length: nat, flags: nat)
    requires FullRam(ram) && GoodFlags(flags) && AvoidsWindow(virt, PageCount(length))
    requires 4 * PageCount(length) <= FRAMES - 7
    ensures LegalRun(BootWorld(ram), [MapV(virt, length, flags)])
  {
    hide BootWorld, AvoidsWindow, FreeCount, TablesMade;
    BootFree(ram);
    TablesMadeAtMost(BootWorld(ram), virt, PageCount(length), flags);
    var ops := [MapV(virt, length, flags)];
    assert ops[..0] == [] && Run(BootWorld(ram), []) == BootWorld(ram) && LegalRun(BootWorld(ram), []);
  }

  // ---------------------------------------------------------------- the failing cases are reached from boot

  /** The boot tables reach every page of the first 2 MiB, and the lowest free frame is 7. */
  lemma BootLowPage(ram: Ram, i: nat)
    requires FullRam(ram) && i < ENTRIES
    ensures var w, p := BootWorld(ram), [0, 0, 0, i];
      && Inv(w) && IsPage(p) && p != WINDOW && Walk(w.ram, p[..3]) == Some(4)
      && Walk(w.ram, p[..2]).Some? && Walk(w.ram, p[..1]).Some?
      && LeafEntry(w.ram, p) == (if i < 7 then i * PAGE_SIZE + 3 else 0)
      && FirstFree(w.used) == 7 && |w.used| == FRAMES
  {
    hide Walk, LeafEntry, Inv;
    var p: seq<nat> := [0, 0, 0, i];
    BootInv(ram);
    BootWalk(ram, p[..3]);
    BootWalk(ram, p[..2]);
    BootWalk(ram, p[..1]);
    assert p[..3] == [0, 0, 0] && p[..2] == [0, 0] && p[..1] == [0];
    LowestIs(BootWorld(ram).used, 7);
  }

  lemma LowestIs(used: seq<bool>, f: nat)
    requires f < |used| && !used[f] && forall j :: 0 <= j < f ==> used[j]
    ensures FirstFree(used) == f
  {
  }

  /** Mapping page 0x8000 right after boot backs it with frame 7, and then frame 8 is the lowest: identity allocation
      puts it over that page, and the memory handed out first is no longer reached. */
  lemma AllocDisplacesAfterBoot(ram: Ram)
    requires FullRam(ram)
    ensures LegalRun(BootWorld(ram), [MapV(0x8000, 0x1000, 3)])
    ensures var w := Run(BootWorld(ram), [MapV(0x8000, 0x1000, 3)]);
      && Inv(w) && FirstFree(w.used) == 8 && Live(w, Ident(8)) && LeafEntry(w.ram, Ident(8)) == 0x7003
      && LeafEntry(Alloc4K(w, 3).ram, Ident(8)) == 0x8003
  {
    hide BootWorld, Inv, AvoidsWindow, FreeCount, LegalRun, MapPage, LeafEntry, Live, Alloc4K;
    var u, p: seq<nat> := BootWorld(ram), [0, 0, 0, 8];
    var ops := [MapV(0x8000, 0x1000, 3)];
    assert ops[..0] == [] && Run(u, []) == u;
    OnePageRange(p);
    FirstMappingIsLegal(ram, 0x8000, 0x1000, 3);
    assert Run(u, ops) == Do(u, ops[0]) == MapPages(u, 0x8000, 1, 3);
    assert MapPages(u, 0x8000, 0, 3) == u;
    MapLowPage(ram);
    var w := MapPage(u, p, 3);
    EnoughLeft(w);
    AllocEntry(w, 3);
  }

  lemma OnePageRange(p: seq<nat>)
    requires p == [0, 0, 0, 8]
    ensures PageAt(0x8000, 0) == p == Ident(8) && PageCount(0x1000) == 1 && AvoidsWindow(0x8000, 1) && GoodFlags(3)
  {
    assert forall i :: 0 <= i < 1 ==> PageAt(0x8000, i) == PageAt(0x8000, 0);
  }

  lemma MapLowPage(ram: Ram)
    requires FullRam(ram)
    ensures var w, p := MapPage(BootWorld(ram), [0, 0, 0, 8], 3), [0, 0, 0, 8];
      && Inv(w) && FirstFree(w.used) == 8 && Live(w, p) && LeafEntry(w.ram, p) == 0x7003
      && FreeCount(w.used) == FRAMES - 8
  {
    hide BootWorld, Inv, FreeCount, Walk, LeafEntry, FirstFree, Set, Grows, FreshPage, SameLeavesBut;
    var u, p: seq<nat> := BootWorld(ram), [0, 0, 0, 8];
    BootLowPage(ram, 8);
    BootFree(ram);
    NoTablesMissing(u, p);
    MapPageInv(u, p, 3);
    var w := MapPage(u, p, 3);
    BootUsed(ram);
    BootShape(u);
    assert w.used == u.used[7 := true];
    LowestIs(w.used, 8);
    FreshLow(u, w, p);
  }

  lemma BootShape(w: World)
    requires Inv(w)
    ensures |w.ram| == FRAMES
  {
  }

  lemma BootUsed(ram: Ram)
    requires FullRam(ram)
    ensures BootWorld(ram).used == seq(FRAMES, f => f < 7)
  {
  }

  /** The fresh frame is the only one that was free and no longer is. */
  lemma FreshLow(u: World, w: World, p: seq<nat>)
    requires |p| == 4 && FreshPage(u, w, p, 3) && Inv(w) && |u.used| == FRAMES && u.used == seq(FRAMES, f => f < 7)
    requires w.used == u.used[7 := true]
    ensures Live(w, p) && LeafEntry(w.ram, p) == 0x7003
  {
    hide LeafEntry, Walk, WalksAreTables, TablesAreWalked, LeavesAreMapped, EntriesArePresent;
    var f := LeafEntry(w.ram, p) / PAGE_SIZE;
    assert w.used[f] && !u.used[f];
  }

  lemma NoTablesMissing(w: World, p: seq<nat>)
    requires |p| == 4 && Walk(w.ram, p[..1]).Some? && Walk(w.ram, p[..2]).Some? && Walk(w.ram, p[..3]).Some?
    ensures EnsurePath(w, p, 3, 3) == w && Missing(w.ram, p, 3) == 0
  {
    hide Walk;
    assert EnsurePath(w, p, 0, 3) == w && EnsurePath(w, p, 1, 3) == w && EnsurePath(w, p, 2, 3) == w;
    assert Missing(w.ram, p, 0) == 0 && Missing(w.ram, p, 1) == 0 && Missing(w.ram, p, 2) == 0;
  }

  lemma EnoughLeft(w: World)
    requires FreeCount(w.used) == FRAMES - 8
    ensures FreeCount(w.used) > Missing(w.ram, Ident(FirstFree(w.used)), 3)
  {
    hide FreeCount, FirstFree;
    AtMostThree(w.ram, Ident(FirstFree(w.used)));
  }

  /** Unmapping the eighth page right after boot, which was never mapped, makes frame 0 the next to be handed out. */
  lemma UnmapFreesFrameZeroAfterBoot(ram: Ram)
    requires FullRam(ram)
    ensures BootWorld(ram).used[0] && FirstFree(BootWorld(ram).used) == 7
    ensures FirstFree(UnmapPage(BootWorld(ram), [0, 0, 0, 7]).used) == 0
  {
    hide Walk, LeafEntry, Inv, UnmapPage, FirstFree;
    BootLowPage(ram, 7);
    UnmapEmptyFreesFrameZero(BootWorld(ram), [0, 0, 0, 7]);
  }

  /** Two calls after boot reach a page whose unmapping stores outside the bitmap: `page_alloc4K` hands out frame 7 at
      0x7000, and a page is mapped to 0x8000000. Its bit is then the first on the page handed out. */
  lemma StoreMissesAfterBoot(ram: Ram)
    requires FullRam(ram)
    ensures LegalRun(BootWorld(ram), [AllocOp(3), MapVP(0x17000, 0x800_0000, 0x1000, 3)])
    ensures var w, p := Run(BootWorld(ram), [AllocOp(3), MapVP(0x17000, 0x800_0000, 0x1000, 3)]), [0, 0, 0, 0x17];
      && Inv(w) && Live(w, Ident(7)) && LeafEntry(w.ram, p) == 0x800_0003
      && UnmapPlace(w, p) == Word(7, 0) && !Removable(w, p)
  {
    hide BootWorld, Inv, FreeCount, LegalRun, Run, LeafEntry, Live, Alloc4K, MapPhysPages, Walk, UnmapPlace, Removable, Permitted;
    var u, ops := BootWorld(ram), [AllocOp(3), MapVP(0x17000, 0x800_0000, 0x1000, 3)];
    BootLowPage(ram, 0x17);
    FirstAlloc(ram);
    var w1 := Alloc4K(u, 3);
    PhysMapped(w1);
    var w := MapPhysPages(w1, 0x17000, 0x800_0000, 1, 3);
    TwoOps(u, ops[0], ops[1]);
    LiveIsWalked(w, 7);
    StoreHitsIdentityPage(w, [0, 0, 0, 0x17], 7);
    if Removable(w, [0, 0, 0, 0x17]) {
      RemovableInside(w, [0, 0, 0, 0x17]);
      UnmapInside(w, [0, 0, 0, 0x17], Walk(w.ram, [0, 0, 0, 0x17][..3]).value);
      assert false;
    }
  }

  lemma TwoOps(w: World, a: Op, b: Op)
    requires Legal(w, a) && Legal(Do(w, a), b)
    ensures LegalRun(w, [a, b]) && Run(w, [a, b]) == Do(Do(w, a), b)
  {
    hide Legal, Do;
    assert [a][..0] == [] && [a, b][..1] == [a];
    assert Run(w, []) == w && LegalRun(w, []) && Run(w, [a]) == Do(w, a) && LegalRun(w, [a]);
  }

  lemma LiveIsWalked(w: World, f: nat)
    requires Inv(w) && f in w.owner && w.owner[f] == Leaf(Ident(f))
    ensures Walk(w.ram, Ident(f)) == Some(f)
  {
    hide Inv, Walk;
    LiveWalk(w, Ident(f), f);
  }

  /** The first identity allocation after boot. */
  lemma FirstAlloc(ram: Ram)
    requires FullRam(ram)
    ensures var u, w := BootWorld(ram), Alloc4K(BootWorld(ram), 3);
      && Legal(u, AllocOp(3)) && Inv(w) && 7 in w.owner && w.owner[7] == Leaf(Ident(7))
      && FreeCount(w.used) >= FRAMES - 11 && LeafEntry(w.ram, [0, 0, 0, 0x17]) == 0
  {
    hide BootWorld, Inv, FreeCount, LeafEntry, Live, Alloc4K, Walk, Missing, Grows;
    var u := BootWorld(ram);
    BootLowPage(ram, 7);
    BootLowPage(ram, 0x17);
    BootFree(ram);
    SeventhPage();
    AtMostThree(u.ram, Ident(7));
    EmptyNotLive(u, Ident(7));
    Alloc4KInv(u, 3);
    Quotient(LeafEntry(Alloc4K(u, 3).ram, Ident(7)), 7, 3, PAGE_SIZE);
  }

  lemma SeventhPage()
    ensures Ident(7) == [0, 0, 0, 7] && GoodFlags(3) && [0, 0, 0, 7] != [0, 0, 0, 0x17]
  {
    assert [0, 0, 0, 7][3] != [0, 0, 0, 0x17][3];
  }

  lemma PhysMapped(w1: World)
    requires Inv(w1) && 7 in w1.owner && w1.owner[7] == Leaf(Ident(7))
    requires FreeCount(w1.used) >= FRAMES - 11 && LeafEntry(w1.ram, [0, 0, 0, 0x17]) == 0
    ensures var w, op, p := MapPhysPages(w1, 0x17000, 0x800_0000, 1, 3), MapVP(0x17000, 0x800_0000, 0x1000, 3), [0, 0, 0, 0x17];
      && Legal(w1, op) && Do(w1, op) == w && Inv(w) && 7 in w.owner && w.owner[7] == Leaf(Ident(7)) && Live(w, Ident(7))
      && LeafEntry(w.ram, p) == 0x800_0003 && Walk(w.ram, p[..3]).Some?
  {
    hide Inv, FreeCount, LeafEntry, MapPhysPages, Walk, PhysTablesMade, OnlyTablesAdded, PhysEntry, PageAt, AvoidsWindow;
    OneLowPage();
    BeyondEntry();
    PhysTablesFew(w1);
    MapPhysPagesInv(w1, 0x17000, 0x800_0000, 1, 3);
    var w := MapPhysPages(w1, 0x17000, 0x800_0000, 1, 3);
    assert InRange([0, 0, 0, 0x17], 0x17000, 1);
    if Walk(w.ram, [0, 0, 0, 0x17][..3]).None? {
      NoTableNoLeaf(w.ram, [0, 0, 0, 0x17]);
    }
  }

  lemma OneLowPage()
    ensures PageAt(0x17000, 0) == [0, 0, 0, 0x17] && PageCount(0x1000) == 1 && AvoidsWindow(0x17000, 1) && GoodFlags(3)
  {
    assert forall i :: 0 <= i < 1 ==> PageAt(0x17000, i) == PageAt(0x17000, 0);
  }

  lemma BeyondEntry()
    ensures PhysEntry(0x800_0000, 0, 3) == 0x800_0003
  {
    hide BitOr;
    EntryRecovers(0x8000, 3);
  }

  lemma PhysTablesFew(w: World)
    ensures PhysTablesMade(w, 0x17000, 0x800_0000, 1, 3) <= 3
  {
    hide MapPhysPages, PageAt;
    assert PhysTablesMade(w, 0x17000, 0x800_0000, 0, 3) == 0;
    AtMostThree(MapPhysPages(w, 0x17000, 0x800_0000, 0, 3).ram, PageAt(0x17000, 0));
  }
}

/** What the loader's own marks do when it maps memory from 128 MiB up: the font buffer may lie anywhere. */
module LoaderMarks {
  import opened Words
  import opened PageTables
  import opened PageSteps
  import opened PageRanges
  import opened PageUndo
  import opened PageRuns
  import opened PageUse
  import opened TaskSystem

  const IMAGE: seq<nat> := [511, 510, 0, 256]   // the page of 0xFFFFFFFF80100000
  const FONT: seq<nat> := [0, 0, 120, 0]        // the page of 0xF000000
  const LOST: seq<nat> := [511, 448]            // entry 448 of the first table made for the image

  /** The first two mappings that matter: a page of the kernel image, and a font buffer at 240 MiB. */
  function ImageAndFont(): seq<Loading> {
    [Loading(0xFFFF_FFFF_8010_0000, 0x10_0000, 0x1000, 3), Loading(0xF00_0000, 0xF00_0000, 0x1000, 3)]
  }

  /** A path that leads nowhere still leads nowhere if no table was registered for it. */
  lemma StillNowhere(a: World, b: World, x: seq<nat>)
    requires Inv(a) && Inv(b) && IsPath(x, 3) && Walk(a.ram, x).None?
    requires forall g :: g in b.owner && b.owner[g] == Table(x) ==> g in a.owner && a.owner[g] == Table(x)
    ensures Walk(b.ram, x).None?
  {
    hide Walk, LeafEntry, LeavesAreMapped, EntriesArePresent, PointersAreClean;
  }

  /** The first table created on the way to a page is in the lowest free frame, and stays. */
  lemma FirstTableOf(u: World, p: seq<nat>)
    requires Inv(u) && IsPage(p) && Walk(u.ram, p[..1]).None? && FreeCount(u.used) >= Missing(u.ram, p, 3)
    ensures var e := EnsurePath(u, p, 3, 3);
      FirstFree(u.used) in e.owner && e.owner[FirstFree(u.used)] == Table(p[..1])
  {
    hide Inv, Walk, FreeCount, FirstFree, Missing, EnsureTable, EnsuredTable, PathEnsured, Grows;
    var f := FirstFree(u.used);
    var e1, e2 := EnsurePath(u, p, 1, 3), EnsurePath(u, p, 2, 3);
    var e3 := EnsurePath(u, p, 3, 3);
    FewerMissing(u.ram, p);
    GoodThree();
    OneTable(u, p);
    PathOneMore(u, p, 2);
    PathOneMore(u, p, 3);
    GrowsHas(e1, e2, f);
    GrowsHas(e2, e3, f);
  }

  lemma GoodThree()
    ensures GoodFlags(3)
  {
  }

  lemma FewerMissing(ram: Ram, p: seq<nat>)
    requires |p| == 4
    ensures Missing(ram, p, 3) >= Missing(ram, p, 2) >= Missing(ram, p, 1) >= (if Walk(ram, p[..1]).None? then 1 else 0)
  {
    hide Walk;
  }

  lemma OneTable(u: World, p: seq<nat>)
    requires Inv(u) && IsPage(p) && Walk(u.ram, p[..1]).None? && FreeCount(u.used) > 0
    ensures var e, f := EnsurePath(u, p, 1, 3), FirstFree(u.used);
      f in e.owner && e.owner[f] == Table(p[..1])
  {
    hide Inv, FreeCount, FirstFree;
    InvShape(u);
    FreeCountPositive(u.used);
    assert p[..1][..0] == [] && Walk(u.ram, []) == Some(ROOT);
    assert EnsurePath(u, p, 0, 3) == u && EnsurePath(u, p, 1, 3) == EnsureTable(u, p[..1], 3);
  }

  lemma PathOneMore(u: World, p: seq<nat>, k: nat)
    requires Inv(u) && IsPage(p) && 0 < k <= 3 && FreeCount(u.used) >= Missing(u.ram, p, k)
    requires FreeCount(u.used) >= Missing(u.ram, p, k - 1)
    ensures Grows(EnsurePath(u, p, k - 1, 3), EnsurePath(u, p, k, 3))
  {
    hide Inv, Walk, FreeCount, EnsureTable, PathEnsured, Grows, EnsuredTable;
    var e := EnsurePath(u, p, k - 1, 3);
    GoodThree();
    EnsurePathInv(u, p, k - 1, 3);
    PathFacts(u, e, p, k);
    assert p[..k][..k - 1] == p[..k - 1];
    EnsureTableInv(e, p[..k], 3);
    EnsuredGrows(e, EnsureTable(e, p[..k], 3), p[..k]);
  }

  lemma EnsuredGrows(w: World, w': World, x: seq<nat>)
    requires EnsuredTable(w, w', x)
    ensures Grows(w, w')
  {
    hide Inv, Grows, Walk;
  }

  lemma GrowsHas(w: World, w': World, f: nat)
    requires Grows(w, w') && f in w.owner
    ensures f in w'.owner && w'.owner[f] == w.owner[f]
  {
  }

  /** With the image's page mapped, frame 7 is the table of the top 512 GiB, and its entry 448 is absent. */
  lemma ImageMapped(ram: Ram)
    requires FullRam(ram)
    ensures var w := BootMapPage(BootWorld(ram), IMAGE, 0x10_0000, 3);
      && Inv(w) && NoLeaves(w) && FreeCount(w.used) >= FRAMES - 11
      && 7 in w.owner && w.owner[7] == Table([511]) && Walk(w.ram, LOST).None?
  {
    hide BootWorld, Inv, Walk, FreeCount, FirstFree, Missing, EnsurePath, PathEnsured, Live, Grows, Placed, NoNewLeaves, NoLeaves,
      BootMapPage, SameLeavesBut, LeafEntry, BitOr, KernelPage, IsPath;
    var u := BootWorld(ram);
    BootReady(ram);
    AtMostThree(u.ram, IMAGE);
    ImagePage();
    GoodThree();
    FirstTableOf(u, IMAGE);
    PlacedInv(u, IMAGE, 0x10_0000, 3);
    BootMapPageInv(u, IMAGE, 0x10_0000, 3);
    var e, w := EnsurePath(u, IMAGE, 3, 3), BootMapPage(u, IMAGE, 0x10_0000, 3);
    OtherPath(u, e, IMAGE, LOST);
    ImageMarked(u);
    StillNowhere(e, w, LOST);
    NoLeavesStay(u, w);
  }

  /** The image's own frame is below 128 MiB: at most its mark is registered. */
  lemma ImageMarked(u: World)
    ensures var e, w := Placed(u, IMAGE, 0x10_0000, 3), BootMapPage(u, IMAGE, 0x10_0000, 3);
      w.owner == e.owner || (0x100 !in e.owner && w.owner == e.owner[0x100 := Claimed])
  {
    hide Placed;
    LoaderPlaceIff(0x100);
  }

  lemma NoLeavesStay(u: World, w: World)
    requires NoLeaves(u) && NoNewLeaves(u, w)
    ensures NoLeaves(w)
  {
  }

  lemma ImagePage()
    ensures IsPage(IMAGE) && IMAGE != WINDOW && !KernelPage(IMAGE) && IMAGE[..1] == [511] && IMAGE[..3] == [511, 510, 0]
    ensures IsPath(LOST, 3) && !(LOST <= IMAGE[..3])
    ensures IsPage(FONT) && FONT != WINDOW && !KernelPage(FONT) && FONT[..3] == [0, 0, 120] && !(LOST <= FONT[..3])
  {
    assert IMAGE[0] != WINDOW[0] && IMAGE[..3][0] != 0 && IMAGE[..3][1] != LOST[1];
    assert FONT[2] != WINDOW[2] && FONT[..3][2] != 0 && FONT[..3][0] != LOST[0];
  }

  lemma OtherPath(u: World, e: World, p: seq<nat>, x: seq<nat>)
    requires |p| == 4 && PathEnsured(u, e, p, 3) && IsPath(x, 3) && !(x <= p[..3]) && Walk(u.ram, x).None?
    ensures Inv(e) && Walk(e.ram, x).None?
  {
    hide Inv, Walk, Grows;
  }

  lemma BootReady(ram: Ram)
    requires FullRam(ram)
    ensures var u := BootWorld(ram);
      && Inv(u) && NoLeaves(u) && FreeCount(u.used) == FRAMES - 7 && FirstFree(u.used) == 7 && !Live(u, IMAGE)
      && Walk(u.ram, [511]).None? && Walk(u.ram, LOST).None?
  {
    hide Inv, Walk, FreeCount, FirstFree, BootWorld;
    BootInv(ram);
    BootNoLeaves(ram);
    BootFree(ram);
    BootLowPage(ram, 7);
    BootWalk(ram, [511]);
    BootWalk(ram, LOST);
    NoneLive(BootWorld(ram), IMAGE);
  }

  lemma NoneLive(w: World, p: seq<nat>)
    requires NoLeaves(w)
    ensures !Live(w, p)
  {
  }

  /** Mapping a font at 240 MiB then sets its mark in that table: entry 448 becomes present and names frame 0. The
      condition that the loader stays below 128 MiB is needed. */
  lemma FontBreaksTables(ram: Ram)
    requires FullRam(ram)
    ensures !Inv(Load(BootWorld(ram), ImageAndFont()))
    ensures LoaderPlace(0xF000) == Word(7, 448) && !InBitmap(0xF00_0000, 1)
  {
    hide BootWorld, Inv, BootMapPage, Load, InBitmap;
    LoadTwo(BootWorld(ram));
    ImageMapped(ram);
    FontMapped(BootMapPage(BootWorld(ram), IMAGE, 0x10_0000, 3));
    FontPlace();
    FontOutside();
  }

  lemma FontOutside()
    ensures !InBitmap(0xF00_0000, 1)
  {
    assert FrameAt(0xF00_0000, 0) == 0xF000;
  }

  lemma FontMapped(w: World)
    requires Inv(w) && NoLeaves(w) && FreeCount(w.used) >= FRAMES - 11
    requires 7 in w.owner && w.owner[7] == Table([511]) && Walk(w.ram, LOST).None?
    ensures !Inv(BootMapPage(w, FONT, 0xF00_0000, 3))
  {
    hide Inv, Walk, FreeCount, Missing, EnsurePath, PathEnsured, Live, Grows, Placed, NoNewLeaves, NoLeaves, BootMapPage, SetAt,
      LoaderPlace, SameLeavesBut, LeafEntry, BitOr, KernelPage, IsPath;
    AtMostThree(w.ram, FONT);
    ImagePage();
    GoodThree();
    NoneLive(w, FONT);
    PlacedInv(w, FONT, 0xF00_0000, 3);
    var e, x := EnsurePath(w, FONT, 3, 3), Placed(w, FONT, 0xF00_0000, 3);
    OtherPath(w, e, FONT, LOST);
    StillNowhere(e, x, LOST);
    GrowsHas(w, x, 7);
    FontPlace();
    FontMark(w);
    assert [511] + [448] == LOST;
    LoaderMarkBreaks(x, 0xF000);
  }

  lemma FontPlace()
    ensures LoaderPlace(0xF000) == Word(7, 448) && 0xF000 % 64 == 0
  {
  }

  lemma FontMark(w: World)
    ensures BootMapPage(w, FONT, 0xF00_0000, 3) == SetAt(Placed(w, FONT, 0xF00_0000, 3), LoaderPlace(0xF000), 0xF000)
  {
    hide Placed, SetAt, LoaderPlace;
    assert 0xF00_0000 / PAGE_SIZE == 0xF000;
  }

  lemma LoadTwo(u: World)
    ensures Load(u, ImageAndFont()) == BootMapPage(BootMapPage(u, IMAGE, 0x10_0000, 3), FONT, 0xF00_0000, 3)
  {
    hide BootMapPage;
    var ls := ImageAndFont();
    assert ls[..1] == [ls[0]] && [ls[0]][..0] == [];
    assert PageAt(0xFFFF_FFFF_8010_0000, 0) == IMAGE && PageAt(0xF00_0000, 0) == FONT;
    OneMapped(u, ls[0]);
    assert Load(u, []) == u && Load(u, [ls[0]]) == BootMapPages(u, ls[0].virt, ls[0].phys, 1, 3);
    OneMapped(Load(u, [ls[0]]), ls[1]);
  }

  lemma OneMapped(u: World, l: Loading)
    requires l.phys < WORD_LIMIT
    ensures BootMapPages(u, l.virt, l.phys, 1, l.flags) == BootMapPage(u, PageAt(l.virt, 0), l.phys, l.flags)
  {
    hide BootMapPage, PageAt;
    assert BootMapPages(u, l.virt, l.phys, 0, l.flags) == u;
  }
}

/** `page_mapv`, `page_mapvp` and `page_umapv` over whole address ranges, as changes of a flat map from pages to entries. */
module PageRanges {
  import opened Words
  import opened PageTables
  import opened PageSteps

  const PAGES_IN_SPACE: nat := 0x10_0000_0000   // 2^36 pages of a 48-bit address space

  /** The i-th page of a range that starts at `virt`; addresses wrap at 2^64. */
  function PageAt(virt: nat, i: nat): (p: seq<nat>)
    ensures IsPage(p)
  {
    PageOf((virt + i * PAGE_SIZE) % WORD_LIMIT)
  }

  /** `length / PAGE_SIZE + (length % PAGE_SIZE > 0)`. */
  function PageCount(length: nat): nat {
    length / PAGE_SIZE + (if length % PAGE_SIZE > 0 then 1 else 0)
  }

  function MapPages(w: World, virt: nat, n: nat, flags: nat): World {
    if n == 0 then w else MapPage(MapPages(w, virt, n - 1, flags), PageAt(virt, n - 1), flags)
  }

  /** How many tables the range makes `page_mapv` create. */
  function TablesMade(w: World, virt: nat, n: nat, flags: nat): nat {
    if n == 0 then 0 else
      TablesMade(w, virt, n - 1, flags) + Missing(MapPages(w, virt, n - 1, flags).ram, PageAt(virt, n - 1), 3)
  }

  function MapPhysPages(w: World, virt: nat, phys: nat, n: nat, flags: nat): World {
    if n == 0 then w else
      MapPhysPage(MapPhysPages(w, virt, phys, n - 1, flags), PageAt(virt, n - 1), PhysEntry(phys, n - 1, flags), flags)
  }

  /** `(phys + i * PAGE_SIZE) | flags` on 64-bit words. */
  function PhysEntry(phys: nat, i: nat, flags: nat): nat {
    BitOr((phys + i * PAGE_SIZE) % WORD_LIMIT, flags)
  }

  function PhysTablesMade(w: World, virt: nat, phys: nat, n: nat, flags: nat): nat {
    if n == 0 then 0 else
      PhysTablesMade(w, virt, phys, n - 1, flags)
      + Missing(MapPhysPages(w, virt, phys, n - 1, flags).ram, PageAt(virt, n - 1), 3)
  }

  function UnmapPages(w: World, virt: nat, n: nat): World {
    if n == 0 then w else UnmapPage(UnmapPages(w, virt, n - 1), PageAt(virt, n - 1))
  }

  ghost predicate InRange(p: seq<nat>, virt: nat, n: nat) {
    exists i :: 0 <= i < n && PageAt(virt, i) == p
  }

  ghost predicate AvoidsWindow(virt: nat, n: nat) {
    !InRange(WINDOW, virt, n)
  }

  // ---------------------------------------------------------------- page_mapv

  /** The flat map after `page_mapv`: empty pages of the range have fresh cleared frames, all else is as before. */
  ghost predicate RangeMapped(w: World, w': World, virt: nat, n: nat, flags: nat) {
    forall q :: IsPage(q) && q != WINDOW ==>
      if InRange(q, virt, n) && LeafEntry(w.ram, q) == 0 then FreshPage(w, w', q, flags)
      else LeafEntry(w'.ram, q) == LeafEntry(w.ram, q)
  }

  lemma {:induction false} MapPagesInv(w: World, virt: nat, n: nat, flags: nat)
    requires Inv(w) && GoodFlags(flags) && AvoidsWindow(virt, n)
    requires FreeCount(w.used) >= n + TablesMade(w, virt, n, flags)
    ensures var w' := MapPages(w, virt, n, flags);
      && Inv(w') && Grows(w, w') && RangeMapped(w, w', virt, n, flags)
      && FreeCount(w'.used) == FreeCount(w.used) - n - TablesMade(w, virt, n, flags)
    decreases n
  {
    hide Inv, LeafEntry, MapPage, Missing, FreeCount, RangeMapped, Mapped, NewMarks, PageAt, FreshPage;
    if n == 0 {
      MapNothing(w, virt, flags);
    } else {
      var w1, p := MapPages(w, virt, n - 1, flags), PageAt(virt, n - 1);
      assert InRange(p, virt, n);
      RangeGrows(virt, n);
      MapPagesInv(w, virt, n - 1, flags);
      MapPageInv(w1, p, flags);
      InvShape(w1);
      InvShape(w);
      GrowsTransitive(w, w1, MapPage(w1, p, flags));
      RangeStep(w, w1, MapPage(w1, p, flags), virt, n, flags);
    }
  }

  lemma MapNothing(w: World, virt: nat, flags: nat)
    ensures Grows(w, w) && RangeMapped(w, w, virt, 0, flags)
  {
  }

  lemma RangeGrows(virt: nat, n: nat)
    requires n > 0
    ensures forall q :: InRange(q, virt, n) <==> InRange(q, virt, n - 1) || q == PageAt(virt, n - 1)
  {
    hide PageAt;
  }

  lemma RangeStep(w: World, w1: World, w2: World, virt: nat, n: nat, flags: nat)
    requires n > 0 && RangeMapped(w, w1, virt, n - 1, flags) && Mapped(w1, w2, PageAt(virt, n - 1), flags)
    requires Shape(w) && Shape(w1) && Grows(w, w1) && Grows(w1, w2) && OwnedAreMarked(w1)
    requires GoodFlags(flags)
    ensures RangeMapped(w, w2, virt, n, flags)
  {
    hide LeafEntry, PageAt, FreshPage, Grows;
    RangeGrows(virt, n);
    var p := PageAt(virt, n - 1);
    forall q | IsPage(q) && q != WINDOW
      ensures if InRange(q, virt, n) && LeafEntry(w.ram, q) == 0 then FreshPage(w, w2, q, flags)
              else LeafEntry(w2.ram, q) == LeafEntry(w.ram, q)
    {
      if InRange(q, virt, n - 1) && LeafEntry(w.ram, q) == 0 {
        FreshNonzero(w, w1, q, flags);
        FreshStays(w, w1, w2, q, flags);
      } else if q == p && LeafEntry(w.ram, q) == 0 {
        FreshEarlier(w, w1, w2, q, flags);
      }
    }
  }

  lemma FreshNonzero(w: World, w': World, q: seq<nat>, flags: nat)
    requires |q| > 0 && FreshPage(w, w', q, flags) && flags > 0
    ensures LeafEntry(w'.ram, q) != 0
  {
    hide LeafEntry;
  }

  lemma FreshStays(w: World, w1: World, w2: World, q: seq<nat>, flags: nat)
    requires |q| > 0 && FreshPage(w, w1, q, flags) && Grows(w1, w2) && Shape(w1) && OwnedAreMarked(w1)
    requires LeafEntry(w2.ram, q) == LeafEntry(w1.ram, q)
    ensures FreshPage(w, w2, q, flags)
  {
    hide LeafEntry;
  }

  lemma FreshEarlier(w: World, w1: World, w2: World, q: seq<nat>, flags: nat)
    requires |q| > 0 && FreshPage(w1, w2, q, flags) && Grows(w, w1)
    ensures FreshPage(w, w2, q, flags)
  {
    hide LeafEntry;
  }

  /** Afterwards every page of the range is mapped by a present entry. */
  lemma RangeIsPresent(w: World, w': World, virt: nat, n: nat, flags: nat, i: nat)
    requires Inv(w) && Inv(w') && GoodFlags(flags) && AvoidsWindow(virt, n) && i < n && RangeMapped(w, w', virt, n, flags)
    ensures Present(LeafEntry(w'.ram, PageAt(virt, i)))
  {
    hide LeafEntry, PageAt, WalksAreTables, TablesAreWalked, LeavesAreMapped;
    var p := PageAt(virt, i);
    assert InRange(p, virt, n);
    if LeafEntry(w.ram, p) == 0 {
      FreshNonzero(w, w', p, flags);
    }
  }

  /** Mapping a range page by page with separate calls is mapping it with one. */
  lemma {:induction false} MapPagesSplit(w: World, virt: nat, n: nat, flags: nat)
    ensures MapPages(w, virt, n + 1, flags) == MapPages(MapPages(w, virt, 1, flags), virt + PAGE_SIZE, n, flags)
    ensures TablesMade(w, virt, n + 1, flags)
         == TablesMade(w, virt, 1, flags) + TablesMade(MapPages(w, virt, 1, flags), virt + PAGE_SIZE, n, flags)
  {
    hide MapPage, Missing, PageOf;
    if n > 0 {
      MapPagesSplit(w, virt, n - 1, flags);
      assert PageAt(virt + PAGE_SIZE, n - 1) == PageAt(virt, n);
    }
  }

  /** An address lies on the page that its page-aligned base names. */
  lemma PageOfFloor(x: nat)
    ensures PageOf(x) == PageOf(x - x % PAGE_SIZE)
  {
    var y := x - x % PAGE_SIZE;
    assert y / PAGE_SIZE == x / PAGE_SIZE;
    DivTwice(x);
    DivTwice(y);
  }

  // ---------------------------------------------------------------- page_mapvp

  ghost predicate PhysRangeMapped(w: World, w': World, virt: nat, phys: nat, n: nat, flags: nat) {
    forall q :: IsPage(q) && q != WINDOW ==>
      if InRange(q, virt, n) && LeafEntry(w.ram, q) == 0 then
        exists i :: 0 <= i < n && PageAt(virt, i) == q && LeafEntry(w'.ram, q) == PhysEntry(phys, i, flags)
      else LeafEntry(w'.ram, q) == LeafEntry(w.ram, q)
  }

  lemma {:induction false} MapPhysPagesInv(w: World, virt: nat, phys: nat, n: nat, flags: nat)
    requires Inv(w) && GoodFlags(flags) && AvoidsWindow(virt, n)
    requires FreeCount(w.used) >= PhysTablesMade(w, virt, phys, n, flags)
    ensures var w' := MapPhysPages(w, virt, phys, n, flags);
      && Inv(w') && Grows(w, w') && OnlyTablesAdded(w, w') && PhysRangeMapped(w, w', virt, phys, n, flags)
      && FreeCount(w'.used) == FreeCount(w.used) - PhysTablesMade(w, virt, phys, n, flags)
    decreases n
  {
    hide Inv, LeafEntry, MapPhysPage, Missing, FreeCount, PhysRangeMapped, PageAt, Grows, BitOr, SameLeavesBut, OnlyTablesAdded;
    if n == 0 {
      MapNothing(w, virt, flags);
      NothingAdded(w);
      MapNoPhys(w, virt, phys, flags);
    } else {
      var w1, p := MapPhysPages(w, virt, phys, n - 1, flags), PageAt(virt, n - 1);
      assert InRange(p, virt, n);
      RangeGrows(virt, n);
      MapPhysPagesInv(w, virt, phys, n - 1, flags);
      BitOrOdd((phys + (n - 1) * PAGE_SIZE) % WORD_LIMIT, flags);
      MapPhysPageInv(w1, p, PhysEntry(phys, n - 1, flags), flags);
      GrowsTransitive(w, w1, MapPhysPage(w1, p, PhysEntry(phys, n - 1, flags), flags));
      TablesAddedTransitive(w, w1, MapPhysPage(w1, p, PhysEntry(phys, n - 1, flags), flags));
      PhysRangeStep(w, w1, MapPhysPage(w1, p, PhysEntry(phys, n - 1, flags), flags), virt, phys, n, flags);
    }
  }

  lemma NothingAdded(w: World)
    ensures OnlyTablesAdded(w, w)
  {
  }

  lemma MapNoPhys(w: World, virt: nat, phys: nat, flags: nat)
    ensures PhysRangeMapped(w, w, virt, phys, 0, flags)
  {
  }

  lemma PhysRangeStep(w: World, w1: World, w2: World, virt: nat, phys: nat, n: nat, flags: nat)
    requires n > 0 && PhysRangeMapped(w, w1, virt, phys, n - 1, flags) && flags % 2 == 1
    requires SameLeavesBut(w1.ram, w2.ram, PageAt(virt, n - 1))
    requires LeafEntry(w2.ram, PageAt(virt, n - 1))
          == (if LeafEntry(w1.ram, PageAt(virt, n - 1)) != 0 then LeafEntry(w1.ram, PageAt(virt, n - 1))
              else PhysEntry(phys, n - 1, flags))
    ensures PhysRangeMapped(w, w2, virt, phys, n, flags)
  {
    hide LeafEntry, PageAt, BitOr;
    RangeGrows(virt, n);
    var p := PageAt(virt, n - 1);
    forall q | IsPage(q) && q != WINDOW && InRange(q, virt, n) && LeafEntry(w.ram, q) == 0
      ensures exists i :: 0 <= i < n && PageAt(virt, i) == q && LeafEntry(w2.ram, q) == PhysEntry(phys, i, flags)
    {
      if InRange(q, virt, n - 1) {
        var i :| 0 <= i < n - 1 && PageAt(virt, i) == q && LeafEntry(w1.ram, q) == PhysEntry(phys, i, flags);
        BitOrOdd((phys + i * PAGE_SIZE) % WORD_LIMIT, flags);
      }
    }
  }

  // ---------------------------------------------------------------- page_umapv

  /** Pages of one range are different pages unless the range wraps round the whole address space. */
  lemma PageAtInjective(virt: nat, i: nat, j: nat)
    requires i < j < i + PAGES_IN_SPACE
    ensures PageAt(virt, i) != PageAt(virt, j)
  {
    hide PageOf;
    var x, y := (virt + i * PAGE_SIZE) % WORD_LIMIT, (virt + j * PAGE_SIZE) % WORD_LIMIT;
    PageNumber(virt, i);
    PageNumber(virt, j);
    Digits(x);
    Digits(y);
    DifferentResidues(virt / PAGE_SIZE, i, j);
  }

  lemma DifferentResidues(v: nat, i: nat, j: nat)
    requires i < j < i + PAGES_IN_SPACE
    ensures (v + i) % PAGES_IN_SPACE != (v + j) % PAGES_IN_SPACE
  {
    var a, b := (v + i) / PAGES_IN_SPACE, (v + j) / PAGES_IN_SPACE;
    assert v + i == a * PAGES_IN_SPACE + (v + i) % PAGES_IN_SPACE;
    assert v + j == b * PAGES_IN_SPACE + (v + j) % PAGES_IN_SPACE;
  }

  lemma PageNumber(virt: nat, i: nat)
    ensures (virt + i * PAGE_SIZE) % WORD_LIMIT / PAGE_SIZE % PAGES_IN_SPACE == (virt / PAGE_SIZE + i) % PAGES_IN_SPACE
  {
  }

  lemma FourDigits(v: nat, a: nat, b: nat, c: nat)
    requires a == v / ENTRIES && b == a / ENTRIES && c == b / ENTRIES
    ensures v % PAGES_IN_SPACE
         == c % ENTRIES * 0x800_0000 + b % ENTRIES * 0x4_0000 + a % ENTRIES * ENTRIES + v % ENTRIES
  {
    var d := c / ENTRIES;
    assert v == d * PAGES_IN_SPACE
      + (c % ENTRIES * 0x800_0000 + b % ENTRIES * 0x4_0000 + a % ENTRIES * ENTRIES + v % ENTRIES);
  }

  lemma Digits(x: nat)
    ensures x / PAGE_SIZE % PAGES_IN_SPACE
         == PageOf(x)[0] * 0x800_0000 + PageOf(x)[1] * 0x4_0000 + PageOf(x)[2] * ENTRIES + PageOf(x)[3]
  {
    DivTwice(x);
    FourDigits(x / PAGE_SIZE, x / 0x20_0000, x / 0x4000_0000, x / 0x80_0000_0000);
  }

  ghost predicate AllRemovable(w: World, virt: nat, n: nat) {
    forall i :: 0 <= i < n ==> Removable(w, PageAt(virt, i))
  }

  /** Frame `f` is the memory of a page in the range. */
  ghost predicate OwnedInRange(w: World, f: nat, virt: nat, n: nat) {
    f in w.owner && w.owner[f].Leaf? && InRange(w.owner[f].page, virt, n)
  }

  /** The range is empty, its frames are unmarked and unregistered, and nothing else moved. */
  ghost predicate RangeUnmapped(w: World, w': World, virt: nat, n: nat) {
    && (forall q :: IsPage(q) && q != WINDOW ==>
          LeafEntry(w'.ram, q) == if InRange(q, virt, n) then 0 else LeafEntry(w.ram, q))
    && |w'.used| == |w.used|
    && (forall f :: 0 <= f < |w.used| ==> w'.used[f] == (w.used[f] && !OwnedInRange(w, f, virt, n)))
    && (forall f :: f in w'.owner <==> f in w.owner && !OwnedInRange(w, f, virt, n))
    && (forall f :: f in w'.owner ==> w'.owner[f] == w.owner[f])
    && forall x :: IsPath(x, 3) ==> Walk(w'.ram, x) == Walk(w.ram, x)
  }

  lemma {:induction false} UnmapPagesInv(w: World, virt: nat, n: nat)
    requires Inv(w) && AvoidsWindow(virt, n) && AllRemovable(w, virt, n) && n <= PAGES_IN_SPACE
    ensures Inv(UnmapPages(w, virt, n)) && RangeUnmapped(w, UnmapPages(w, virt, n), virt, n)
    decreases n
  {
    hide Inv, LeafEntry, UnmapPage, PageAt, RangeUnmapped, Walk, Removable, Unmapped;
    if n == 0 {
      UnmapNothing(w, virt);
    } else {
      var w1, p := UnmapPages(w, virt, n - 1), PageAt(virt, n - 1);
      assert InRange(p, virt, n);
      RangeGrows(virt, n);
      UnmapPagesInv(w, virt, n - 1);
      StillRemovable(w, w1, virt, n);
      UnmapPageInv(w1, p);
      UnmapStep(w, w1, UnmapPage(w1, p), virt, n);
    }
  }

  lemma UnmapNothing(w: World, virt: nat)
    ensures RangeUnmapped(w, w, virt, 0)
  {
    hide LeafEntry, Walk;
  }

  lemma NewInRange(virt: nat, n: nat)
    requires 0 < n <= PAGES_IN_SPACE
    ensures !InRange(PageAt(virt, n - 1), virt, n - 1)
  {
    hide PageAt;
    forall i | 0 <= i < n - 1 ensures PageAt(virt, i) != PageAt(virt, n - 1) {
      PageAtInjective(virt, i, n - 1);
    }
  }

  lemma StillRemovable(w: World, w1: World, virt: nat, n: nat)
    requires 0 < n <= PAGES_IN_SPACE && RangeUnmapped(w, w1, virt, n - 1) && Removable(w, PageAt(virt, n - 1))
    requires PageAt(virt, n - 1) != WINDOW
    ensures Removable(w1, PageAt(virt, n - 1))
  {
    hide LeafEntry, Walk, PageAt, MarkIndex;
    NewInRange(virt, n);
    var p := PageAt(virt, n - 1);
    assert IsPath(p[..3], 3);
    if Live(w, p) {
      var f :| f in w.owner && w.owner[f] == Leaf(p);
      assert f in w1.owner && w1.owner[f] == Leaf(p);
    }
  }

  lemma UnmapStep(w: World, w1: World, w2: World, virt: nat, n: nat)
    requires 0 < n <= PAGES_IN_SPACE && RangeUnmapped(w, w1, virt, n - 1)
    requires Unmapped(w1, w2, PageAt(virt, n - 1)) && Inv(w)
    ensures RangeUnmapped(w, w2, virt, n)
  {
    hide LeafEntry, Walk, PageAt, Inv;
    NewInRange(virt, n);
    RangeGrows(virt, n);
    var p := PageAt(virt, n - 1);
    var f := LeafEntry(w1.ram, p) / PAGE_SIZE;
    assert IsPath(p[..3], 3);
    if Live(w1, p) {
      LiveUnique(w, p, f);
      assert forall g :: OwnedInRange(w, g, virt, n) <==> OwnedInRange(w, g, virt, n - 1) || g == f;
    } else {
      forall g | g in w.owner ensures w.owner[g] != Leaf(p) {
        assert w.owner[g] == Leaf(p) ==> g in w1.owner;
      }
      assert forall g :: OwnedInRange(w, g, virt, n) <==> OwnedInRange(w, g, virt, n - 1);
    }
  }

  lemma LiveUnique(w: World, p: seq<nat>, f: nat)
    requires Inv(w) && f in w.owner && w.owner[f] == Leaf(p)
    ensures forall g :: g in w.owner && w.owner[g] == Leaf(p) ==> g == f
  {
    forall g | g in w.owner && w.owner[g] == Leaf(p) ensures g == f {
      LiveEntry(w, p, g);
      LiveEntry(w, p, f);
    }
  }
}

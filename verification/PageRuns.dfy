/** The tables the boot loader builds, and every run of paging operations from there. */
module PageRuns {
  import opened Words
  import opened PageTables
  import opened PageSteps
  import opened PageRanges
  import opened PageUndo

  // ---------------------------------------------------------------- the boot state

  /** Entry i of the first page table: frames 0 to 6 mapped at their own addresses. */
  function FirstTable(): (row: seq<nat>)
    ensures |row| == ENTRIES
  {
    seq(ENTRIES, i => if 0 <= i < 7 then i * PAGE_SIZE + 3 else 0)
  }

  /** What the boot loader leaves: frames 1 to 5 rewritten as tables, frames 0 to 6 marked.
      The rest of memory holds whatever it held. */
  function BootWorld(ram: Ram): World
    requires |ram| == FRAMES
  {
    var pml4: seq<nat>, pdpt: seq<nat>, pdt: seq<nat> := Zeros()[0 := 0x2003], Zeros()[0 := 0x3003], Zeros()[0 := 0x4003][511 := 0x5003];
    World(ram[1 := pml4][2 := pdpt][3 := pdt][4 := FirstTable()][5 := Zeros()],
          seq(FRAMES, f => f < 7),
          map[0 := Claimed, 1 := Table([]), 2 := Table([0]), 3 := Table([0, 0]), 4 := Table([0, 0, 0]),
              5 := Table([0, 0, 511]), 6 := Claimed])
  }

  ghost predicate FullRam(ram: Ram) {
    |ram| == FRAMES && forall f :: 0 <= f < FRAMES ==> |ram[f]| == ENTRIES
  }

  /** The walk that the boot tables give each path. */
  function BootTarget(x: seq<nat>): Option<nat> {
    if x == [] then Some(1) else if x == [0] then Some(2) else if x == [0, 0] then Some(3)
    else if x == [0, 0, 0] then Some(4) else if x == [0, 0, 511] then Some(5) else None
  }

  lemma BootEntry(ram: Ram, t: nat, i: nat)
    requires FullRam(ram) && 1 <= t <= 5 && i < ENTRIES
    ensures Get(BootWorld(ram).ram, t, i)
         == if t == 1 && i == 0 then 0x2003 else if t == 2 && i == 0 then 0x3003
            else if t == 3 && i == 0 then 0x4003 else if t == 3 && i == 511 then 0x5003
            else if t == 4 && i < 7 then i * PAGE_SIZE + 3 else 0
  {
  }

  lemma BootWalk(ram: Ram, x: seq<nat>)
    requires FullRam(ram) && IsPath(x, 3)
    ensures Walk(BootWorld(ram).ram, x) == BootTarget(x)
    decreases |x|
  {
    hide BootWorld, BootTarget;
    if x != [] {
      var y, i := x[..|x| - 1], x[|x| - 1];
      BootWalk(ram, y);
      BootWalkStep(ram, y, i);
      assert x == y + [i];
    } else {
      BootNil();
    }
  }

  lemma BootNil()
    ensures BootTarget([]) == Some(1)
  {
  }

  lemma BootWalkStep(ram: Ram, y: seq<nat>, i: nat)
    requires FullRam(ram) && IsPath(y, 2) && i < ENTRIES
    ensures BootTarget(y + [i])
         == (match BootTarget(y) case None => None case Some(t) => Child(Get(BootWorld(ram).ram, t, i)))
  {
    hide BootWorld;
    if BootTarget(y).Some? {
      BootEntry(ram, BootTarget(y).value, i);
      BootSnoc(y, i);
    } else {
      assert (y + [i])[..|y|] == y;
    }
  }

  lemma BootSnoc(y: seq<nat>, i: nat)
    requires |y| <= 2 && BootTarget(y).Some? && i < ENTRIES
    ensures BootTarget(y + [i])
         == (var t := BootTarget(y).value;
             if t == 1 && i == 0 then Some(2) else if t == 2 && i == 0 then Some(3)
             else if t == 3 && i == 0 then Some(4) else if t == 3 && i == 511 then Some(5) else None)
  {
    var z := y + [i];
    assert |z| == |y| + 1 && z[|y|] == i && z[..|y|] == y;
  }

  /** The boot state satisfies the invariant, and maps the first seven frames at their own addresses and nothing else. */
  lemma BootInv(ram: Ram)
    requires FullRam(ram)
    ensures Inv(BootWorld(ram))
    ensures forall p :: IsPage(p) && p != WINDOW ==> LeafEntry(BootWorld(ram).ram, p) == BootLeafEntry(p)
  {
    hide Walk, LeafEntry, WalksAreTables, TablesAreWalked, EntriesArePresent, BootLeafEntry;
    var w := BootWorld(ram);
    BootTables(ram);
    forall p | IsPage(p) && p != WINDOW ensures LeafEntry(w.ram, p) == BootLeafEntry(p) {
      BootLeaf(ram, p);
    }
    BootPresent(w.ram);
    BootClean(ram);
  }

  lemma BootClean(ram: Ram)
    requires FullRam(ram)
    ensures PointersAreClean(BootWorld(ram).ram, BootWorld(ram).owner)
  {
    hide Walk;
    var w := BootWorld(ram);
    forall t: nat, i: nat | t in w.owner && w.owner[t].Table? && |w.owner[t].path| < 3
      ensures CleanEntry(Get(w.ram, t, i))
    {
      if i < ENTRIES {
        BootEntry(ram, t, i);
      }
    }
  }

  function BootLeafEntry(p: seq<nat>): nat
    requires |p| == 4
  {
    if p[..3] == [0, 0, 0] && p[3] < 7 then p[3] * PAGE_SIZE + 3 else 0
  }

  lemma BootPresent(ram: Ram)
    requires forall p :: IsPage(p) && p != WINDOW ==> LeafEntry(ram, p) == BootLeafEntry(p)
    ensures EntriesArePresent(ram)
  {
    hide LeafEntry;
  }

  lemma BootLeaf(ram: Ram, p: seq<nat>)
    requires FullRam(ram) && IsPage(p) && p != WINDOW
    ensures LeafEntry(BootWorld(ram).ram, p) == BootLeafEntry(p)
  {
    hide BootWorld, Walk;
    BootWalk(ram, p[..3]);
    assert p == p[..3] + [p[3]];
    if BootTarget(p[..3]).Some? {
      BootEntry(ram, BootTarget(p[..3]).value, p[3]);
      LeafIsEntry(BootWorld(ram).ram, BootTarget(p[..3]).value, p);
    }
  }

  lemma BootTables(ram: Ram)
    requires FullRam(ram)
    ensures WalksAreTables(BootWorld(ram).ram, BootWorld(ram).owner) && TablesAreWalked(BootWorld(ram).ram, BootWorld(ram).owner)
  {
    hide Walk;
    var w := BootWorld(ram);
    forall x | IsPath(x, 3) && Walk(w.ram, x).Some?
      ensures Walk(w.ram, x).value in w.owner && w.owner[Walk(w.ram, x).value] == Table(x)
    {
      BootWalk(ram, x);
    }
    forall f | f in w.owner && w.owner[f].Table?
      ensures IsPath(w.owner[f].path, 3) && Walk(w.ram, w.owner[f].path) == Some(f)
    {
      BootWalk(ram, w.owner[f].path);
    }
  }

  /** Where the loader's mark for frame `f` goes. It runs on physical addresses and its byte index has 64 bits, so marks
      beyond the bitmap fall in the frames behind it: 7, 8 and so on, one for each 128 MiB. */
  function LoaderPlace(f: nat): Place {
    Spot(BITMAP_FRAME + f / FRAMES, f)
  }

  /** The page's entry stored, whatever was there, before the frame is marked. */
  function Placed(w: World, p: seq<nat>, phys: nat, flags: nat): World
    requires |p| == 4
  {
    var w3 := EnsurePath(w, p, 3, flags);
    match Walk(w3.ram, p[..3])
    case None => w3
    case Some(t) => w3.(ram := Set(w3.ram, t, p[3], BitOr(phys, flags)))
  }

  /** One turn of the boot loader's own mapping loop: it stores the entry and sets the mark, wherever that is. */
  function BootMapPage(w: World, p: seq<nat>, phys: nat, flags: nat): World
    requires |p| == 4
  {
    SetAt(Placed(w, p, phys, flags), LoaderPlace(phys / PAGE_SIZE), phys / PAGE_SIZE)
  }

  /** The pages through which the kernel reaches its tables and its bitmap. */
  predicate KernelPage(p: seq<nat>) {
    |p| == 4 && p[..3] == [0, 0, 0] && (p[3] == 1 || p[3] == 5 || p[3] == 6)
  }

  /** No page becomes live. */
  ghost predicate NoNewLeaves(w: World, w': World) {
    forall f :: f in w'.owner && w'.owner[f].Leaf? ==> f in w.owner && w.owner[f] == w'.owner[f]
  }

  /** Up to the mark, whatever the physical address. */
  lemma PlacedInv(w: World, p: seq<nat>, phys: nat, flags: nat)
    requires Inv(w) && IsPage(p) && p != WINDOW && GoodFlags(flags) && !Live(w, p) && !KernelPage(p)
    requires FreeCount(w.used) >= Missing(w.ram, p, 3)
    ensures var w3, w4 := EnsurePath(w, p, 3, flags), Placed(w, p, phys, flags);
      && Inv(w4) && Grows(w, w4) && NoNewLeaves(w, w4) && SameLeavesBut(w.ram, w4.ram, p)
      && Walk(w3.ram, p[..3]).Some? && PathEnsured(w, w3, p, 3) && w4.used == w3.used && w4.owner == w3.owner
      && LeafEntry(w4.ram, p) == BitOr(phys, flags)
      && FreeCount(w4.used) == FreeCount(w.used) - Missing(w.ram, p, 3)
  {
    hide Inv, Grows, Walk, LeafEntry, Set, FreeCount, Missing, EnsurePath, SameLeaves, SameLeavesBut, BitOr, Live, KernelPage,
      NoNewLeaves;
    var w3 := EnsurePath(w, p, 3, flags);
    EnsurePathInv(w, p, 3, flags);
    SameLeavesAt(w.ram, w3.ram, p);
    BitOrOdd(phys, flags);
    var t, e := Walk(w3.ram, p[..3]).value, BitOr(phys, flags);
    var w4 := w3.(ram := Set(w3.ram, t, p[3], e));
    StillNotLive(w, w3, p);
    NotKernelEntry(w3, p, t);
    StoreEntry(w3, w4, t, p, e);
    assert SameLeaves(w4.ram, w4.ram) by { SelfLeaves(w4.ram); }
    SameLeavesAround(w.ram, w3.ram, w4.ram, w4.ram, p);
    GrowsTransitive(w, w3, w4);
    TablesNoLeaves(w, w3, w4, 0);
  }

  /** With the frame below 128 MiB, where its mark is in the bitmap. */
  lemma BootMapPageInv(w: World, p: seq<nat>, phys: nat, flags: nat)
    requires Inv(w) && IsPage(p) && p != WINDOW && GoodFlags(flags) && !Live(w, p) && !KernelPage(p)
    requires FreeCount(w.used) >= Missing(w.ram, p, 3) && phys / PAGE_SIZE < FRAMES
    ensures var w' := BootMapPage(w, p, phys, flags);
      && Inv(w') && Grows(w, w') && NoNewLeaves(w, w') && SameLeavesBut(w.ram, w'.ram, p)
      && LeafEntry(w'.ram, p) == BitOr(phys, flags) && w'.used[phys / PAGE_SIZE]
      && FreeCount(w'.used) >= FreeCount(w.used) - Missing(w.ram, p, 3) - 1
  {
    hide Inv, Grows, Walk, LeafEntry, Set, FreeCount, Missing, Placed, SameLeaves, SameLeavesBut, BitOr, Live, KernelPage,
      NoNewLeaves, PathEnsured;
    PlacedInv(w, p, phys, flags);
    var w4 := Placed(w, p, phys, flags);
    InvShape(w4);
    LoaderPlaceIff(phys / PAGE_SIZE);
    MarkInv(w4, BootMapPage(w, p, phys, flags), phys / PAGE_SIZE);
    GrowsTransitive(w, w4, BootMapPage(w, p, phys, flags));
    MarkCount(w4.used, phys / PAGE_SIZE);
    MarkedNoLeaves(w, w4, BootMapPage(w, p, phys, flags), phys / PAGE_SIZE);
  }

  /** The mark is stored in the bitmap, and is the frame's own, exactly when the frame is below 0x8000. */
  lemma LoaderPlaceIff(f: nat)
    ensures LoaderPlace(f) == Mark(f) <==> f < FRAMES
    ensures LoaderPlace(f).Mark? <==> f < FRAMES
  {
    if f >= FRAMES {
      assert f / FRAMES >= 1;
    }
  }

  lemma MarkedNoLeaves(w: World, w4: World, w': World, f: nat)
    requires NoNewLeaves(w, w4) && (w'.owner == w4.owner || w'.owner == w4.owner[f := Claimed])
    ensures NoNewLeaves(w, w')
  {
  }

  lemma StillNotLive(w: World, w3: World, p: seq<nat>)
    requires OnlyTablesAdded(w, w3) && Grows(w, w3) && !Live(w, p)
    ensures !Live(w3, p)
  {
  }

  lemma NotKernelEntry(w: World, p: seq<nat>, t: nat)
    requires Inv(w) && IsPage(p) && !KernelPage(p) && Walk(w.ram, p[..3]) == Some(t)
    ensures t == 4 ==> p[3] != 1 && p[3] != 5 && p[3] != 6
  {
    hide Inv, Walk;
    TableAt(w, p[..3]);
    FourIsFirst(w);
  }

  lemma TablesNoLeaves(w: World, w3: World, w': World, f: nat)
    requires OnlyTablesAdded(w, w3) && Grows(w, w3)
    requires w'.owner == w3.owner || w'.owner == w3.owner[f := Claimed]
    ensures NoNewLeaves(w, w')
  {
  }

  lemma MarkCount(used: seq<bool>, f: nat)
    requires f < |used|
    ensures FreeCount(used[f := true]) >= FreeCount(used) - 1
  {
    hide FreeCount;
    if used[f] {
      assert used[f := true] == used;
    } else {
      FreeCountFlip(used, f);
    }
  }

  lemma SelfLeaves(ram: Ram)
    ensures SameLeaves(ram, ram)
  {
  }

  /** Marking a frame that no table or page of the ledger uses. */
  lemma MarkInv(w: World, w': World, f: nat)
    requires Inv(w) && f < FRAMES && w'.ram == w.ram
    requires w'.used == w.used[f := true] && w'.owner == if f in w.owner then w.owner else w.owner[f := Claimed]
    ensures Inv(w') && Grows(w, w')
  {
    hide Walk, LeafEntry;
  }

  // ---------------------------------------------------------------- marks that miss the bitmap

  /** Setting the mark leaves every word of memory as it was exactly when it falls in the bitmap, beyond the memory
      modelled, or on a bit already set. */
  lemma LoaderMarkIff(w: World, f: nat)
    requires Shape(w)
    ensures var s := LoaderPlace(f);
      SetAt(w, s, f).ram == w.ram <==> f < FRAMES || s.Elsewhere? || HasBit(Get(w.ram, s.frame, s.index), f % 64)
  {
    hide HasBit, SetBit;
    LoaderPlaceIff(f);
    var s := LoaderPlace(f);
    if s.Word? {
      SetBitIff(Get(w.ram, s.frame, s.index), f % 64);
      var row: seq<nat> := w.ram[s.frame];
      assert row[s.index := row[s.index]] == row && w.ram[s.frame := row] == w.ram;
      assert Get(SetAt(w, s, f).ram, s.frame, s.index) == SetBit(Get(w.ram, s.frame, s.index), f % 64);
    }
  }

  /** A mark that falls on the PRESENT bit of an absent entry of an upper page table makes a table appear that is
      none: the invariant is gone. */
  lemma LoaderMarkBreaks(w: World, f: nat)
    requires Inv(w) && LoaderPlace(f).Word? && f % 64 == 0
    requires var t := LoaderPlace(f).frame;
      IsTable(w, t) && |w.owner[t].path| < 3 && Walk(w.ram, w.owner[t].path + [LoaderPlace(f).index]).None?
    ensures !Inv(SetAt(w, LoaderPlace(f), f))
  {
    hide Walk, LeafEntry, LeavesAreMapped, EntriesArePresent;
    var t, i, w' := LoaderPlace(f).frame, LoaderPlace(f).index, SetAt(w, LoaderPlace(f), f);
    var y := w.owner[t].path;
    var x := y + [i];
    assert x[..|x| - 1] == y && IsPath(x, 3) by { OneLonger(w, t, i); }
    if Inv(w') {
      assert Walk(w'.ram, y) == Some(t);
      WalkLast(w'.ram, x, t);
      NowPresent(w, f);
      assert false;
    }
  }

  lemma NowPresent(w: World, f: nat)
    requires Shape(w) && LoaderPlace(f).Word? && f % 64 == 0
    ensures var t, i := LoaderPlace(f).frame, LoaderPlace(f).index; Present(Get(SetAt(w, LoaderPlace(f), f).ram, t, i))
  {
    assert SetBit(Get(w.ram, LoaderPlace(f).frame, LoaderPlace(f).index), 0) % 2 == 1;
  }

  lemma OneLonger(w: World, t: nat, i: nat)
    requires Inv(w) && IsTable(w, t) && |w.owner[t].path| < 3 && i < ENTRIES
    ensures IsPath(w.owner[t].path + [i], 3) && (w.owner[t].path + [i])[..|w.owner[t].path|] == w.owner[t].path
  {
    hide Walk, LeafEntry, LeavesAreMapped, EntriesArePresent, WalksAreTables;
  }

  /** The boot loader's `Kernel_MapPagePhysical`. */
  function BootMapPages(w: World, virt: nat, phys: nat, n: nat, flags: nat): World {
    if n == 0 then w else
      BootMapPage(BootMapPages(w, virt, phys, n - 1, flags), PageAt(virt, n - 1), (phys + (n - 1) * PAGE_SIZE) % WORD_LIMIT, flags)
  }

  function BootTablesMade(w: World, virt: nat, phys: nat, n: nat, flags: nat): nat {
    if n == 0 then 0 else
      BootTablesMade(w, virt, phys, n - 1, flags)
      + Missing(BootMapPages(w, virt, phys, n - 1, flags).ram, PageAt(virt, n - 1), 3)
      + 1   // the physical frame itself may take a free mark
  }

  /** Page i of the range maps to frame i of the physical range, which is marked; other pages are untouched. */
  ghost predicate BootMapped(w: World, w': World, virt: nat, phys: nat, n: nat, flags: nat) {
    && (forall i :: 0 <= i < n ==> BootPage(w', virt, phys, i, flags))
    && (forall q :: IsPage(q) && q != WINDOW && !InRange(q, virt, n) ==> LeafEntry(w'.ram, q) == LeafEntry(w.ram, q))
  }

  ghost predicate BootPage(w: World, virt: nat, phys: nat, i: nat, flags: nat) {
    var f := (phys + i * PAGE_SIZE) % WORD_LIMIT / PAGE_SIZE;
    LeafEntry(w.ram, PageAt(virt, i)) == PhysEntry(phys, i, flags) && f < |w.used| && w.used[f]
  }

  /** None of the pages is live or one through which the kernel reaches its tables; anything else is overwritten. */
  ghost predicate Replaceable(w: World, virt: nat, n: nat) {
    forall i :: 0 <= i < n ==> !Live(w, PageAt(virt, i)) && !KernelPage(PageAt(virt, i))
  }

  /** Every frame of the physical range has its mark in the bitmap. */
  predicate InBitmap(phys: nat, n: nat) {
    forall i :: 0 <= i < n ==> FrameAt(phys, i) < FRAMES
  }

  function FrameAt(phys: nat, i: nat): nat {
    (phys + i * PAGE_SIZE) % WORD_LIMIT / PAGE_SIZE
  }

  lemma {:induction false} BootMapPagesInv(w: World, virt: nat, phys: nat, n: nat, flags: nat)
    requires Inv(w) && GoodFlags(flags) && AvoidsWindow(virt, n) && Replaceable(w, virt, n) && n <= PAGES_IN_SPACE
    requires InBitmap(phys, n)
    requires FreeCount(w.used) >= BootTablesMade(w, virt, phys, n, flags)
    ensures var w' := BootMapPages(w, virt, phys, n, flags);
      && Inv(w') && Grows(w, w') && NoNewLeaves(w, w') && BootMapped(w, w', virt, phys, n, flags)
      && FreeCount(w'.used) >= FreeCount(w.used) - BootTablesMade(w, virt, phys, n, flags)
    decreases n
  {
    hide Inv, Walk, LeafEntry, FreeCount, Missing, PageAt, Grows, BootMapPage, SameLeavesBut, BootPage, BootMapped, BitOr, Live,
      KernelPage, NoNewLeaves, Replaceable;
    if n == 0 {
      MapNothing(w, virt, flags);
      BootNothing(w, virt, phys, flags);
    } else {
      var w1, p, a := BootMapPages(w, virt, phys, n - 1, flags), PageAt(virt, n - 1), (phys + (n - 1) * PAGE_SIZE) % WORD_LIMIT;
      assert InRange(p, virt, n);
      RangeGrows(virt, n);
      NewInRange(virt, n);
      FewerReplaceable(w, virt, n);
      assert FrameAt(phys, n - 1) < FRAMES;
      BootMapPagesInv(w, virt, phys, n - 1, flags);
      StillReplaceable(w, w1, virt, n, n - 1);
      BootMapPageInv(w1, p, a, flags);
      GrowsTransitive(w, w1, BootMapPage(w1, p, a, flags));
      NoNewTwice(w, w1, BootMapPage(w1, p, a, flags));
      InvShape(BootMapPage(w1, p, a, flags));
      BootPageHolds(BootMapPage(w1, p, a, flags), virt, phys, n - 1, flags);
      BootStep(w, w1, BootMapPage(w1, p, a, flags), virt, phys, n, flags);
    }
  }

  lemma FewerReplaceable(w: World, virt: nat, n: nat)
    requires n > 0 && Replaceable(w, virt, n)
    ensures Replaceable(w, virt, n - 1)
  {
    hide PageAt, Live, KernelPage;
  }

  lemma StillReplaceable(w: World, w1: World, virt: nat, n: nat, i: nat)
    requires i < n && Replaceable(w, virt, n) && NoNewLeaves(w, w1)
    ensures !Live(w1, PageAt(virt, i)) && !KernelPage(PageAt(virt, i))
  {
    hide PageAt, KernelPage;
    assert !Live(w, PageAt(virt, i));
  }

  lemma NoNewTwice(a: World, b: World, c: World)
    requires NoNewLeaves(a, b) && NoNewLeaves(b, c)
    ensures NoNewLeaves(a, c)
  {
  }

  lemma BootNothing(w: World, virt: nat, phys: nat, flags: nat)
    ensures BootMapped(w, w, virt, phys, 0, flags) && NoNewLeaves(w, w)
  {
    hide LeafEntry, PageAt;
  }

  lemma BootPageHolds(w: World, virt: nat, phys: nat, i: nat, flags: nat)
    requires var a := (phys + i * PAGE_SIZE) % WORD_LIMIT;
      LeafEntry(w.ram, PageAt(virt, i)) == BitOr(a, flags) && a / PAGE_SIZE < |w.used| && w.used[a / PAGE_SIZE]
    ensures BootPage(w, virt, phys, i, flags)
  {
    hide LeafEntry, PageAt, BitOr;
  }

  lemma BootStep(w: World, w1: World, w2: World, virt: nat, phys: nat, n: nat, flags: nat)
    requires 0 < n <= PAGES_IN_SPACE && BootMapped(w, w1, virt, phys, n - 1, flags) && Grows(w1, w2)
    requires SameLeavesBut(w1.ram, w2.ram, PageAt(virt, n - 1)) && AvoidsWindow(virt, n)
    requires BootPage(w2, virt, phys, n - 1, flags)
    ensures BootMapped(w, w2, virt, phys, n, flags)
  {
    hide LeafEntry, PageAt, PhysEntry;
    NewInRange(virt, n);
    RangeGrows(virt, n);
    forall i | 0 <= i < n ensures BootPage(w2, virt, phys, i, flags) {
      if i < n - 1 {
        assert BootPage(w1, virt, phys, i, flags);
        assert InRange(PageAt(virt, i), virt, n - 1) && InRange(PageAt(virt, i), virt, n);
      }
    }
  }

  // ---------------------------------------------------------------- runs

  datatype Op =
    | GetFrame
    | AllocOp(flags: nat)
    | MapV(virt: nat, length: nat, flags: nat)
    | MapVP(virt: nat, phys: nat, length: nat, flags: nat)
    | UmapV(virt: nat, length: nat)

  function Do(w: World, op: Op): World {
    match op
    case GetFrame => Claim(w, Claimed)
    case AllocOp(flags) => Alloc4K(w, flags)
    case MapV(virt, length, flags) => MapPages(w, virt, PageCount(length), flags)
    case MapVP(virt, phys, length, flags) => MapPhysPages(w, virt, phys, PageCount(length), flags)
    case UmapV(virt, length) => UnmapPages(w, virt, PageCount(length))
  }

  /** What a caller must see to: usable flags, enough frames, the window page left alone,
      and only memory of `page_mapv` or `page_alloc4K` unmapped. */
  ghost predicate Permitted(w: World, op: Op) {
    match op
    case GetFrame => true
    case AllocOp(flags) => GoodFlags(flags) && FreeCount(w.used) > Missing(w.ram, Ident(FirstFree(w.used)), 3)
    case MapV(virt, length, flags) =>
      var n := PageCount(length);
      GoodFlags(flags) && AvoidsWindow(virt, n) && FreeCount(w.used) >= n + TablesMade(w, virt, n, flags)
    case MapVP(virt, phys, length, flags) =>
      var n := PageCount(length);
      GoodFlags(flags) && AvoidsWindow(virt, n) && FreeCount(w.used) >= PhysTablesMade(w, virt, phys, n, flags)
    case UmapV(virt, length) =>
      var n := PageCount(length);
      AvoidsWindow(virt, n) && AllRemovable(w, virt, n) && n <= PAGES_IN_SPACE
  }

  /** Permitted, and identity allocation does not fall on a live page. */
  ghost predicate Legal(w: World, op: Op) {
    Permitted(w, op) && (op.AllocOp? ==> !Live(w, Ident(FirstFree(w.used))))
  }

  function Run(w: World, ops: seq<Op>): World {
    if ops == [] then w else Do(Run(w, ops[..|ops| - 1]), ops[|ops| - 1])
  }

  ghost predicate LegalRun(w: World, ops: seq<Op>) {
    ops == [] || (LegalRun(w, ops[..|ops| - 1]) && Legal(Run(w, ops[..|ops| - 1]), ops[|ops| - 1]))
  }

  lemma DoInv(w: World, op: Op)
    requires Inv(w) && Legal(w, op)
    ensures Inv(Do(w, op))
  {
    hide Inv, LeafEntry, MapPages, MapPhysPages, UnmapPages, FreeCount, PageAt, Alloc4K, Missing, TablesMade, PhysTablesMade;
    match op
    case GetFrame =>
      if FreeCount(w.used) > 0 {
        ClaimInv(w);
      } else {
        FreeCountPositive(w.used);
        InvShape(w);
      }
    case AllocOp(flags) => Alloc4KInv(w, flags);
    case MapV(virt, length, flags) => MapPagesInv(w, virt, PageCount(length), flags);
    case MapVP(virt, phys, length, flags) => MapPhysPagesInv(w, virt, phys, PageCount(length), flags);
    case UmapV(virt, length) => UnmapPagesInv(w, virt, PageCount(length));
  }

  lemma {:induction false} RunInv(w: World, ops: seq<Op>)
    requires Inv(w) && LegalRun(w, ops)
    ensures Inv(Run(w, ops))
  {
    hide Inv, Legal, Do;
    if ops != [] {
      RunInv(w, ops[..|ops| - 1]);
      DoInv(Run(w, ops[..|ops| - 1]), ops[|ops| - 1]);
    }
  }

  /** After every legal run from the boot state the page tables form a tree of pairwise distinct, marked frames,
      none of which is the memory of a live page; and no two live pages share memory. */
  lemma TablesFormTree(ram: Ram, ops: seq<Op>, x: seq<nat>, y: seq<nat>, p: seq<nat>, q: seq<nat>)
    requires FullRam(ram) && LegalRun(BootWorld(ram), ops)
    requires IsPath(x, 3) && IsPath(y, 3) && x != y && p != q
    ensures var w := Run(BootWorld(ram), ops);
      && (Walk(w.ram, x).Some? ==> Walk(w.ram, x).value < |w.used| && w.used[Walk(w.ram, x).value])
      && (Walk(w.ram, x).Some? ==> Walk(w.ram, x) != Walk(w.ram, y))
      && (Live(w, p) ==> Walk(w.ram, p).Some? && Walk(w.ram, p).value < |w.used| && w.used[Walk(w.ram, p).value])
      && (Live(w, p) && Walk(w.ram, x).Some? ==> Walk(w.ram, p) != Walk(w.ram, x))
      && (Live(w, p) && Live(w, q) ==> Walk(w.ram, p) != Walk(w.ram, q))
  {
    hide Inv, Walk, BootWorld, Live;
    var w := Run(BootWorld(ram), ops);
    BootInv(ram);
    RunInv(BootWorld(ram), ops);
    TreeFacts(w, x, y, p, q);
  }

  lemma TreeFacts(w: World, x: seq<nat>, y: seq<nat>, p: seq<nat>, q: seq<nat>)
    requires Inv(w) && IsPath(x, 3) && IsPath(y, 3) && x != y && p != q
    ensures Walk(w.ram, x).Some? ==> Walk(w.ram, x).value < |w.used| && w.used[Walk(w.ram, x).value]
    ensures Walk(w.ram, x).Some? ==> Walk(w.ram, x) != Walk(w.ram, y)
    ensures Live(w, p) ==> Walk(w.ram, p).Some? && Walk(w.ram, p).value < |w.used| && w.used[Walk(w.ram, p).value]
    ensures Live(w, p) && Walk(w.ram, x).Some? ==> Walk(w.ram, p) != Walk(w.ram, x)
    ensures Live(w, p) && Live(w, q) ==> Walk(w.ram, p) != Walk(w.ram, q)
  {
    hide Walk, LeafEntry, LeavesAreMapped, EntriesArePresent, TablesAreWalked;
    if Walk(w.ram, x).Some? {
      TableAt(w, x);
      if Walk(w.ram, y).Some? {
        TableAt(w, y);
      }
    }
    if Live(w, p) {
      var f :| f in w.owner && w.owner[f] == Leaf(p);
      LiveWalk(w, p, f);
      if Live(w, q) {
        var g :| g in w.owner && w.owner[g] == Leaf(q);
        LiveWalk(w, q, g);
      }
    }
  }

  // ---------------------------------------------------------------- keeping the identity region clear

  /** The 128 MiB of addresses at which `page_alloc4K` maps frames. */
  predicate InLow(p: seq<nat>) {
    |p| == 4 && p[0] == 0 && p[1] == 0 && p[2] < 64
  }

  ghost predicate LowIsIdentity(w: World) {
    forall f :: f in w.owner && w.owner[f].Leaf? && InLow(w.owner[f].page) ==> w.owner[f].page == Ident(f)
  }

  ghost predicate KeepsLow(op: Op) {
    op.MapV? ==> forall p :: InLow(p) ==> !InRange(p, op.virt, PageCount(op.length))
  }

  /** If only identity allocation creates live pages there, it never falls on one. */
  lemma AllocIsClear(w: World)
    requires Inv(w) && LowIsIdentity(w) && FirstFree(w.used) < FRAMES
    ensures !Live(w, Ident(FirstFree(w.used)))
  {
    hide Walk, LeafEntry, LeavesAreMapped, EntriesArePresent, TablesAreWalked, WalksAreTables;
    var f := FirstFree(w.used);
    if Live(w, Ident(f)) {
      var g :| g in w.owner && w.owner[g] == Leaf(Ident(f));
      IdentLow(f);
      IdentInjective(f, g);
    }
  }

  lemma IdentLow(f: nat)
    requires f < FRAMES
    ensures InLow(Ident(f))
  {
    assert f / ENTRIES < 64;
  }

  lemma {:induction false} MapPagesLow(w: World, virt: nat, n: nat, flags: nat)
    requires Inv(w) && GoodFlags(flags) && AvoidsWindow(virt, n) && LowIsIdentity(w)
    requires FreeCount(w.used) >= n + TablesMade(w, virt, n, flags)
    requires forall p :: InLow(p) ==> !InRange(p, virt, n)
    ensures LowIsIdentity(MapPages(w, virt, n, flags))
    decreases n
  {
    hide Inv, LeafEntry, MapPage, Missing, FreeCount, RangeMapped, Mapped, NewMarks, PageAt, FreshPage, Grows, LowIsIdentity;
    if n > 0 {
      var w1, p := MapPages(w, virt, n - 1, flags), PageAt(virt, n - 1);
      assert InRange(p, virt, n);
      RangeGrows(virt, n);
      MapPagesInv(w, virt, n - 1, flags);
      MapPagesLow(w, virt, n - 1, flags);
      MapPageInv(w1, p, flags);
      MapPageLow(w1, MapPage(w1, p, flags), p);
    }
  }

  lemma MapPageLow(w: World, w': World, p: seq<nat>)
    requires Inv(w) && Inv(w') && Grows(w, w') && |p| == 4 && NewMarks(w, w', p) && !InLow(p) && LowIsIdentity(w)
    ensures LowIsIdentity(w')
  {
    hide Walk, LeafEntry, LeavesAreMapped, EntriesArePresent, TablesAreWalked, WalksAreTables;
  }

  lemma UnmapLow(w: World, w': World, virt: nat, n: nat)
    requires RangeUnmapped(w, w', virt, n) && LowIsIdentity(w)
    ensures LowIsIdentity(w')
  {
    hide Walk, LeafEntry;
  }

  /** The loader's mappings add no live page, so they keep this too. */
  lemma BootMapPagesLow(w: World, virt: nat, phys: nat, n: nat, flags: nat)
    requires Inv(w) && GoodFlags(flags) && AvoidsWindow(virt, n) && Replaceable(w, virt, n) && n <= PAGES_IN_SPACE
    requires InBitmap(phys, n)
    requires FreeCount(w.used) >= BootTablesMade(w, virt, phys, n, flags) && LowIsIdentity(w)
    ensures LowIsIdentity(BootMapPages(w, virt, phys, n, flags))
  {
    hide Inv, BootMapPages, FreeCount, PageAt, BootTablesMade, Grows, BootMapped, AvoidsWindow, Replaceable, InLow;
    BootMapPagesInv(w, virt, phys, n, flags);
  }

  lemma TablesLow(w: World, w': World)
    requires OnlyTablesAdded(w, w') && Grows(w, w') && LowIsIdentity(w)
    ensures LowIsIdentity(w')
  {
  }

  lemma AllocLow(w: World, w': World, f: nat, flags: nat)
    requires Inv(w) && Inv(w') && Grows(w, w') && MarksBeside(w, w', f) && FreshPage(w, w', Ident(f), flags)
    requires LeafEntry(w'.ram, Ident(f)) / PAGE_SIZE == f && LowIsIdentity(w)
    ensures LowIsIdentity(w')
  {
    hide Walk, LeafEntry, LeavesAreMapped, EntriesArePresent, TablesAreWalked, WalksAreTables;
  }

  lemma DoLow(w: World, op: Op)
    requires Inv(w) && Legal(w, op) && LowIsIdentity(w) && KeepsLow(op)
    ensures LowIsIdentity(Do(w, op))
  {
    hide Inv, LeafEntry, MapPages, MapPhysPages, UnmapPages, FreeCount, PageAt, Alloc4K, Missing, TablesMade,
      PhysTablesMade, LowIsIdentity, FreshPage, Grows, MarksBeside, OnlyTablesAdded, FirstFree, InLow;
    match op
    case GetFrame => ClaimLow(w);
    case AllocOp(flags) =>
      Alloc4KInv(w, flags);
      AllocLow(w, Alloc4K(w, flags), FirstFree(w.used), flags);
    case MapV(virt, length, flags) => MapPagesLow(w, virt, PageCount(length), flags);
    case MapVP(virt, phys, length, flags) =>
      MapPhysPagesInv(w, virt, phys, PageCount(length), flags);
      TablesLow(w, MapPhysPages(w, virt, phys, PageCount(length), flags));
    case UmapV(virt, length) =>
      UnmapPagesInv(w, virt, PageCount(length));
      UnmapLow(w, UnmapPages(w, virt, PageCount(length)), virt, PageCount(length));
  }

  lemma ClaimLow(w: World)
    requires LowIsIdentity(w)
    ensures LowIsIdentity(Claim(w, Claimed))
  {
  }

  ghost predicate PermittedRun(w: World, ops: seq<Op>) {
    ops == []
    || (PermittedRun(w, ops[..|ops| - 1]) && Permitted(Run(w, ops[..|ops| - 1]), ops[|ops| - 1])
        && KeepsLow(ops[|ops| - 1]))
  }

  /** A run that maps no fresh memory in the identity region never has `page_alloc4K` displace a live page. */
  lemma {:induction false} PermittedIsLegal(w: World, ops: seq<Op>)
    requires Inv(w) && LowIsIdentity(w) && PermittedRun(w, ops)
    ensures LegalRun(w, ops) && LowIsIdentity(Run(w, ops)) && Inv(Run(w, ops))
  {
    hide Inv, Do, LowIsIdentity, KeepsLow, Live, Missing, FreeCount;
    if ops != [] {
      var before, op := ops[..|ops| - 1], ops[|ops| - 1];
      PermittedIsLegal(w, before);
      if op.AllocOp? {
        InvShape(Run(w, before));
        FreeCountPositive(Run(w, before).used);
        AllocIsClear(Run(w, before));
      }
      DoInv(Run(w, before), op);
      DoLow(Run(w, before), op);
    }
  }
}

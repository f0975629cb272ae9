/** One page at a time: mapping, unmapping and identity allocation as steps on the whole paging state,
    each shown to keep the tree invariant and to change the translation of that page alone. */
module PageSteps {
  import opened Words
  import opened PageTables

  const BITMAP_ADDRESS: nat := 0x6000
  const BITMAP_FRAME: nat := 6

  // ---------------------------------------------------------------- the steps

  /** One turn of the loop in `page_mapv`. A page whose entry is not empty keeps it, but the frame has
      already been claimed, and the window is left on its page table. */
  function MapPage(w: World, p: seq<nat>, flags: nat): World
    requires |p| == 4
  {
    var w3 := EnsurePath(w, p, 3, flags);
    var f := FirstFree(w3.used);
    var w4 := Claim(w3, Claimed);
    match Walk(w3.ram, p[..3])
    case None => w4
    case Some(t) =>
      if LeafEntry(w4.ram, p) != 0 then SetWindow(w4, t * PAGE_SIZE + 3)
      else w4.(ram := Set(w4.ram, t, p[3], f * PAGE_SIZE + flags), owner := w4.owner[f := Leaf(p)])
  }

  /** One turn of the loop in `page_mapvp`, storing entry `e` unless the page has one. */
  function MapPhysPage(w: World, p: seq<nat>, e: nat, flags: nat): World
    requires |p| == 4
  {
    var w3 := EnsurePath(w, p, 3, flags);
    match Walk(w3.ram, p[..3])
    case None => w3
    case Some(t) =>
      if LeafEntry(w3.ram, p) != 0 then SetWindow(w3, 0)
      else SetWindow(w3.(ram := Set(w3.ram, t, p[3], e)), 0)
  }

  /** The page of a frame's own address. */
  function Ident(f: nat): seq<nat> {
    [0, 0, f / ENTRIES % ENTRIES, f % ENTRIES]
  }

  /** `page_alloc4K`: claim a frame and map it at its own address, whatever was mapped there. */
  function Alloc4K(w: World, flags: nat): World {
    var f := FirstFree(w.used);
    var p := Ident(f);
    var w3 := EnsurePath(Claim(w, Claimed), p, 3, flags);
    match Walk(w3.ram, p[..3])
    case None => w3
    case Some(t) =>
      SetWindow(w3.(ram := Set(w3.ram, t, p[3], f * PAGE_SIZE + flags), owner := w3.owner[f := Leaf(p)]), 0)
  }

  /** The bit `page_clear_bitmap` addresses for an entry: the byte index is cut to 32 bits. */
  function MarkIndex(e: nat): nat {
    e / PAGE_SIZE / 8 % DWORD_LIMIT * 8 + e / PAGE_SIZE % 8
  }

  /** For an address below 128 MiB the bit is the frame's own, and inside the bitmap. */
  lemma MarkOfFrame(e: nat)
    ensures e / PAGE_SIZE < FRAMES ==> MarkIndex(e) == e / PAGE_SIZE
    ensures MarkIndex(e) < FRAMES <==> e / PAGE_SIZE / 8 % DWORD_LIMIT < 0x1000
  {
    if e / PAGE_SIZE < FRAMES {
      assert e / PAGE_SIZE / 8 % DWORD_LIMIT == e / PAGE_SIZE / 8;
    }
  }

  /** Where a store to bit `b` of a page goes, by the physical page it falls in: to a mark of the bitmap, which is
      kept in frame 6, to a word of another frame, or beyond the 128 MiB modelled. */
  datatype Place = Fault | Mark(bit: nat) | Word(frame: nat, index: nat) | Elsewhere

  function Spot(page: nat, b: nat): Place {
    if page == BITMAP_FRAME then Mark(b % FRAMES)
    else if page < FRAMES then Word(page, b / 64 % ENTRIES)
    else Elsewhere
  }

  /** Bit `b` counted from the start of the bitmap, at its virtual address: the page tables decide what is stored to. */
  function MarkPlace(ram: Ram, b: nat): Place {
    match Walk(ram, PageOf(BITMAP_ADDRESS + b / 8))
    case None => Fault
    case Some(f) => Spot(f, b)
  }

  function SetAt(w: World, s: Place, b: nat): World {
    match s
    case Mark(i) =>
      World(w.ram, if i < |w.used| then w.used[i := true] else w.used,
            if i in w.owner || i >= |w.used| then w.owner else w.owner[i := Claimed])
    case Word(f, i) => w.(ram := Set(w.ram, f, i, SetBit(Get(w.ram, f, i), b % 64)))
    case _ => w
  }

  function ClearAt(w: World, s: Place, b: nat): World {
    match s
    case Mark(i) => World(w.ram, if i < |w.used| then w.used[i := false] else w.used, w.owner - {i})
    case Word(f, i) => w.(ram := Set(w.ram, f, i, ClearBit(Get(w.ram, f, i), b % 64)))
    case _ => w
  }

  /** The page's entry emptied, its table still open in the window: the state in which `page_clear_bitmap` stores. */
  function Emptied(w: World, p: seq<nat>): World
    requires |p| == 4
  {
    match Walk(w.ram, p[..3])
    case None => w
    case Some(t) => SetWindow(w.(ram := Set(w.ram, t, p[3], 0)), t * PAGE_SIZE + 3)
  }

  /** Where unmapping page `p`, which has a table, clears a bit. */
  function UnmapPlace(w: World, p: seq<nat>): Place
    requires |p| == 4
  {
    MarkPlace(Emptied(w, p).ram, MarkIndex(LeafEntry(w.ram, p)))
  }

  /** One turn of the loop in `page_umapv`. With a table missing it only moves the window; otherwise it empties
      the entry and clears the bit addressed for what the entry held, wherever that lies. If that store faults, the
      turn ends there. */
  function UnmapPage(w: World, p: seq<nat>): World
    requires |p| == 4
  {
    if Walk(w.ram, p[..1]).None? then w
    else if Walk(w.ram, p[..2]).None? then SetWindow(w, Walk(w.ram, p[..1]).value * PAGE_SIZE + 3)
    else if Walk(w.ram, p[..3]).None? then SetWindow(w, Walk(w.ram, p[..2]).value * PAGE_SIZE + 3)
    else if UnmapPlace(w, p).Fault? then Emptied(w, p)
    else SetWindow(ClearAt(Emptied(w, p), UnmapPlace(w, p), MarkIndex(LeafEntry(w.ram, p))), 0)
  }

  // ---------------------------------------------------------------- creating the path

  ghost predicate PathEnsured(w: World, w': World, p: seq<nat>, k: nat)
    requires k <= |p|
  {
    && Inv(w') && Grows(w, w') && OnlyTablesAdded(w, w') && SameLeaves(w.ram, w'.ram) && Walk(w'.ram, p[..k]).Some?
    && FreeCount(w'.used) == FreeCount(w.used) - Missing(w.ram, p, k)
    && forall y :: IsPath(y, 3) && !(y <= p[..k]) ==> Walk(w'.ram, y) == Walk(w.ram, y)
  }

  lemma {:induction false} EnsurePathInv(w: World, p: seq<nat>, k: nat, flags: nat)
    requires Inv(w) && IsPage(p) && k <= 3 && GoodFlags(flags)
    requires FreeCount(w.used) >= Missing(w.ram, p, k)
    ensures PathEnsured(w, EnsurePath(w, p, k, flags), p, k)
    decreases k
  {
    hide Inv, PathEnsured, EnsuredTable, EnsureTable, FreeCount, Walk;
    if k == 0 {
      PathNothing(w, p);
    } else {
      var w1, x := EnsurePath(w, p, k - 1, flags), p[..k];
      EnsurePathInv(w, p, k - 1, flags);
      PathFacts(w, w1, p, k);
      assert x[..k - 1] == p[..k - 1];
      EnsureTableInv(w1, x, flags);
      PathStep(w, w1, EnsureTable(w1, x, flags), p, k);
    }
  }

  lemma PathFacts(w: World, w1: World, p: seq<nat>, k: nat)
    requires 0 < k <= 3 && IsPage(p) && PathEnsured(w, w1, p, k - 1)
    ensures Inv(w1) && Walk(w1.ram, p[..k - 1]).Some? && Walk(w1.ram, p[..k]) == Walk(w.ram, p[..k])
    ensures FreeCount(w1.used) == FreeCount(w.used) - Missing(w.ram, p, k - 1)
  {
    hide Inv, Grows, OnlyTablesAdded, SameLeaves, Walk;
    assert IsPath(p[..k], 3) && !(p[..k] <= p[..k - 1]);
  }

  lemma PathNothing(w: World, p: seq<nat>)
    requires Inv(w) && IsPage(p)
    ensures PathEnsured(w, w, p, 0)
  {
    hide Inv;
    assert p[..0] == [];
  }

  lemma PathStep(w: World, w1: World, w2: World, p: seq<nat>, k: nat)
    requires IsPage(p) && 0 < k <= 3 && PathEnsured(w, w1, p, k - 1) && EnsuredTable(w1, w2, p[..k])
    ensures PathEnsured(w, w2, p, k)
  {
    hide Inv, Grows, OnlyTablesAdded, SameLeaves, Walk, FreeCount;
    PathFacts(w, w1, p, k);
    GrowsTransitive(w, w1, w2);
    TablesAddedTransitive(w, w1, w2);
    SameLeavesTransitive(w.ram, w1.ram, w2.ram);
    assert !(p[..k] <= p[..k - 1]);
    forall y | IsPath(y, 3) && !(y <= p[..k]) ensures Walk(w2.ram, y) == Walk(w.ram, y) {
      assert !(y <= p[..k - 1]);
    }
  }

  lemma TablesAddedTransitive(a: World, b: World, c: World)
    requires Grows(a, b) && Grows(b, c) && OnlyTablesAdded(a, b) && OnlyTablesAdded(b, c)
    ensures OnlyTablesAdded(a, c)
  {
  }

  // ---------------------------------------------------------------- writing a leaf entry

  /** Only the last-level entry of page `p` (and perhaps the window slot) changes. */
  ghost predicate LeafWrite(w: World, w': World, t: nat, p: seq<nat>) {
    && IsPage(p) && p != WINDOW && Shape(w) && Shape(w')
    && Walk(w.ram, p[..3]) == Some(t) && SameBut(w.ram, w'.ram, FRAMES, t, p[3])
  }

  lemma LeafWriteEffect(w: World, w': World, t: nat, p: seq<nat>)
    requires Inv(w) && LeafWrite(w, w', t, p)
    ensures forall x :: IsPath(x, 3) ==> Walk(w'.ram, x) == Walk(w.ram, x)
    ensures SameLeavesBut(w.ram, w'.ram, p)
    ensures LeafEntry(w'.ram, p) == Get(w'.ram, t, p[3])
    ensures t in w.owner && w.owner[t] == Table(p[..3])
  {
    hide Walk, TablesAreWalked, LeavesAreMapped, EntriesArePresent, PointersAreClean, LowMapping, LeafEntry;
    TableAt(w, p[..3]);
    LowTables(w.ram, w.owner);
    forall x | IsPath(x, 3) ensures Walk(w'.ram, x) == Walk(w.ram, x) {
      QuietWalk(w.ram, w'.ram, w.owner, FRAMES, t, p[3], x);
    }
    LeafIsEntry(w'.ram, t, p);
    assert p == p[..3] + [p[3]];
    forall q | IsPage(q) && q != WINDOW && q != p ensures LeafEntry(w'.ram, q) == LeafEntry(w.ram, q) {
      QuietLeaf(w.ram, w'.ram, w.owner, FRAMES, t, p[3], q);
    }
  }

  /** Every page but `p` (and the window) keeps its entry. */
  ghost predicate SameLeavesBut(a: Ram, b: Ram, p: seq<nat>) {
    forall q :: IsPage(q) && q != WINDOW && q != p ==> LeafEntry(b, q) == LeafEntry(a, q)
  }

  lemma SameLeavesWeaken(a: Ram, b: Ram, p: seq<nat>)
    requires SameLeaves(a, b)
    ensures SameLeavesBut(a, b, p)
  {
    hide LeafEntry;
  }

  /** The ledger afterwards: tables as before, `p` owns at most the frame its entry names, other pages as before. */
  ghost predicate LedgerMoves(w: World, w': World, p: seq<nat>, e: nat) {
    && OwnedAreMarked(w') && LowFramesTaken(w')
    && (forall f :: IsTable(w, f) ==> f in w'.owner && w'.owner[f] == w.owner[f])
    && (forall f :: f in w'.owner && w'.owner[f].Table? ==> IsTable(w, f) && w.owner[f] == w'.owner[f])
    && (forall f :: f in w'.owner && w'.owner[f].Leaf? ==>
          (w'.owner[f] == Leaf(p) && Present(e) && e / PAGE_SIZE == f)
          || (w'.owner[f] != Leaf(p) && f in w.owner && w.owner[f] == w'.owner[f]))
  }

  lemma LeafWriteInv(w: World, w': World, t: nat, p: seq<nat>)
    requires Inv(w) && LeafWrite(w, w', t, p) && LowMapping(w'.ram)
    requires LedgerMoves(w, w', p, Get(w'.ram, t, p[3]))
    requires Get(w'.ram, t, p[3]) == 0 || Present(Get(w'.ram, t, p[3]))
    ensures Inv(w')
  {
    LeafWriteEffect(w, w', t, p);
    LeafWriteTables(w, w');
    assert PointersAreClean(w'.ram, w'.owner) by {
      LowTables(w.ram, w.owner);
      PointersKept(w.ram, w'.ram, w.owner, w'.owner, FRAMES, t, p[3]);
    }
  }

  lemma LeafWriteTables(w: World, w': World)
    requires WalksAreTables(w.ram, w.owner) && TablesAreWalked(w.ram, w.owner)
    requires forall x :: IsPath(x, 3) ==> Walk(w'.ram, x) == Walk(w.ram, x)
    requires forall f :: IsTable(w, f) ==> f in w'.owner && w'.owner[f] == w.owner[f]
    requires forall f :: f in w'.owner && w'.owner[f].Table? ==> IsTable(w, f) && w.owner[f] == w'.owner[f]
    ensures WalksAreTables(w'.ram, w'.owner) && TablesAreWalked(w'.ram, w'.owner)
  {
    forall x | IsPath(x, 3) && Walk(w'.ram, x).Some?
      ensures Walk(w'.ram, x).value in w'.owner && w'.owner[Walk(w'.ram, x).value] == Table(x)
    {
      assert IsTable(w, Walk(w.ram, x).value);
    }
  }

  // ---------------------------------------------------------------- the window slot alone

  lemma SetWindowInv(w: World, e: nat)
    requires Inv(w)
    ensures var w' := SetWindow(w, e);
      && Inv(w') && Grows(w, w') && SameLeaves(w.ram, w'.ram)
    ensures forall x :: IsPath(x, 3) ==> Walk(SetWindow(w, e).ram, x) == Walk(w.ram, x)
  {
    LowTables(w.ram, w.owner);
    var w' := SetWindow(w, e);
    assert Shape(w') && SameBut(w.ram, w'.ram, FRAMES, 5, 0) && LowMapping(w'.ram);
    WindowSlotInv(w, w');
  }

  lemma WindowSlotInv(w: World, w': World)
    requires Inv(w) && Shape(w') && SameBut(w.ram, w'.ram, FRAMES, 5, 0) && LowMapping(w'.ram)
    requires w'.used == w.used && w'.owner == w.owner
    ensures Inv(w') && SameLeaves(w.ram, w'.ram)
    ensures forall x :: IsPath(x, 3) ==> Walk(w'.ram, x) == Walk(w.ram, x)
  {
    LowTables(w.ram, w.owner);
    forall x | IsPath(x, 3) ensures Walk(w'.ram, x) == Walk(w.ram, x) {
      QuietWalk(w.ram, w'.ram, w.owner, FRAMES, 5, 0, x);
    }
    forall p | IsPage(p) && p != WINDOW ensures LeafEntry(w'.ram, p) == LeafEntry(w.ram, p) {
      QuietLeaf(w.ram, w'.ram, w.owner, FRAMES, 5, 0, p);
    }
    SameLeavesPresent(w.ram, w'.ram);
    LeafWriteTables(w, w');
    PointersKept(w.ram, w'.ram, w.owner, w'.owner, FRAMES, 5, 0);
  }

  // ---------------------------------------------------------------- mapping one page

  /** What `page_mapv` does to one page, in terms of the flat map from pages to entries. */
  ghost predicate Mapped(w: World, w': World, p: seq<nat>, flags: nat)
    requires |p| > 0
  {
    && SameLeavesBut(w.ram, w'.ram, p)
    && (if LeafEntry(w.ram, p) != 0 then LeafEntry(w'.ram, p) == LeafEntry(w.ram, p)
        else FreshPage(w, w', p, flags))
  }

  /** Page `p` translates to a frame that was unmarked before, holds zeros, and is now registered for `p`. */
  ghost predicate FreshPage(w: World, w': World, p: seq<nat>, flags: nat)
    requires |p| > 0
  {
    var f := LeafEntry(w'.ram, p) / PAGE_SIZE;
    && LeafEntry(w'.ram, p) == f * PAGE_SIZE + flags
    && f < |w.used| && !w.used[f] && f in w'.owner && w'.owner[f] == Leaf(p)
    && f < |w'.ram| && w'.ram[f] == Zeros()
  }

  /** Every frame marked by mapping page `p` is a new table, the page's memory, or the frame wasted because
      the page had an entry already. */
  ghost predicate NewMarks(w: World, w': World, p: seq<nat>)
    requires |p| > 0
  {
    forall g :: 0 <= g < |w'.used| && w'.used[g] && g < |w.used| && !w.used[g] ==>
      g in w'.owner && (w'.owner[g].Table? || w'.owner[g] == (if LeafEntry(w.ram, p) == 0 then Leaf(p) else Claimed))
  }

  lemma MapPageInv(w: World, p: seq<nat>, flags: nat)
    requires Inv(w) && IsPage(p) && p != WINDOW && GoodFlags(flags)
    requires FreeCount(w.used) > Missing(w.ram, p, 3)
    ensures var w' := MapPage(w, p, flags);
      && Inv(w') && Grows(w, w') && Mapped(w, w', p, flags) && NewMarks(w, w', p)
      && FreeCount(w'.used) == FreeCount(w.used) - Missing(w.ram, p, 3) - 1
  {
    hide Inv, Grows, Mapped, SameLeaves, EnsurePath, Missing, Walk, LeafEntry, Claim, FirstFree, FreeCount, Set;
    var w3 := EnsurePath(w, p, 3, flags);
    EnsurePathInv(w, p, 3, flags);
    ClaimInv(w3);
    TableAt(w3, p[..3]);
    InvShape(w);
    ClaimFacts(w3, Claimed);
    SameLeavesAt(w3.ram, Claim(w3, Claimed).ram, p);
    SameLeavesAt(w.ram, w3.ram, p);
    assert NewMarks(w, MapPage(w, p, flags), p) by {
      MapPageMarks(w, w3, Claim(w3, Claimed), MapPage(w, p, flags), FirstFree(w3.used), p);
    }
    if LeafEntry(Claim(w3, Claimed).ram, p) != 0 {
      MapPageKept(w, w3, Claim(w3, Claimed), p, flags);
    } else {
      MapPageFresh(w, w3, Claim(w3, Claimed), FirstFree(w3.used), p, flags);
    }
  }

  lemma InvShape(w: World)
    requires Inv(w)
    ensures Shape(w) && OwnedAreMarked(w)
  {
  }

  lemma SameLeavesAt(a: Ram, b: Ram, p: seq<nat>)
    requires SameLeaves(a, b) && IsPage(p) && p != WINDOW
    ensures LeafEntry(a, p) == LeafEntry(b, p)
  {
  }

  lemma MapPageMarks(w: World, w3: World, w4: World, w': World, f: nat, p: seq<nat>)
    requires |p| == 4 && Shape(w) && Shape(w3) && OnlyTablesAdded(w, w3) && Marks(w3, w4, f, Claimed)
    requires w'.used == w4.used
    requires w'.owner == if LeafEntry(w.ram, p) == 0 then w4.owner[f := Leaf(p)] else w4.owner
    ensures NewMarks(w, w', p)
  {
    hide LeafEntry;
  }

  lemma MapPageKept(w: World, w3: World, w4: World, p: seq<nat>, flags: nat)
    requires IsPage(p) && p != WINDOW && Walk(w3.ram, p[..3]).Some?
    requires Grows(w, w3) && SameLeaves(w.ram, w3.ram)
    requires Inv(w4) && Grows(w3, w4) && SameLeaves(w3.ram, w4.ram) && LeafEntry(w4.ram, p) != 0
    ensures var w' := SetWindow(w4, Walk(w3.ram, p[..3]).value * PAGE_SIZE + 3);
      Inv(w') && Grows(w, w') && Mapped(w, w', p, flags)
  {
    hide Inv, Grows, Walk, LeafEntry, Set;
    GrowsTransitive(w, w3, w4);
    SetWindowInv(w4, Walk(w3.ram, p[..3]).value * PAGE_SIZE + 3);
    GrowsTransitive(w, w4, SetWindow(w4, Walk(w3.ram, p[..3]).value * PAGE_SIZE + 3));
  }

  lemma MapPageFresh(w: World, w3: World, w4: World, f: nat, p: seq<nat>, flags: nat)
    requires IsPage(p) && p != WINDOW && GoodFlags(flags) && Shape(w)
    requires Grows(w, w3) && SameLeaves(w.ram, w3.ram) && Walk(w3.ram, p[..3]).Some?
    requires Inv(w3) && Inv(w4) && Grows(w3, w4) && SameLeaves(w3.ram, w4.ram)
    requires Shape(w3) && Shape(w4) && Marks(w3, w4, f, Claimed) && w4.ram[f] == Zeros()
    requires Walk(w4.ram, p[..3]) == Walk(w3.ram, p[..3]) && LeafEntry(w4.ram, p) == 0
    ensures var t := Walk(w3.ram, p[..3]).value;
      var w' := w4.(ram := Set(w4.ram, t, p[3], f * PAGE_SIZE + flags), owner := w4.owner[f := Leaf(p)]);
      Inv(w') && Grows(w, w') && Mapped(w, w', p, flags)
  {
    hide Inv, SameLeaves, Walk, LeafEntry, Grows;
    var t := Walk(w3.ram, p[..3]).value;
    var w' := w4.(ram := Set(w4.ram, t, p[3], f * PAGE_SIZE + flags), owner := w4.owner[f := Leaf(p)]);
    UnmarkedUnowned(w3, f);
    LowFrameFree(w3, f);
    EmptyNotLive(w4, p);
    StoreLeaf(w4, w', f, t, p, flags);
    TableAt(w3, p[..3]);
    GrowsThroughClaim(w, w3, w4, w', f, t);
    GrowsUnmarked(w, w3, f);
    assert t != f;
    MappedFresh(w, w3, w4, w', f, p, flags);
  }

  lemma MappedFresh(w: World, w3: World, w4: World, w': World, f: nat, p: seq<nat>, flags: nat)
    requires IsPage(p) && p != WINDOW && GoodFlags(flags)
    requires SameLeaves(w.ram, w3.ram) && SameLeaves(w3.ram, w4.ram) && LeafEntry(w4.ram, p) == 0
    requires f < |w.used| && f < FRAMES && !w.used[f] && f in w'.owner && w'.owner[f] == Leaf(p)
    requires f < |w'.ram| && w'.ram[f] == Zeros()
    requires SameLeavesBut(w4.ram, w'.ram, p)
    requires LeafEntry(w'.ram, p) == f * PAGE_SIZE + flags
    ensures Mapped(w, w', p, flags)
  {
    hide LeafEntry;
  }

  lemma UnmarkedUnowned(w: World, f: nat)
    requires Inv(w) && f < FRAMES && !w.used[f]
    ensures f !in w.owner
  {
  }

  lemma GrowsUnmarked(w: World, w': World, f: nat)
    requires Grows(w, w') && f < |w'.used| && !w'.used[f]
    ensures f < |w.used| && !w.used[f]
  {
  }

  /** Registering a claimed frame for a page nobody owns and storing its entry. */
  lemma StoreLeaf(w: World, w': World, f: nat, t: nat, p: seq<nat>, flags: nat)
    requires Inv(w) && IsPage(p) && p != WINDOW && GoodFlags(flags)
    requires f in w.owner && w.owner[f] == Claimed && 6 < f < FRAMES
    requires Walk(w.ram, p[..3]) == Some(t) && !Live(w, p) && (t == 4 ==> p[3] > 6 || !Present(LeafEntry(w.ram, p)))
    requires w' == w.(ram := Set(w.ram, t, p[3], f * PAGE_SIZE + flags), owner := w.owner[f := Leaf(p)])
    ensures Inv(w')
    ensures SameLeavesBut(w.ram, w'.ram, p)
    ensures LeafEntry(w'.ram, p) == f * PAGE_SIZE + flags
  {
    hide Walk, LeafEntry, WalksAreTables, TablesAreWalked, LeavesAreMapped, EntriesArePresent, LedgerMoves, LowMapping, Live;
    TableAt(w, p[..3]);
    EntryParts(f, flags);
    assert LeafWrite(w, w', t, p);
    LeafWriteEffect(w, w', t, p);
    LeafIsEntry(w.ram, t, p);
    LowKeptLeaf(w, w', t, p);
    StoreLedger(w, w', f, p, f * PAGE_SIZE + flags);
    LeafWriteInv(w, w', t, p);
  }

  /** Last-level writes miss the entries the kernel reaches its tables through. */
  lemma LowKeptLeaf(w: World, w': World, t: nat, p: seq<nat>)
    requires Inv(w) && LeafWrite(w, w', t, p)
    requires t == 4 && (p[3] == 1 || p[3] == 5 || p[3] == 6) ==> !Present(Get(w.ram, t, p[3]))
    ensures LowMapping(w'.ram)
  {
    hide Walk, LeafEntry, TablesAreWalked, LeavesAreMapped, EntriesArePresent, WalksAreTables;
    LowTables(w.ram, w.owner);
    TableAt(w, p[..3]);
    if t == 4 && (p[3] == 1 || p[3] == 5 || p[3] == 6) {
      LowKept(w.ram, w'.ram, FRAMES, t, p[3]);
    }
  }

  lemma LeafIsEntry(ram: Ram, t: nat, p: seq<nat>)
    requires |p| == 4 && Walk(ram, p[..3]) == Some(t)
    ensures LeafEntry(ram, p) == Get(ram, t, p[3])
  {
  }

  lemma StoreLedger(w: World, w': World, f: nat, p: seq<nat>, e: nat)
    requires Inv(w) && IsPage(p) && !Live(w, p)
    requires f in w.owner && w.owner[f] == Claimed && f > 6 && Present(e) && e / PAGE_SIZE == f
    requires w'.used == w.used && w'.owner == w.owner[f := Leaf(p)]
    ensures LedgerMoves(w, w', p, e)
  {
    hide Walk, LeafEntry, WalksAreTables, TablesAreWalked, LeavesAreMapped, EntriesArePresent, LowMapping;
  }

  lemma EmptyNotLive(w: World, p: seq<nat>)
    requires Inv(w) && IsPage(p) && LeafEntry(w.ram, p) == 0
    ensures !Live(w, p)
  {
  }

  lemma GrowsThroughClaim(w: World, w3: World, w4: World, w': World, f: nat, t: nat)
    requires Shape(w) && Shape(w3) && Shape(w4) && Shape(w') && Grows(w, w3) && Grows(w3, w4)
    requires Marks(w3, w4, f, Claimed) && w'.used == w4.used && IsTable(w3, t) && f !in w3.owner
    requires w'.owner.Keys == w4.owner.Keys && forall g :: g in w4.owner && g != f ==> w'.owner[g] == w4.owner[g]
    requires forall g :: 0 <= g < FRAMES && g != t ==> w'.ram[g] == w4.ram[g]
    ensures Grows(w, w')
  {
  }

  // ---------------------------------------------------------------- mapping a given physical page

  lemma MapPhysPageInv(w: World, p: seq<nat>, e: nat, flags: nat)
    requires Inv(w) && IsPage(p) && p != WINDOW && GoodFlags(flags) && Present(e)
    requires FreeCount(w.used) >= Missing(w.ram, p, 3)
    ensures var w' := MapPhysPage(w, p, e, flags);
      && Inv(w') && Grows(w, w') && OnlyTablesAdded(w, w')
      && SameLeavesBut(w.ram, w'.ram, p)
      && LeafEntry(w'.ram, p) == (if LeafEntry(w.ram, p) != 0 then LeafEntry(w.ram, p) else e)
      && FreeCount(w'.used) == FreeCount(w.used) - Missing(w.ram, p, 3)
  {
    hide Inv, Grows, Walk, LeafEntry, Set, FreeCount, Missing, EnsurePath, SameLeaves;
    var w3 := EnsurePath(w, p, 3, flags);
    EnsurePathInv(w, p, 3, flags);
    SameLeavesAt(w.ram, w3.ram, p);
    var t := Walk(w3.ram, p[..3]).value;
    SameMarksAdded(w, w3, MapPhysPage(w, p, e, flags));
    if LeafEntry(w3.ram, p) != 0 {
      SetWindowInv(w3, 0);
      GrowsTransitive(w, w3, SetWindow(w3, 0));
      SameLeavesTransitive(w.ram, w3.ram, SetWindow(w3, 0).ram);
      SameLeavesAt(w.ram, SetWindow(w3, 0).ram, p);
      SameLeavesWeaken(w.ram, SetWindow(w3, 0).ram, p);
    } else {
      var w4 := w3.(ram := Set(w3.ram, t, p[3], e));
      StorePhys(w3, w4, t, p, e);
      SetWindowInv(w4, 0);
      GrowsTransitive(w, w3, w4);
      GrowsTransitive(w, w4, SetWindow(w4, 0));
      SameLeavesAround(w.ram, w3.ram, w4.ram, SetWindow(w4, 0).ram, p);
    }
  }

  lemma SameMarksAdded(w: World, w3: World, w': World)
    requires OnlyTablesAdded(w, w3) && w'.used == w3.used && w'.owner == w3.owner
    ensures OnlyTablesAdded(w, w')
  {
  }

  lemma SameLeavesTransitive(a: Ram, b: Ram, c: Ram)
    requires SameLeaves(a, b) && SameLeaves(b, c)
    ensures SameLeaves(a, c)
  {
    hide LeafEntry;
  }

  lemma SameLeavesAround(a: Ram, b: Ram, c: Ram, d: Ram, p: seq<nat>)
    requires SameLeaves(a, b) && SameLeavesBut(b, c, p) && SameLeaves(c, d) && IsPage(p) && p != WINDOW
    ensures SameLeavesBut(a, d, p) && LeafEntry(d, p) == LeafEntry(c, p)
  {
    hide LeafEntry;
  }

  lemma StorePhys(w: World, w': World, t: nat, p: seq<nat>, e: nat)
    requires Inv(w) && IsPage(p) && p != WINDOW && Present(e)
    requires Walk(w.ram, p[..3]) == Some(t) && LeafEntry(w.ram, p) == 0
    requires w' == w.(ram := Set(w.ram, t, p[3], e))
    ensures Inv(w') && Grows(w, w')
    ensures SameLeavesBut(w.ram, w'.ram, p)
    ensures LeafEntry(w'.ram, p) == e
  {
    hide Inv, Walk, LeafEntry, Live, Grows;
    LeafIsEntry(w.ram, t, p);
    EmptyNotLive(w, p);
    StoreEntry(w, w', t, p, e);
  }

  /** Storing an entry for a page that is not live and is none of those through which the kernel reaches its tables. */
  lemma StoreEntry(w: World, w': World, t: nat, p: seq<nat>, e: nat)
    requires Inv(w) && IsPage(p) && p != WINDOW && Present(e)
    requires Walk(w.ram, p[..3]) == Some(t) && !Live(w, p)
    requires t == 4 && (p[3] == 1 || p[3] == 5 || p[3] == 6) ==> !Present(Get(w.ram, t, p[3]))
    requires w' == w.(ram := Set(w.ram, t, p[3], e))
    ensures Inv(w') && Grows(w, w')
    ensures SameLeavesBut(w.ram, w'.ram, p)
    ensures LeafEntry(w'.ram, p) == e
  {
    hide Walk, LeafEntry, WalksAreTables, TablesAreWalked, LeavesAreMapped, EntriesArePresent, LedgerMoves, LowMapping, Live;
    TableAt(w, p[..3]);
    assert LeafWrite(w, w', t, p);
    LeafWriteEffect(w, w', t, p);
    LowKeptLeaf(w, w', t, p);
    SameLedger(w, w', p, e);
    LeafWriteInv(w, w', t, p);
  }

  lemma SameLedger(w: World, w': World, p: seq<nat>, e: nat)
    requires Inv(w) && !Live(w, p) && w'.used == w.used && w'.owner == w.owner
    ensures LedgerMoves(w, w', p, e)
  {
    hide Walk, LeafEntry, WalksAreTables, TablesAreWalked, LeavesAreMapped, EntriesArePresent, LowMapping;
  }

  // ---------------------------------------------------------------- identity allocation

  lemma IdentPage(f: nat)
    requires f < FRAMES
    ensures IsPage(Ident(f)) && Ident(f) != WINDOW
    ensures f > 6 && Ident(f)[..3] == [0, 0, 0] ==> Ident(f)[3] > 6
  {
    assert f / ENTRIES < 64;
    assert Ident(f)[..3] == [0, 0, f / ENTRIES];
    assert Ident(f)[2] == f / ENTRIES;
  }

  lemma IdentInjective(f: nat, g: nat)
    requires f < FRAMES && g < FRAMES && Ident(f) == Ident(g)
    ensures f == g
  {
    assert Ident(f)[2] == Ident(g)[2] && Ident(f)[3] == Ident(g)[3];
  }

  lemma DivTwice(x: nat)
    ensures x / 0x20_0000 == x / PAGE_SIZE / ENTRIES
    ensures x / 0x4000_0000 == x / 0x20_0000 / ENTRIES
    ensures x / 0x80_0000_0000 == x / 0x4000_0000 / ENTRIES
  {
    assert x / 0x20_0000 == x / PAGE_SIZE / ENTRIES;
    assert x / 0x4000_0000 == x / 0x20_0000 / ENTRIES;
  }

  /** A frame's own address is in the page of the same number. */
  lemma IdentIsPageOf(f: nat)
    requires f < FRAMES
    ensures PageOf(f * PAGE_SIZE) == Ident(f)
  {
    var x := f * PAGE_SIZE;
    assert x / PAGE_SIZE == f;
    DivTwice(x);
    assert f / ENTRIES < 64;
  }

  /** Everything newly marked is frame `f` or a table. */
  ghost predicate MarksBeside(w: World, w': World, f: nat) {
    forall g :: 0 <= g < |w'.used| && w'.used[g] && g < |w.used| && !w.used[g] ==> g == f || IsTable(w', g)
  }

  lemma Alloc4KInv(w: World, flags: nat)
    requires Inv(w) && GoodFlags(flags)
    requires FreeCount(w.used) > Missing(w.ram, Ident(FirstFree(w.used)), 3)
    requires !Live(w, Ident(FirstFree(w.used)))
    ensures var w', p := Alloc4K(w, flags), Ident(FirstFree(w.used));
      && Inv(w') && Grows(w, w') && FreshPage(w, w', p, flags) && MarksBeside(w, w', FirstFree(w.used))
      && LeafEntry(w'.ram, p) == FirstFree(w.used) * PAGE_SIZE + flags
      && SameLeavesBut(w.ram, w'.ram, p)
      && FreeCount(w'.used) == FreeCount(w.used) - Missing(w.ram, p, 3) - 1
  {
    hide Inv, Grows, Walk, LeafEntry, Set, FreeCount, FirstFree, Missing, EnsurePath, SameLeaves, Claim, IsPath, SetWindow, FreshPage, Live;
    var f := FirstFree(w.used);
    var p := Ident(f);
    var c := Claim(w, Claimed);
    ClaimInv(w);
    LowFacts(w);
    ClaimFacts(w, Claimed);
    IdentPage(f);
    MissingSame(w.ram, c.ram, p, 3);
    var w3 := EnsurePath(c, p, 3, flags);
    EnsurePathInv(c, p, 3, flags);
    Alloc4KFinish(w, c, w3, f, p, flags);
  }

  lemma LowFacts(w: World)
    requires Inv(w)
    ensures Shape(w) && w.used[5]
  {
    LowTables(w.ram, w.owner);
  }

  lemma MissingSame(a: Ram, b: Ram, p: seq<nat>, k: nat)
    requires IsPage(p) && k <= 3 && forall x :: IsPath(x, 3) ==> Walk(b, x) == Walk(a, x)
    ensures Missing(a, p, k) == Missing(b, p, k)
  {
    hide Walk;
    if k > 0 {
      MissingSame(a, b, p, k - 1);
      assert IsPath(p[..k], 3);
    }
  }

  lemma Alloc4KFinish(w: World, c: World, w3: World, f: nat, p: seq<nat>, flags: nat)
    requires Inv(w) && Shape(w) && Shape(c) && Inv(c) && Grows(w, c) && SameLeaves(w.ram, c.ram)
    requires Marks(w, c, f, Claimed) && c.ram[f] == Zeros()
    requires p == Ident(f) && IsPage(p) && p != WINDOW && GoodFlags(flags) && !Live(w, p)
    requires PathEnsured(c, w3, p, 3)
    ensures var t := Walk(w3.ram, p[..3]).value;
      var w' := SetWindow(w3.(ram := Set(w3.ram, t, p[3], f * PAGE_SIZE + flags), owner := w3.owner[f := Leaf(p)]), 0);
      && Inv(w') && Grows(w, w') && FreshPage(w, w', p, flags) && MarksBeside(w, w', f)
      && LeafEntry(w'.ram, p) == f * PAGE_SIZE + flags && w'.used == w3.used
      && SameLeavesBut(w.ram, w'.ram, p)
  {
    hide Inv, Walk, LeafEntry, SameLeaves, IsPath, Live, Grows, Missing, FreeCount;
    var t := Walk(w3.ram, p[..3]).value;
    var w4 := w3.(ram := Set(w3.ram, t, p[3], f * PAGE_SIZE + flags), owner := w3.owner[f := Leaf(p)]);
    var w' := SetWindow(w4, 0);
    LowFrameFree(w, f);
    IdentPage(f);
    TableAt(w3, p[..3]);
    SameLeavesTransitive(w.ram, c.ram, w3.ram);
    StillClaimed(w, c, w3, f, p);
    UnmarkedUnowned(w, f);
    assert t == 4 ==> p[3] > 6 by { FourIsFirst(w3); }
    StoreLeaf(w3, w4, f, t, p, flags);
    SetWindowInv(w4, 0);
    FourIsFirst(w3);
    FourIsFirst(c);
    FourIsFirst(w);
    assert w'.ram[f] == Zeros() && (forall g :: 0 <= g < FRAMES && g != t && g != 5 ==> w'.ram[g] == w3.ram[g]) by {
      InvShape(w3);
    }
    Alloc4KGrows(w, c, w3, w', f, t, p);
    AllocMarks(w, c, w3, w', f, p);
    SameLeavesAround(w.ram, w3.ram, w4.ram, w'.ram, p);
  }

  lemma AllocMarks(w: World, c: World, w3: World, w': World, f: nat, p: seq<nat>)
    requires Marks(w, c, f, Claimed) && OnlyTablesAdded(c, w3) && |w3.used| == |c.used|
    requires w'.used == w3.used && w'.owner == w3.owner[f := Leaf(p)]
    ensures MarksBeside(w, w', f)
  {
  }

  lemma FourIsFirst(w: World)
    requires Inv(w)
    ensures 4 in w.owner && w.owner[4] == Table([0, 0, 0])
    ensures Shape(w) && IsTable(w, 5) && w.used[5]
  {
    LowTables(w.ram, w.owner);
  }

  /** Creating the path leaves the claimed frame registered as claimed, cleared, and its page unowned. */
  lemma StillClaimed(w: World, c: World, w3: World, f: nat, p: seq<nat>)
    requires Inv(w) && Inv(c) && Inv(w3) && Marks(w, c, f, Claimed) && c.ram[f] == Zeros() && Grows(c, w3)
    requires OnlyTablesAdded(c, w3)
    requires |c.ram| == FRAMES && !Live(w, p) && IsPage(p) && p != WINDOW && SameLeaves(w.ram, w3.ram)
    ensures f in w3.owner && w3.owner[f] == Claimed && f < |w3.ram| && w3.ram[f] == Zeros()
    ensures !Live(w3, p)
  {
    hide Inv, SameLeaves, LeafEntry;
  }

  lemma Alloc4KGrows(w: World, c: World, w3: World, w': World, f: nat, t: nat, p: seq<nat>)
    requires Shape(w) && Shape(c) && Shape(w3) && Shape(w') && Grows(w, c) && Grows(c, w3) && IsTable(w3, t)
    requires Marks(w, c, f, Claimed) && f !in w.owner && w'.used == w3.used && w'.owner == w3.owner[f := Leaf(p)]
    requires IsTable(w3, 5) && forall g :: 0 <= g < FRAMES && g != t && g != 5 ==> w'.ram[g] == w3.ram[g]
    requires w3.used[5] && 5 in c.owner && c.owner[5].Table? && w.used[5] && 5 in w.owner && w.owner[5].Table?
    ensures Grows(w, w')
  {
    GrowsTransitive(w, c, w3);
  }

  // ---------------------------------------------------------------- unmapping one page

  /** The bit cleared for page `p` lies in the bitmap and belongs to no marked frame. */
  ghost predicate ClearsNothing(w: World, p: seq<nat>)
    requires |p| == 4
  {
    var f := MarkIndex(LeafEntry(w.ram, p));
    f < |w.used| && !w.used[f]
  }

  /** The pages `page_umapv` may be asked to remove: no page table, memory handed out by `page_mapv` or
      `page_alloc4K`, or a page mapped to an address whose bit lies in the bitmap and is clear. */
  ghost predicate Removable(w: World, p: seq<nat>)
    requires |p| == 4
  {
    Walk(w.ram, p[..3]).None? || Live(w, p) || ClearsNothing(w, p)
  }

  /** The page is empty, its own frame is given back if it had one, and nothing else moved. */
  ghost predicate Unmapped(w: World, w': World, p: seq<nat>)
    requires |p| == 4
  {
    var f := LeafEntry(w.ram, p) / PAGE_SIZE;
    && SameLeavesBut(w.ram, w'.ram, p) && LeafEntry(w'.ram, p) == 0
    && (if Live(w, p) then f < |w.used| && f in w.owner && w.owner[f] == Leaf(p)
                           && w'.used == w.used[f := false] && w'.owner == w.owner - {f}
        else w'.used == w.used && w'.owner == w.owner)
    && forall x :: IsPath(x, 3) ==> Walk(w'.ram, x) == Walk(w.ram, x)
  }

  lemma UnmapPageInv(w: World, p: seq<nat>)
    requires Inv(w) && IsPage(p) && p != WINDOW && Removable(w, p)
    ensures Inv(UnmapPage(w, p)) && Unmapped(w, UnmapPage(w, p), p)
  {
    MissingTable(w.ram, p);
    if Walk(w.ram, p[..3]).None? {
      hide Inv, Walk, Set, LeafEntry;
      assert LeafEntry(w.ram, p) == 0 by { NoTableNoLeaf(w.ram, p); }
      var w' := UnmapPage(w, p);
      var e := Get(w'.ram, 5, 0);
      SameWindow(w);
      assert exists a :: w' == SetWindow(w, a);
      var a :| w' == SetWindow(w, a);
      SetWindowInv(w, a);
      SameLeavesAt(w.ram, w'.ram, p);
      SameLeavesWeaken(w.ram, w'.ram, p);
      assert !Live(w, p) by { EmptyNotLive(w, p); }
    } else if Live(w, p) {
      hide *;
      UnmapLive(w, p);
    } else {
      hide *;
      UnmapForeign(w, p);
    }
  }

  /** Emptying the entry of a page that is not live and whose bit is not a marked frame's. */
  lemma UnmapForeign(w: World, p: seq<nat>)
    requires Inv(w) && IsPage(p) && p != WINDOW && !Live(w, p) && ClearsNothing(w, p) && Walk(w.ram, p[..3]).Some?
    ensures Inv(UnmapPage(w, p)) && Unmapped(w, UnmapPage(w, p), p)
  {
    hide Walk, LeafEntry, LeavesAreMapped, WalksAreTables, TablesAreWalked, EntriesArePresent, LowMapping, SameLeaves, LedgerMoves,
      MarkIndex, UnmapPage;
    var t := Walk(w.ram, p[..3]).value;
    var f := MarkIndex(LeafEntry(w.ram, p));
    var w1 := World(Set(w.ram, t, p[3], 0), w.used, w.owner);
    NothingCleared(w, f);
    TableAt(w, p[..3]);
    LeafWriteEffect(w, w1, t, p);
    LeafIsEntry(w.ram, t, p);
    ForeignNotLow(w, p, t);
    LowKeptLeaf(w, w1, t, p);
    NotBitmapPage(w, p, t);
    UnmapInside(w, p, t);
    SameLedger(w, w1, p, 0);
    LeafWriteInv(w, w1, t, p);
    SetWindowInv(w1, 0);
    SameLeavesAround(w.ram, w.ram, w1.ram, SetWindow(w1, 0).ram, p);
  }

  /** The entries on the way to the bitmap's own page. */
  predicate BitmapMapped(ram: Ram) {
    Get(ram, 1, 0) == 0x2003 && Get(ram, 2, 0) == 0x3003 && Get(ram, 3, 0) == 0x4003 && Get(ram, 4, 6) == 0x6003
  }

  /** With them as the invariant says, the bitmap's address leads to the bitmap. */
  lemma BitmapReached(ram: Ram, b: nat)
    requires BitmapMapped(ram) && b < FRAMES
    ensures MarkPlace(ram, b) == Mark(b)
  {
    hide Walk, Get;
    assert PageOf(BITMAP_ADDRESS + b / 8) == [0, 0, 0, 6];
    assert [0, 0, 0, 6][..3] == [0, 0, 0];
    FirstTableWalk(ram);
    WalkLast(ram, [0, 0, 0, 6], 4);
    assert Child(0x6003) == Some(6);
  }

  lemma FirstTableWalk(ram: Ram)
    requires Get(ram, 1, 0) == 0x2003 && Get(ram, 2, 0) == 0x3003 && Get(ram, 3, 0) == 0x4003
    ensures Walk(ram, [0, 0, 0]) == Some(4)
  {
    assert [0, 0, 0][..2] == [0, 0] && [0, 0][..1] == [0] && [0][..0] == [];
    assert Child(0x2003) == Some(2) && Child(0x3003) == Some(3) && Child(0x4003) == Some(4);
    assert Walk(ram, [0]) == Some(2) && Walk(ram, [0, 0]) == Some(3);
  }

  lemma WindowKeepsBitmap(ram: Ram, e: nat)
    requires BitmapMapped(ram)
    ensures BitmapMapped(Set(ram, WINDOW_TABLE, 0, e))
  {
  }

  /** Emptying any entry but the bitmap page's own leaves the way to the bitmap alone. */
  lemma EmptyingKeepsBitmap(w: World, p: seq<nat>, t: nat)
    requires Inv(w) && IsPage(p) && p != [0, 0, 0, BITMAP_FRAME] && Walk(w.ram, p[..3]) == Some(t)
    ensures BitmapMapped(Set(w.ram, t, p[3], 0))
  {
    hide Walk, LeafEntry, LeavesAreMapped, WalksAreTables, TablesAreWalked, EntriesArePresent;
    TableAt(w, p[..3]);
    LowTables(w.ram, w.owner);
    assert p == p[..3] + [p[3]];
  }

  lemma SetTwice(ram: Ram, d: nat, e: nat)
    ensures Set(Set(ram, WINDOW_TABLE, 0, d), WINDOW_TABLE, 0, e) == Set(ram, WINDOW_TABLE, 0, e)
  {
    if WINDOW_TABLE < |ram| && 0 < |ram[WINDOW_TABLE]| {
      assert ram[WINDOW_TABLE][0 := d][0 := e] == ram[WINDOW_TABLE][0 := e];
    }
  }

  lemma NotBitmapPage(w: World, p: seq<nat>, t: nat)
    requires Inv(w) && IsPage(p) && Walk(w.ram, p[..3]) == Some(t) && (t == 4 ==> p[3] != BITMAP_FRAME)
    ensures p != [0, 0, 0, BITMAP_FRAME]
  {
    hide Walk, LeafEntry, LeavesAreMapped, WalksAreTables, TablesAreWalked, EntriesArePresent;
    FourIsFirst(w);
    if p == [0, 0, 0, BITMAP_FRAME] {
      assert p[..3] == [0, 0, 0];
      FirstTableWalk(w.ram);
    }
  }

  /** With the bit inside the bitmap the store goes where it is meant to, and unmapping is two plain updates. */
  lemma UnmapInside(w: World, p: seq<nat>, t: nat)
    requires Inv(w) && IsPage(p) && p != [0, 0, 0, BITMAP_FRAME] && Walk(w.ram, p[..3]) == Some(t)
    requires MarkIndex(LeafEntry(w.ram, p)) < FRAMES
    ensures var b := MarkIndex(LeafEntry(w.ram, p));
      && UnmapPlace(w, p) == Mark(b)
      && UnmapPage(w, p) == SetWindow(World(Set(w.ram, t, p[3], 0), w.used[b := false], w.owner - {b}), 0)
  {
    hide Walk, LeafEntry, Inv, BitmapMapped, MarkIndex, Set, MarkPlace;
    InvShape(w);
    EmptyingKeepsBitmap(w, p, t);
    var b, ram := MarkIndex(LeafEntry(w.ram, p)), Set(w.ram, t, p[3], 0);
    MissingTable(w.ram, p);
    WindowKeepsBitmap(ram, t * PAGE_SIZE + 3);
    BitmapReached(Set(ram, WINDOW_TABLE, 0, t * PAGE_SIZE + 3), b);
    SetTwice(ram, t * PAGE_SIZE + 3, 0);
  }

  lemma NothingCleared(w: World, f: nat)
    requires Inv(w) && f < |w.used| && !w.used[f]
    ensures w.used[f := false] == w.used && w.owner - {f} == w.owner
    ensures SameLeaves(w.ram, w.ram)
  {
    hide LeavesAreMapped, WalksAreTables, TablesAreWalked, EntriesArePresent, LowMapping;
  }

  lemma ForeignNotLow(w: World, p: seq<nat>, t: nat)
    requires Inv(w) && IsPage(p) && ClearsNothing(w, p) && Walk(w.ram, p[..3]) == Some(t)
    ensures t == 4 ==> p[3] != 1 && p[3] != 5 && p[3] != 6
  {
    hide LeavesAreMapped, WalksAreTables, TablesAreWalked, EntriesArePresent, Walk, LeafEntry;
    LeafIsEntry(w.ram, t, p);
    FourIsFirst(w);
    assert MarkIndex(0x1003) == 1 && MarkIndex(0x5003) == 5 && MarkIndex(0x6003) == 6;
    RootMarked(w);
  }

  lemma RootMarked(w: World)
    requires Inv(w)
    ensures Shape(w) && w.used[1] && w.used[5] && w.used[6]
  {
    LowTables(w.ram, w.owner);
  }

  lemma NoTableNoLeaf(ram: Ram, p: seq<nat>)
    requires |p| == 4 && Walk(ram, p[..3]).None?
    ensures LeafEntry(ram, p) == 0
  {
  }

  lemma SameWindow(w: World)
    requires Inv(w)
    ensures SetWindow(w, Get(w.ram, WINDOW_TABLE, 0)) == w
  {
    var row := w.ram[5];
    assert row[0 := row[0]] == row;
    assert w.ram[5 := row] == w.ram;
  }

  lemma MissingTable(ram: Ram, p: seq<nat>)
    requires |p| == 4
    ensures Walk(ram, p[..1]).None? ==> Walk(ram, p[..2]).None?
    ensures Walk(ram, p[..2]).None? ==> Walk(ram, p[..3]).None?
  {
    assert p[..2][..1] == p[..1] && p[..3][..2] == p[..2];
  }

  lemma UnmapLive(w: World, p: seq<nat>)
    requires Inv(w) && IsPage(p) && p != WINDOW && Live(w, p) && Walk(w.ram, p[..3]).Some?
    ensures Inv(UnmapPage(w, p)) && Unmapped(w, UnmapPage(w, p), p)
  {
    hide Walk, LeafEntry, LeavesAreMapped, WalksAreTables, TablesAreWalked, EntriesArePresent, LowMapping, SameLeaves, LedgerMoves,
      MarkIndex, UnmapPage;
    var t := Walk(w.ram, p[..3]).value;
    var f :| f in w.owner && w.owner[f] == Leaf(p);
    LiveEntry(w, p, f);
    MarkOfFrame(LeafEntry(w.ram, p));
    var w1 := World(Set(w.ram, t, p[3], 0), w.used[f := false], w.owner - {f});
    TableAt(w, p[..3]);
    LeafWriteEffect(w, w1, t, p);
    LeafIsEntry(w.ram, t, p);
    LiveNotLow(w, p, t);
    LowKeptLeaf(w, w1, t, p);
    NotBitmapPage(w, p, t);
    UnmapInside(w, p, t);
    assert LedgerMoves(w, w1, p, 0) by { RemoveLedger(w, w1, p, f); }
    LeafWriteInv(w, w1, t, p);
    SetWindowInv(w1, 0);
    SameLeavesAround(w.ram, w.ram, w1.ram, SetWindow(w1, 0).ram, p);
  }

  lemma LiveEntry(w: World, p: seq<nat>, f: nat)
    requires Inv(w) && f in w.owner && w.owner[f] == Leaf(p)
    ensures f < FRAMES && LeafEntry(w.ram, p) / PAGE_SIZE == f && Present(LeafEntry(w.ram, p)) && SameLeaves(w.ram, w.ram)
  {
  }

  /** The three pages through which the kernel reaches its tables and bitmap are never live. */
  lemma LiveNotLow(w: World, p: seq<nat>, t: nat)
    requires Inv(w) && IsPage(p) && Live(w, p) && Walk(w.ram, p[..3]) == Some(t)
    ensures t == 4 ==> p[3] != 1 && p[3] != 5 && p[3] != 6
  {
    LowTables(w.ram, w.owner);
    LeafIsEntry(w.ram, t, p);
    assert 0x1003 / PAGE_SIZE == 1 && 0x5003 / PAGE_SIZE == 5 && 0x6003 / PAGE_SIZE == 6;
  }

  lemma RemoveLedger(w: World, w': World, p: seq<nat>, f: nat)
    requires Inv(w) && IsPage(p) && p != WINDOW && f in w.owner && w.owner[f] == Leaf(p)
    requires w'.used == w.used[f := false] && w'.owner == w.owner - {f}
    ensures LedgerMoves(w, w', p, 0)
  {
    forall g | g in w'.owner && w'.owner[g].Leaf? ensures w'.owner[g] != Leaf(p) {
      if w'.owner[g] == Leaf(p) {
        LiveEntry(w, p, g);
        LiveEntry(w, p, f);
      }
    }
  }
}

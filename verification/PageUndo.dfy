/** `page_umapv` undoes `page_mapv`, and what the two leave behind. */
module PageUndo {
  import opened Words
  import opened PageTables
  import opened PageSteps
  import opened PageRanges

  /** `f` holds one of the page tables, as the processor would find by walking. */
  ghost predicate TableFrame(ram: Ram, f: nat) {
    exists x :: IsPath(x, 3) && Walk(ram, x) == Some(f)
  }

  lemma TableFrameIsTable(w: World, f: nat)
    requires Inv(w)
    ensures TableFrame(w.ram, f) <==> IsTable(w, f)
  {
    hide LeavesAreMapped, EntriesArePresent, LowMapping;
    if IsTable(w, f) {
      assert IsPath(w.owner[f].path, 3) && Walk(w.ram, w.owner[f].path) == Some(f);
    }
  }

  ghost predicate RangeEmpty(w: World, virt: nat, n: nat) {
    forall i :: 0 <= i < n ==> LeafEntry(w.ram, PageAt(virt, i)) == 0
  }

  /** Everything newly marked is a table or the memory of a page in the range. */
  ghost predicate RangeMarks(w: World, w': World, virt: nat, n: nat) {
    forall g :: 0 <= g < |w'.used| && w'.used[g] && g < |w.used| && !w.used[g] ==>
      g in w'.owner && (w'.owner[g].Table? || OwnedInRange(w', g, virt, n))
  }

  lemma {:induction false} MapPagesMarks(w: World, virt: nat, n: nat, flags: nat)
    requires Inv(w) && GoodFlags(flags) && AvoidsWindow(virt, n) && RangeEmpty(w, virt, n) && n <= PAGES_IN_SPACE
    requires FreeCount(w.used) >= n + TablesMade(w, virt, n, flags)
    ensures RangeMarks(w, MapPages(w, virt, n, flags), virt, n)
    decreases n
  {
    hide Inv, LeafEntry, MapPage, Missing, FreeCount, RangeMapped, Mapped, NewMarks, PageAt, FreshPage, RangeMarks, Grows;
    if n == 0 {
      NoMarks(w, virt);
    } else {
      var w1, p := MapPages(w, virt, n - 1, flags), PageAt(virt, n - 1);
      assert InRange(p, virt, n);
      RangeGrows(virt, n);
      NewInRange(virt, n);
      MapPagesInv(w, virt, n - 1, flags);
      MapPagesMarks(w, virt, n - 1, flags);
      MapPageInv(w1, p, flags);
      EntryStillEmpty(w, w1, virt, n, flags);
      MarksStep(w, w1, MapPage(w1, p, flags), virt, n);
    }
  }

  lemma NoMarks(w: World, virt: nat)
    ensures RangeMarks(w, w, virt, 0)
  {
  }

  lemma EntryStillEmpty(w: World, w1: World, virt: nat, n: nat, flags: nat)
    requires n > 0 && RangeMapped(w, w1, virt, n - 1, flags) && RangeEmpty(w, virt, n) && AvoidsWindow(virt, n)
    requires !InRange(PageAt(virt, n - 1), virt, n - 1)
    ensures LeafEntry(w1.ram, PageAt(virt, n - 1)) == 0
  {
    hide LeafEntry, PageAt, FreshPage;
    assert InRange(PageAt(virt, n - 1), virt, n);
  }

  lemma MarksStep(w: World, w1: World, w2: World, virt: nat, n: nat)
    requires n > 0 && RangeMarks(w, w1, virt, n - 1) && NewMarks(w1, w2, PageAt(virt, n - 1))
    requires Grows(w, w1) && Grows(w1, w2) && LeafEntry(w1.ram, PageAt(virt, n - 1)) == 0
    ensures RangeMarks(w, w2, virt, n)
  {
    hide LeafEntry, PageAt;
    RangeGrows(virt, n);
  }

  /** Frames behind freshly mapped pages were unmarked before. */
  lemma FreshFramesWereFree(w: World, w1: World, virt: nat, n: nat, flags: nat, f: nat)
    requires RangeMapped(w, w1, virt, n, flags) && Inv(w1) && RangeEmpty(w, virt, n) && OwnedInRange(w1, f, virt, n)
    ensures f < |w.used| && !w.used[f]
  {
    hide LeafEntry, PageAt, WalksAreTables, TablesAreWalked, EntriesArePresent, LowMapping;
    var q := w1.owner[f].page;
    LiveEntry(w1, q, f);
    assert IsPage(q) && q != WINDOW;
    assert LeafEntry(w.ram, q) == 0;
  }

  lemma MappedRangeIsLive(w: World, w1: World, virt: nat, n: nat, flags: nat)
    requires RangeMapped(w, w1, virt, n, flags) && RangeEmpty(w, virt, n) && AvoidsWindow(virt, n)
    ensures forall i :: 0 <= i < n ==> Live(w1, PageAt(virt, i))
  {
    hide LeafEntry, PageAt;
    forall i | 0 <= i < n ensures Live(w1, PageAt(virt, i)) {
      var p := PageAt(virt, i);
      assert InRange(p, virt, n);
      assert FreshPage(w, w1, p, flags);
    }
  }

  /** Mapping an empty range and unmapping it again restores every translation; the bitmap then differs from
      before exactly at the frames of the page tables created on the way. */
  lemma UnmapUndoesMap(w: World, virt: nat, n: nat, flags: nat)
    requires Inv(w) && GoodFlags(flags) && AvoidsWindow(virt, n) && RangeEmpty(w, virt, n) && n <= PAGES_IN_SPACE
    requires FreeCount(w.used) >= n + TablesMade(w, virt, n, flags)
    ensures var w2 := UnmapPages(MapPages(w, virt, n, flags), virt, n);
      && Inv(w2)
      && SameLeaves(w.ram, w2.ram)
      && (forall f :: 0 <= f < FRAMES ==>
            (w2.used[f] <==> w.used[f] || (TableFrame(w2.ram, f) && !TableFrame(w.ram, f))))
      && FreeCount(w2.used) == FreeCount(w.used) - TablesMade(w, virt, n, flags)
  {
    hide LeafEntry, MapPages, UnmapPages, FreeCount, TablesMade, PageAt, RangeMapped, RangeUnmapped, RangeMarks,
      RangeEmpty, InRange, AvoidsWindow, TableFrame, Inv, Live, Grows;
    var w1 := MapPages(w, virt, n, flags);
    var w2 := UnmapPages(w1, virt, n);
    MapPagesInv(w, virt, n, flags);
    MapPagesMarks(w, virt, n, flags);
    MappedRangeIsLive(w, w1, virt, n, flags);
    UnmapPagesInv(w1, virt, n);
    UnmapPagesFree(w1, virt, n);
    UndoLeaves(w, w1, w2, virt, n, flags);
    UndoMarks(w, w1, w2, virt, n, flags);
  }

  lemma UndoLeaves(w: World, w1: World, w2: World, virt: nat, n: nat, flags: nat)
    requires RangeMapped(w, w1, virt, n, flags) && RangeUnmapped(w1, w2, virt, n) && RangeEmpty(w, virt, n)
    ensures SameLeaves(w.ram, w2.ram)
  {
    hide LeafEntry, PageAt, FreshPage;
  }

  lemma UndoMarks(w: World, w1: World, w2: World, virt: nat, n: nat, flags: nat)
    requires Inv(w) && Inv(w1) && Inv(w2) && Grows(w, w1) && RangeEmpty(w, virt, n)
    requires RangeMapped(w, w1, virt, n, flags) && RangeMarks(w, w1, virt, n) && RangeUnmapped(w1, w2, virt, n)
    ensures |w2.used| == FRAMES && |w.used| == FRAMES
    ensures forall f :: 0 <= f < FRAMES ==>
      (w2.used[f] <==> w.used[f] || (TableFrame(w2.ram, f) && !TableFrame(w.ram, f)))
  {
    hide LeafEntry, Inv, PageAt, InRange, TableFrame, RangeEmpty, RangeMapped;
    InvShape(w);
    InvShape(w1);
    InvShape(w2);
    forall f | 0 <= f < FRAMES
      ensures w2.used[f] <==> w.used[f] || (TableFrame(w2.ram, f) && !TableFrame(w.ram, f))
    {
      TableFrameIsTable(w, f);
      TableFrameIsTable(w2, f);
      if OwnedInRange(w1, f, virt, n) {
        FreshFramesWereFree(w, w1, virt, n, flags, f);
      }
    }
  }

  /** Unmapping n live pages gives n frames back. */
  lemma {:induction false} UnmapPagesFree(w: World, virt: nat, n: nat)
    requires Inv(w) && AvoidsWindow(virt, n) && n <= PAGES_IN_SPACE
    requires forall i :: 0 <= i < n ==> Live(w, PageAt(virt, i))
    ensures FreeCount(UnmapPages(w, virt, n).used) == FreeCount(w.used) + n
    decreases n
  {
    hide Inv, LeafEntry, UnmapPage, PageAt, RangeUnmapped, Walk, Unmapped, FreeCount, Live;
    if n > 0 {
      var w1, p := UnmapPages(w, virt, n - 1), PageAt(virt, n - 1);
      assert InRange(p, virt, n);
      RangeGrows(virt, n);
      UnmapPagesFree(w, virt, n - 1);
      UnmapPagesInv(w, virt, n - 1);
      LiveRemovable(w, w1, virt, n);
      UnmapPageInv(w1, p);
      FrameGivenBack(w1, UnmapPage(w1, p), p);
    }
  }

  lemma LiveRemovable(w: World, w1: World, virt: nat, n: nat)
    requires 0 < n <= PAGES_IN_SPACE && Inv(w) && RangeUnmapped(w, w1, virt, n - 1) && Live(w, PageAt(virt, n - 1))
    ensures Live(w1, PageAt(virt, n - 1))
  {
    hide LeafEntry, Walk, PageAt, Inv;
    NewInRange(virt, n);
    var f :| f in w.owner && w.owner[f] == Leaf(PageAt(virt, n - 1));
    assert f in w1.owner && w1.owner[f] == w.owner[f];
  }

  lemma FrameGivenBack(w: World, w': World, p: seq<nat>)
    requires Inv(w) && |p| == 4 && Unmapped(w, w', p) && Live(w, p)
    ensures FreeCount(w'.used) == FreeCount(w.used) + 1
  {
    hide LeafEntry, WalksAreTables, TablesAreWalked, LeavesAreMapped, EntriesArePresent, LowMapping, Walk;
    var f := LeafEntry(w.ram, p) / PAGE_SIZE;
    assert w'.used[f := true] == w.used;
    FreeCountFlip(w'.used, f);
  }

  // ---------------------------------------------------------------- where the code does not meet this

  /** On a page whose table exists but whose entry is empty, `page_umapv` unmarks frame 0,
      and `page_getframe` then hands out physical address 0. */
  lemma UnmapEmptyFreesFrameZero(w: World, p: seq<nat>)
    requires Inv(w) && IsPage(p) && Walk(w.ram, p[..3]).Some? && LeafEntry(w.ram, p) == 0
    ensures UnmapPage(w, p).used == w.used[0 := false]
    ensures FirstFree(UnmapPage(w, p).used) == 0
  {
    hide Walk, LeafEntry, Set, MarkIndex, WalksAreTables, TablesAreWalked, LeavesAreMapped, EntriesArePresent,
      PointersAreClean, UnmapPage;
    var t := Walk(w.ram, p[..3]).value;
    MarkOfFrame(0);
    LeafIsEntry(w.ram, t, p);
    NotBitmapPage(w, p, t);
    UnmapInside(w, p, t);
    assert !w.used[0 := false][0];
  }

  // ---------------------------------------------------------------- where the clearing store goes

  /** The byte index of `page_clear_bitmap` stays in the bitmap exactly when, cut to 32 bits, it is below 0x1000; for an
      address below 128 MiB the bit is the frame's own, and from there to 2^47 it is outside. */
  lemma ClearInsideIff(e: nat)
    ensures MarkIndex(e) < FRAMES <==> e / PAGE_SIZE / 8 % DWORD_LIMIT < 0x1000
    ensures e / PAGE_SIZE < FRAMES ==> MarkIndex(e) == e / PAGE_SIZE
    ensures FRAMES <= e / PAGE_SIZE < 8 * DWORD_LIMIT ==> MarkIndex(e) >= FRAMES
  {
    MarkOfFrame(e);
    var b := e / PAGE_SIZE / 8;
    if FRAMES <= e / PAGE_SIZE < 8 * DWORD_LIMIT {
      assert b < DWORD_LIMIT && b % DWORD_LIMIT == b;
    }
  }

  /** Bit `off` of the byte at 0x6000 + `idx`, by the frame its page is mapped to: in frame 6 a mark, in another the
      byte's place in its word, eight bytes to a word, low byte first. */
  lemma PlaceOfByte(ram: Ram, idx: nat, off: nat)
    requires off < 8
    ensures MarkPlace(ram, 8 * idx + off) ==
      match Walk(ram, PageOf(0x6000 + idx))
      case None => Fault
      case Some(f) => if f == 6 then Mark(8 * (idx % 0x1000) + off) else if f < 0x8000 then Word(f, idx % 0x1000 / 8) else Elsewhere
    ensures (8 * idx + off) % 64 == 8 * (idx % 8) + off
  {
    hide Walk, PageOf;
    var q, w, b := idx / 0x1000, idx % 0x1000 / 8, idx % 8;
    var x := 8 * idx + off;
    Quotient(idx, 8 * (0x200 * q + w) / 8, b, 8);
    Quotient(x, idx, off, 8);
    Quotient(x, q, 8 * (idx % 0x1000) + off, 0x8000);
    Quotient(x, 0x200 * q + w, 8 * b + off, 64);
    Quotient(0x200 * q + w, q, w, 0x200);
  }

  /** What the two stores leave in a word outside the bitmap: bit `b % 64` taken away, or added, and every other word as
      it was. */
  lemma WordStored(w: World, f: nat, i: nat, b: nat, g: nat, j: nat)
    requires f < |w.ram| && i < |w.ram[f]|
    ensures var e, bit := Get(w.ram, f, i), Pow2(b % 64);
      && Get(ClearAt(w, Word(f, i), b).ram, g, j) == (if g == f && j == i && e / bit % 2 == 1 then e - bit else Get(w.ram, g, j))
      && Get(SetAt(w, Word(f, i), b).ram, g, j) == (if g == f && j == i && e / bit % 2 == 0 then e + bit else Get(w.ram, g, j))
    ensures ClearAt(w, Word(f, i), b).used == w.used == SetAt(w, Word(f, i), b).used
  {
    BitsExactly(Get(w.ram, f, i), b % 64);
  }

  /** Unmapping clears the bit it means to exactly when that bit lies in the bitmap. */
  lemma UnmapPlaceIff(w: World, p: seq<nat>)
    requires Inv(w) && IsPage(p) && p != [0, 0, 0, BITMAP_FRAME] && Walk(w.ram, p[..3]).Some?
    ensures UnmapPlace(w, p) == Mark(MarkIndex(LeafEntry(w.ram, p))) <==> MarkIndex(LeafEntry(w.ram, p)) < FRAMES
  {
    hide Inv, Walk, LeafEntry, MarkIndex, Emptied;
    if MarkIndex(LeafEntry(w.ram, p)) < FRAMES {
      UnmapInside(w, p, Walk(w.ram, p[..3]).value);
    }
  }

  /** The page's own entry, or the window slot. */
  predicate OwnWord(w: World, p: seq<nat>, f: nat, i: nat)
    requires |p| == 4
  {
    (f == WINDOW_TABLE && i == 0) || (Walk(w.ram, p[..3]) == Some(f) && i == p[3])
  }

  /** No word of memory but the page's own entry and the window slot changed. */
  ghost predicate Confined(w: World, w': World, p: seq<nat>)
    requires |p| == 4
  {
    forall f: nat, i: nat :: !OwnWord(w, p, f, i) ==> Get(w'.ram, f, i) == Get(w.ram, f, i)
  }

  /** The clearing store hits a set bit of some other word. */
  predicate ClearsWord(w: World, p: seq<nat>)
    requires |p| == 4
  {
    var s := UnmapPlace(w, p);
    s.Word? && !OwnWord(w, p, s.frame, s.index) && HasBit(Get(w.ram, s.frame, s.index), MarkIndex(LeafEntry(w.ram, p)) % 64)
  }

  /** Unmapping a page changes no memory but its own entry, the window slot and the bitmap exactly when the page has
      no table or the clearing store hits no set bit elsewhere; with the bit inside the bitmap it never does. */
  lemma UnmapConfinedIff(w: World, p: seq<nat>)
    requires Inv(w) && IsPage(p)
    ensures Confined(w, UnmapPage(w, p), p) <==> Walk(w.ram, p[..3]).None? || !ClearsWord(w, p)
    ensures MarkIndex(LeafEntry(w.ram, p)) < FRAMES ==> Confined(w, UnmapPage(w, p), p)
  {
    hide Inv, LeafEntry, MarkIndex, Walk, MarkPlace, HasBit, ClearBit;
    InvShape(w);
    MissingTable(w.ram, p);
    if Walk(w.ram, p[..3]).Some? {
      var s, b := UnmapPlace(w, p), MarkIndex(LeafEntry(w.ram, p));
      TableAt(w, p[..3]);
      PlaceInRange(w, p);
      if b < FRAMES {
        InsideIsNoWord(w, p);
      }
      if s.Word? {
        var x := Get(Emptied(w, p).ram, s.frame, s.index);
        ClearBitIff(x, b % 64);
        assert Get(ClearAt(Emptied(w, p), s, b).ram, s.frame, s.index) == ClearBit(x, b % 64);
      }
    }
  }

  lemma PlaceInRange(w: World, p: seq<nat>)
    requires |p| == 4
    ensures UnmapPlace(w, p).Word? ==> UnmapPlace(w, p).frame < FRAMES && UnmapPlace(w, p).index < ENTRIES
  {
    hide Walk, LeafEntry, MarkIndex;
  }

  /** Inside the bitmap the store marks, or faults if the page being unmapped is the bitmap's own. */
  lemma InsideIsNoWord(w: World, p: seq<nat>)
    requires Inv(w) && IsPage(p) && Walk(w.ram, p[..3]).Some? && MarkIndex(LeafEntry(w.ram, p)) < FRAMES
    ensures !UnmapPlace(w, p).Word?
  {
    hide Inv, LeafEntry, MarkIndex;
    if p == [0, 0, 0, BITMAP_FRAME] {
      BitmapUnmapped(w, MarkIndex(LeafEntry(w.ram, p)));
    } else {
      UnmapInside(w, p, Walk(w.ram, p[..3]).value);
    }
  }

  lemma BitmapUnmapped(w: World, b: nat)
    requires Inv(w) && b < FRAMES
    ensures MarkPlace(Emptied(w, [0, 0, 0, BITMAP_FRAME]).ram, b) == Fault
  {
    hide WalksAreTables, TablesAreWalked, LeavesAreMapped, EntriesArePresent, PointersAreClean, Walk;
    var p: seq<nat> := [0, 0, 0, BITMAP_FRAME];
    var ram := Emptied(w, p).ram;
    FirstTableWalk(w.ram);
    assert p[..3] == [0, 0, 0] && PageOf(BITMAP_ADDRESS + b / 8) == p;
    FirstTableWalk(ram);
    WalkLast(ram, p, 4);
  }

  /** Frame `g` backs page `p`. */
  predicate Backs(w: World, p: seq<nat>, g: nat) {
    g in w.owner && w.owner[g] == Leaf(p)
  }

  /** The clearing store hits the mark of a marked frame. */
  predicate ClearsMark(w: World, p: seq<nat>)
    requires |p| == 4
  {
    var s := UnmapPlace(w, p);
    s.Mark? && s.bit < |w.used| && w.used[s.bit]
  }

  /** Whatever the entry holds, unmapping a page leaves every marked frame but the page's own memory marked exactly
      when the page has no table, is backed by memory of its own, or the clearing store hits no set mark; with the bit
      inside the bitmap that is the bit addressed. */
  lemma UnmapSparesOthersIff(w: World, p: seq<nat>)
    requires Inv(w) && IsPage(p)
    ensures (forall g :: 0 <= g < |w.used| && w.used[g] && !Backs(w, p, g) ==>
               g < |UnmapPage(w, p).used| && UnmapPage(w, p).used[g])
       <==> Walk(w.ram, p[..3]).None? || Live(w, p) || !ClearsMark(w, p)
    ensures Walk(w.ram, p[..3]).Some? && p != [0, 0, 0, BITMAP_FRAME] && MarkIndex(LeafEntry(w.ram, p)) < |w.used| ==>
      (ClearsMark(w, p) <==> w.used[MarkIndex(LeafEntry(w.ram, p))])
  {
    hide LeafEntry, Walk, WalksAreTables, TablesAreWalked, LeavesAreMapped, EntriesArePresent, LowMapping, MarkIndex, Inv, MarkPlace;
    InvShape(w);
    MissingTable(w.ram, p);
    if Walk(w.ram, p[..3]).Some? {
      var t := Walk(w.ram, p[..3]).value;
      if p != [0, 0, 0, BITMAP_FRAME] && MarkIndex(LeafEntry(w.ram, p)) < FRAMES {
        UnmapInside(w, p, t);
      }
      if Live(w, p) {
        LiveNotLow(w, p, t);
        NotBitmapPage(w, p, t);
        OwnBit(w, p);
        BackedFrame(w, p, MarkIndex(LeafEntry(w.ram, p)));
        UnmapInside(w, p, t);
      } else if ClearsMark(w, p) {
        assert !UnmapPage(w, p).used[UnmapPlace(w, p).bit];
      }
    }
  }

  lemma BackedFrame(w: World, p: seq<nat>, g: nat)
    requires Inv(w) && Backs(w, p, g)
    ensures g < FRAMES
  {
    hide Walk, LeafEntry, WalksAreTables, TablesAreWalked, LeavesAreMapped, EntriesArePresent, LowMapping;
  }

  /** A live page's entry addresses the bit of its own frame. */
  lemma OwnBit(w: World, p: seq<nat>)
    requires Inv(w) && Live(w, p)
    ensures Backs(w, p, MarkIndex(LeafEntry(w.ram, p)))
  {
    var f :| f in w.owner && w.owner[f] == Leaf(p);
    LiveEntry(w, p, f);
    MarkOfFrame(LeafEntry(w.ram, p));
  }

  /** A page mapped to the start of the k-th 128 MiB clears its bit in the first word of page 6 + k: here that page is
      mapped at its own address, as stacks are. */
  lemma StoreHitsIdentityPage(w: World, p: seq<nat>, g: nat)
    requires Inv(w) && IsPage(p) && p != WINDOW && Walk(w.ram, p[..3]).Some? && BITMAP_FRAME < g < FRAMES && p != Ident(g)
    requires LeafEntry(w.ram, p) / PAGE_SIZE == (g - BITMAP_FRAME) * FRAMES && Walk(w.ram, Ident(g)) == Some(g)
    ensures UnmapPlace(w, p) == Word(g, 0) && MarkIndex(LeafEntry(w.ram, p)) % 64 == 0
  {
    hide Inv, Walk, LeafEntry, Emptied, Ident, PageOf;
    IdentIsPageOf(g);
    IdentPage(g);
    KthBlock(LeafEntry(w.ram, p), g - BITMAP_FRAME);
    OtherWalkKept(w, p, Ident(g));
  }

  lemma KthBlock(e: nat, k: nat)
    requires k < FRAMES && e / PAGE_SIZE == k * FRAMES
    ensures MarkIndex(e) == k * FRAMES && MarkIndex(e) % 64 == 0 && MarkIndex(e) / 64 % ENTRIES == 0
    ensures BITMAP_ADDRESS + MarkIndex(e) / 8 == (BITMAP_FRAME + k) * PAGE_SIZE
  {
    var f := k * FRAMES;
    Quotient(f, k * 0x1000, 0, 8);
    assert k * 0x1000 < DWORD_LIMIT;
    Quotient(f, k * 0x200, 0, 64);
    Quotient(k * 0x200, k, 0, ENTRIES);
  }

  /** Emptying a page's entry leaves the translation of every other page but the window's. */
  lemma OtherWalkKept(w: World, p: seq<nat>, q: seq<nat>)
    requires Inv(w) && IsPage(p) && p != WINDOW && Walk(w.ram, p[..3]).Some? && IsPage(q) && q != WINDOW && q != p
    ensures Walk(Emptied(w, p).ram, q) == Walk(w.ram, q) && LeafEntry(Emptied(w, p).ram, q) == LeafEntry(w.ram, q)
    ensures forall x :: IsPath(x, 3) ==> Walk(Emptied(w, p).ram, x) == Walk(w.ram, x)
  {
    hide Inv, Walk, LeafEntry, Set;
    InvShape(w);
    TableAt(w, p[..3]);
    EmptiedWrites(w, p);
    LeafWriteEffect(w, Emptied(w, p), Walk(w.ram, p[..3]).value, p);
    LastEntry(w.ram, q);
    LastEntry(Emptied(w, p).ram, q);
  }

  lemma LastEntry(ram: Ram, q: seq<nat>)
    requires |q| == 4
    ensures Walk(ram, q) == if Walk(ram, q[..3]).None? then None else Child(LeafEntry(ram, q))
  {
  }

  lemma EmptiedWrites(w: World, p: seq<nat>)
    requires Shape(w) && IsPage(p) && p != WINDOW && Walk(w.ram, p[..3]).Some? && Walk(w.ram, p[..3]).value < FRAMES
    ensures LeafWrite(w, Emptied(w, p), Walk(w.ram, p[..3]).value, p)
  {
    hide Walk;
  }

  /** If that page's first word is odd, unmapping changes it. */
  lemma UnmapReachesMemory(w: World, p: seq<nat>, g: nat)
    requires Inv(w) && IsPage(p) && p != WINDOW && Walk(w.ram, p[..3]).Some? && BITMAP_FRAME < g < FRAMES && p != Ident(g)
    requires LeafEntry(w.ram, p) / PAGE_SIZE == (g - BITMAP_FRAME) * FRAMES && Walk(w.ram, Ident(g)) == Some(g)
    requires !IsTable(w, g) && Get(w.ram, g, 0) % 2 == 1
    ensures Get(UnmapPage(w, p).ram, g, 0) == Get(w.ram, g, 0) - 1 && !Confined(w, UnmapPage(w, p), p)
  {
    hide Inv, Walk, LeafEntry, MarkIndex, MarkPlace;
    InvShape(w);
    MissingTable(w.ram, p);
    TableAt(w, p[..3]);
    StoreHitsIdentityPage(w, p, g);
    assert !OwnWord(w, p, g, 0);
    assert Get(Emptied(w, p).ram, g, 0) == Get(w.ram, g, 0);
    assert ClearBit(Get(w.ram, g, 0), 0) == Get(w.ram, g, 0) - 1;
  }

  /** A page mapped to physical 0x1FEFD0000000 aims the store at the window, which shows its own page table: the first
      page of that table is unmapped as well. */
  lemma UnmapDropsNeighbour(w: World, p: seq<nat>)
    requires Inv(w) && IsPage(p) && Walk(w.ram, p[..3]).Some? && p[..3] != [0, 0, 511] && p[3] != 0
    requires LeafEntry(w.ram, p) / PAGE_SIZE == 0x1_FEFD_0000 && Present(LeafEntry(w.ram, p[..3] + [0]))
    ensures !Present(LeafEntry(UnmapPage(w, p).ram, p[..3] + [0]))
  {
    hide Inv, Walk, LeafEntry, MarkIndex, PageOf;
    var t, q := Walk(w.ram, p[..3]).value, p[..3] + [0];
    InvShape(w);
    MissingTable(w.ram, p);
    TableAt(w, p[..3]);
    NotWindowTable(w, p);
    assert q[..3] == p[..3] && IsPage(q);
    WindowBlock(LeafEntry(w.ram, p));
    LeafIsEntry(w.ram, t, q);
    OtherWalkKept(w, p, q);
    WindowShows(w, p);
    var w2 := ClearAt(Emptied(w, p), Word(t, 0), MarkIndex(LeafEntry(w.ram, p)));
    assert Get(w2.ram, t, 0) == ClearBit(Get(w.ram, t, 0), 0);
    TableWalkKept(w, SetWindow(w2, 0).ram, p);
    LeafIsEntry(SetWindow(w2, 0).ram, t, q);
  }

  lemma WindowBlock(e: nat)
    requires e / PAGE_SIZE == 0x1_FEFD_0000
    ensures PageOf(BITMAP_ADDRESS + MarkIndex(e) / 8) == WINDOW
    ensures MarkIndex(e) % 64 == 0 && MarkIndex(e) / 64 % ENTRIES == 0
  {
  }

  lemma NotWindowTable(w: World, p: seq<nat>)
    requires Inv(w) && IsPage(p) && Walk(w.ram, p[..3]).Some? && p[..3] != [0, 0, 511]
    ensures var t := Walk(w.ram, p[..3]).value; t != WINDOW_TABLE && t != BITMAP_FRAME && p != WINDOW
  {
    hide Walk, LeafEntry, LeavesAreMapped, EntriesArePresent, TablesAreWalked;
    TableAt(w, p[..3]);
    LowTables(w.ram, w.owner);
  }

  /** While the page's table is open, the window leads to it. */
  lemma WindowShows(w: World, p: seq<nat>)
    requires Inv(w) && IsPage(p) && Walk(w.ram, p[..3]).Some? && p != WINDOW
    ensures Walk(Emptied(w, p).ram, WINDOW) == Walk(w.ram, p[..3])
  {
    hide LeafEntry, LeavesAreMapped, EntriesArePresent, TablesAreWalked, WalksAreTables, PointersAreClean, Walk;
    var t := Walk(w.ram, p[..3]).value;
    TableAt(w, p[..3]);
    LowWindow(w);
    EmptiedWrites(w, p);
    LeafWriteEffect(w, Emptied(w, p), t, p);
    assert WINDOW[..3] == [0, 0, 511];
    LastEntry(Emptied(w, p).ram, WINDOW);
    LeafIsEntry(Emptied(w, p).ram, WINDOW_TABLE, WINDOW);
    EntryParts(t, 3);
  }

  lemma LowWindow(w: World)
    requires Inv(w)
    ensures Walk(w.ram, [0, 0, 511]) == Some(WINDOW_TABLE) && IsPath([0, 0, 511], 3)
  {
    LowTables(w.ram, w.owner);
  }

  lemma TableWalkKept(w: World, ram: Ram, p: seq<nat>)
    requires Inv(w) && IsPage(p) && Walk(w.ram, p[..3]).Some? && p != WINDOW
    requires SameBut(Emptied(w, p).ram, ram, FRAMES, Walk(w.ram, p[..3]).value, 0)
    ensures Walk(ram, p[..3]) == Walk(w.ram, p[..3])
  {
    hide Walk, LeafEntry, LeavesAreMapped, EntriesArePresent, TablesAreWalked, Emptied;
    var t := Walk(w.ram, p[..3]).value;
    TableAt(w, p[..3]);
    LowTables(w.ram, w.owner);
    EmptiedWrites(w, p);
    LeafWriteEffect(w, Emptied(w, p), t, p);
    assert WalksAreTables(Emptied(w, p).ram, w.owner);
    QuietWalk(Emptied(w, p).ram, ram, w.owner, FRAMES, t, 0, p[..3]);
  }

  /** Whatever was open in the window when a page is unmapped, as by a tick that reaps a task, is no longer: a store
      through the window that was to follow would fault. */
  lemma UnmapShutsWindow(w: World, p: seq<nat>)
    requires Inv(w) && IsPage(p) && p != WINDOW && Removable(w, p) && Walk(w.ram, p[..3]).Some?
    ensures Walk(UnmapPage(w, p).ram, WINDOW) == None
  {
    hide Walk, LeafEntry, Inv, UnmapPage, MarkIndex, Live;
    UnmapPageInv(w, p);
    InvShape(w);
    RemovableInside(w, p);
    UnmapInside(w, p, Walk(w.ram, p[..3]).value);
    LowWindow(UnmapPage(w, p));
    TableAt(UnmapPage(w, p), [0, 0, 511]);
    assert WINDOW[..3] == [0, 0, 511];
    LastEntry(UnmapPage(w, p).ram, WINDOW);
    LeafIsEntry(UnmapPage(w, p).ram, WINDOW_TABLE, WINDOW);
  }

  lemma RemovableInside(w: World, p: seq<nat>)
    requires Inv(w) && IsPage(p) && p != WINDOW && Removable(w, p) && Walk(w.ram, p[..3]).Some?
    ensures p != [0, 0, 0, BITMAP_FRAME] && MarkIndex(LeafEntry(w.ram, p)) < FRAMES
  {
    hide Walk, LeafEntry, Inv, MarkIndex;
    var t := Walk(w.ram, p[..3]).value;
    InvShape(w);
    if Live(w, p) {
      OwnBit(w, p);
      BackedFrame(w, p, MarkIndex(LeafEntry(w.ram, p)));
      LiveNotLow(w, p, t);
    } else {
      ForeignNotLow(w, p, t);
    }
    NotBitmapPage(w, p, t);
  }

  /** Identity allocation keeps the translation of every live page exactly when the page at the frame's own
      address is not a live page. */
  lemma Alloc4KKeepsLiveIff(w: World, flags: nat)
    requires Inv(w) && GoodFlags(flags)
    requires FreeCount(w.used) > Missing(w.ram, Ident(FirstFree(w.used)), 3)
    ensures (forall q :: Live(w, q) ==> LeafEntry(Alloc4K(w, flags).ram, q) == LeafEntry(w.ram, q))
       <==> !Live(w, Ident(FirstFree(w.used)))
  {
    hide Inv, LeafEntry, Alloc4K, FreeCount, FirstFree, Missing, FreshPage, Grows;
    var p := Ident(FirstFree(w.used));
    if Live(w, p) {
      LowFacts(w);
      ClaimFacts(w, Claimed);
      var g :| g in w.owner && w.owner[g] == Leaf(p);
      LiveEntry(w, p, g);
      AllocEntry(w, flags);
      MarkedIsNotFirst(w, g);
    } else {
      Alloc4KInv(w, flags);
      LiveAreTrue(w, p);
    }
  }

  /** It keeps the entry of every mapped page, live or not, exactly when the entry at the frame's own address is
      empty or already the one it stores. */
  lemma Alloc4KKeepsMappedIff(w: World, flags: nat)
    requires Inv(w) && GoodFlags(flags)
    requires FreeCount(w.used) > Missing(w.ram, Ident(FirstFree(w.used)), 3)
    ensures (forall q :: IsPage(q) && q != WINDOW && LeafEntry(w.ram, q) != 0 ==>
               LeafEntry(Alloc4K(w, flags).ram, q) == LeafEntry(w.ram, q))
       <==> LeafEntry(w.ram, Ident(FirstFree(w.used))) == 0
            || LeafEntry(w.ram, Ident(FirstFree(w.used))) == FirstFree(w.used) * PAGE_SIZE + flags
  {
    hide Inv, LeafEntry, Alloc4K, FreeCount, FirstFree, Missing, FreshPage, Grows, Live;
    var f := FirstFree(w.used);
    var p := Ident(f);
    LowFacts(w);
    ClaimFacts(w, Claimed);
    IdentPage(f);
    AllocEntry(w, flags);
    if LeafEntry(w.ram, p) == 0 || LeafEntry(w.ram, p) == f * PAGE_SIZE + flags {
      NotLiveThere(w, p, f, flags);
      Alloc4KInv(w, flags);
    }
  }

  lemma NotLiveThere(w: World, p: seq<nat>, f: nat, flags: nat)
    requires Inv(w) && IsPage(p) && p == Ident(FirstFree(w.used)) && f == FirstFree(w.used) < FRAMES && flags < 0x200
    requires LeafEntry(w.ram, p) == 0 || LeafEntry(w.ram, p) == f * PAGE_SIZE + flags
    ensures !Live(w, p)
  {
    hide Inv, LeafEntry, FirstFree;
    if Live(w, p) {
      var g :| g in w.owner && w.owner[g] == Leaf(p);
      LiveEntry(w, p, g);
      MarkedIsNotFirst(w, g);
      AddressAndFlags(f, flags);
      assert false;
    }
  }

  lemma LiveAreTrue(w: World, p: seq<nat>)
    requires Inv(w) && !Live(w, p)
    ensures forall q :: Live(w, q) ==> IsPage(q) && q != WINDOW && q != p
  {
  }

  lemma MarkedIsNotFirst(w: World, g: nat)
    requires Inv(w) && g in w.owner && FirstFree(w.used) < FRAMES
    ensures g != FirstFree(w.used)
  {
  }

  /** The entry stored by identity allocation, whatever was there. */
  lemma AllocEntry(w: World, flags: nat)
    requires Inv(w) && GoodFlags(flags)
    requires FreeCount(w.used) > Missing(w.ram, Ident(FirstFree(w.used)), 3)
    ensures LeafEntry(Alloc4K(w, flags).ram, Ident(FirstFree(w.used))) == FirstFree(w.used) * PAGE_SIZE + flags
  {
    hide Inv, Grows, Walk, LeafEntry, Set, FreeCount, FirstFree, Missing, EnsurePath, SameLeaves, Claim, IsPath;
    var f := FirstFree(w.used);
    var p := Ident(f);
    var c := Claim(w, Claimed);
    ClaimInv(w);
    LowFacts(w);
    ClaimFacts(w, Claimed);
    IdentPage(f);
    MissingSame(w.ram, c.ram, p, 3);
    var w3 := EnsurePath(c, p, 3, flags);
    EnsurePathInv(c, p, 3, flags);
    var t := Walk(w3.ram, p[..3]).value;
    TableAt(w3, p[..3]);
    var w4 := w3.(ram := Set(w3.ram, t, p[3], f * PAGE_SIZE + flags));
    LowFrameFree(w, f);
    PlainStore(w3, w4, t, p, f * PAGE_SIZE + flags);
    assert SetWindow(w3.(ram := w4.ram, owner := w3.owner[f := Leaf(p)]), 0).ram == SetWindow(w4, 0).ram;
  }

  lemma PlainStore(w: World, w': World, t: nat, p: seq<nat>, e: nat)
    requires Inv(w) && IsPage(p) && p != WINDOW && Walk(w.ram, p[..3]) == Some(t) && w' == w.(ram := Set(w.ram, t, p[3], e))
    ensures LeafEntry(SetWindow(w', 0).ram, p) == e
  {
    hide Walk, LeafEntry, LeavesAreMapped, EntriesArePresent, TablesAreWalked, WalksAreTables;
    TableAt(w, p[..3]);
    assert IsPath(p[..3], 3);
    var w2 := SetWindow(w', 0);
    FourIsFirst(w);
    BothWrites(w, w2, t, p);
    LeafIsEntry(w2.ram, t, p);
    LowTables(w.ram, w.owner);
    assert t != 5 || p[3] != 0 by {
      if t == 5 {
        assert p == p[..3] + [p[3]];
      }
    }
  }

  lemma BothWrites(w: World, w2: World, t: nat, p: seq<nat>)
    requires Inv(w) && IsPage(p) && Walk(w.ram, p[..3]) == Some(t) && SameBut(w.ram, w2.ram, FRAMES, t, p[3])
    ensures Walk(w2.ram, p[..3]) == Some(t)
  {
    hide LeafEntry, LeavesAreMapped, EntriesArePresent, TablesAreWalked;
    TableAt(w, p[..3]);
    LowTables(w.ram, w.owner);
    QuietWalk(w.ram, w2.ram, w.owner, FRAMES, t, p[3], p[..3]);
  }
}

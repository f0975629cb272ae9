/** Heap calls interleaved with other paging calls: the blocks stay tiled and every heap address stays translated. */
module HeapRuns {
  import opened Words
  import opened PageTables
  import opened PageSteps
  import opened PageRanges
  import opened PageRuns
  import opened PageBytes
  import opened PageManager
  import opened HeapBlocks
  import opened HeapManager

  datatype Sys = Sys(heap: Heap, world: World)

  datatype SysOp = HeapCall(op: HeapOp) | PageCall(page: Op)

  /** What a heap call does to the page tables: one page mapped behind the heap for each page of growth. */
  function HeapWorld(s: Sys, op: HeapOp): World
    requires Returns(s.heap, op)
  {
    if op.Allocate? && op.size > 0 then
      MapPages(s.world, s.heap.start + s.heap.size, PagesFor(s.heap, op.size), HEAP_FLAGS)
    else s.world
  }

  function Step(s: Sys, op: SysOp): Sys
    requires op.HeapCall? ==> Returns(s.heap, op.op)
  {
    match op
    case HeapCall(c) => Sys(Call(s.heap, c), HeapWorld(s, c))
    case PageCall(c) => s.(world := Do(s.world, c))
  }

  /** Frames and address space for the pages a request grows the heap by. */
  ghost predicate HasRoom(s: Sys, size: nat)
    requires Satisfiable(s.heap, size + HEADER)
  {
    var n := PagesFor(s.heap, size);
    && AvoidsWindow(s.heap.start, s.heap.size / PAGE_SIZE + n)
    && FreeCount(s.world.used) >= n + TablesMade(s.world, s.heap.start + s.heap.size, n, HEAP_FLAGS)
  }

  /** Heap calls are safe and have room; other calls are legal and neither unmap heap pages nor allocate over them. */
  ghost predicate Allowed(s: Sys, op: SysOp) {
    match op
    case HeapCall(c) => Returns(s.heap, c) && Safe(s.heap, c) && (c.Allocate? && c.size > 0 ==> HasRoom(s, c.size))
    case PageCall(c) =>
      && Legal(s.world, c)
      && (c.UmapV? ==> forall i :: 0 <= i < s.heap.size / PAGE_SIZE ==>
            !InRange(PageAt(s.heap.start, i), c.virt, PageCount(c.length)))
  }

  ghost predicate HeapAbove(h: Heap) {
    forall i :: 0 <= i < h.size / PAGE_SIZE ==> !InLow(PageAt(h.start, i))
  }

  ghost predicate SysInv(s: Sys) {
    && Inv(s.world) && Tiled(s.heap) && s.heap.size % PAGE_SIZE == 0
    && AvoidsWindow(s.heap.start, s.heap.size / PAGE_SIZE)
    && HeapMapped(s.world, s.heap.start, s.heap.size)
  }

  /** Mapping n pages behind the heap extends the mapped heap by n pages. */
  lemma HeapPagesMapped(w: World, w': World, start: nat, size: nat, n: nat)
    requires Inv(w) && Inv(w') && HeapMapped(w, start, size) && size % PAGE_SIZE == 0
    requires AvoidsWindow(start, size / PAGE_SIZE + n) && AvoidsWindow(start + size, n)
    requires RangeMapped(w, w', start + size, n, HEAP_FLAGS)
    ensures HeapMapped(w', start, size + n * PAGE_SIZE)
  {
    hide Inv, LeafEntry, PageOf, FreshPage, RangeMapped;
    var m := size / PAGE_SIZE;
    forall i | 0 <= i < m + n ensures Present(LeafEntry(w'.ram, PageAt(start, i))) {
      if i < m {
        InsideRange(start, i, m + n);
        KeptPresent(w, w', start + size, n, PageAt(start, i));
      } else {
        assert PageAt(start + size, i - m) == PageAt(start, i);
        RangeIsPresent(w, w', start + size, n, HEAP_FLAGS, i - m);
      }
    }
  }

  lemma KeptPresent(w: World, w': World, virt: nat, n: nat, p: seq<nat>)
    requires RangeMapped(w, w', virt, n, HEAP_FLAGS) && IsPage(p) && p != WINDOW && Present(LeafEntry(w.ram, p))
    ensures Present(LeafEntry(w'.ram, p))
  {
    hide LeafEntry, PageAt, FreshPage;
  }

  lemma BehindAvoids(start: nat, size: nat, n: nat)
    requires size % PAGE_SIZE == 0 && AvoidsWindow(start, size / PAGE_SIZE + n)
    ensures AvoidsWindow(start + size, n)
  {
    hide PageOf;
    var end := start + size;
    forall i | 0 <= i < n ensures PageAt(end, i) != WINDOW {
      assert PageAt(end, i) == PageAt(start, size / PAGE_SIZE + i);
      InsideRange(start, size / PAGE_SIZE + i, size / PAGE_SIZE + n);
    }
  }

  lemma AllocatedSize(h: Heap, size: nat)
    requires Tiled(h) && Satisfiable(h, size + HEADER) && size > 0
    ensures NewAlloc(h, size).size == h.size + PagesFor(h, size) * PAGE_SIZE
    ensures h.size % PAGE_SIZE == 0 ==> NewAlloc(h, size).size % PAGE_SIZE == 0
  {
    hide Tiled, Satisfiable, Carve, Retries, Splits, SplitGrows, FirstFit, Grown;
    var need := size + HEADER;
    var g := Grown(h, need);
    GrownSize(h, need);
    ServedSize(g, FirstFit(g.blocks, need), size);
  }

  /** The bytes `new_alloc` adds to the heap, one by one: each lies on a present page, and one that was empty before is on
      a frame of its own that was unmarked, present and read-write. */
  lemma NewHeapInBytes(s: Sys, size: nat, a: nat)
    requires SysInv(s) && Allowed(s, HeapCall(Allocate(size))) && size > 0 && s.heap.start % 0x1000 == 0
    requires var h := NewAlloc(s.heap, size); s.heap.start + s.heap.size <= a < h.start + h.size <= 0x1_0000_0000_0000_0000
    ensures var w, w', q := s.world, Step(s, HeapCall(Allocate(size))).world, PageOf(a);
      && Present(LeafEntry(w'.ram, q))
      && (LeafEntry(w.ram, q) == 0 ==>
            var f := LeafEntry(w'.ram, q) / 0x1000;
            && LeafEntry(w'.ram, q) == f * 0x1000 + 3 && f < |w.used| && !w.used[f])
  {
    hide Inv, LeafEntry, PageOf, MapPages, TablesMade, FreeCount, HeapMapped, AvoidsWindow, Tiled, NewAlloc, PagesFor;
    var n, end := PagesFor(s.heap, size), s.heap.start + s.heap.size;
    AllocatedSize(s.heap, size);
    SameStart(s, HeapCall(Allocate(size)));
    BehindAvoids(s.heap.start, s.heap.size, n);
    MapvInBytes(s.world, end, n * 0x1000, HEAP_FLAGS, a);
  }

  lemma HeapCallInv(s: Sys, op: HeapOp)
    requires SysInv(s) && Allowed(s, HeapCall(op))
    ensures SysInv(Step(s, HeapCall(op)))
  {
    hide Inv, LeafEntry, PageOf, MapPages, TablesMade, FreeCount, HeapMapped, AvoidsWindow, Tiled, NewAlloc, RangeMapped;
    CallTiled(s.heap, op);
    match op
    case Allocate(size) =>
      if size > 0 {
        var n := PagesFor(s.heap, size);
        AllocatedSize(s.heap, size);
        BehindAvoids(s.heap.start, s.heap.size, n);
        MapPagesInv(s.world, s.heap.start + s.heap.size, n, HEAP_FLAGS);
        HeapPagesMapped(s.world, HeapWorld(s, op), s.heap.start, s.heap.size, n);
      }
    case Release(k) => FreeTiled(s.heap, k);
  }

  lemma PageCallInv(s: Sys, op: Op)
    requires SysInv(s) && HeapAbove(s.heap) && Allowed(s, PageCall(op))
    ensures SysInv(Step(s, PageCall(op)))
  {
    hide Inv, LeafEntry, PageOf, MapPages, MapPhysPages, UnmapPages, Alloc4K, Claim, TablesMade, PhysTablesMade, FreeCount,
      Tiled, Missing, Live, Do;
    DoInv(s.world, op);
    forall i | 0 <= i < s.heap.size / PAGE_SIZE
      ensures Present(LeafEntry(Do(s.world, op).ram, PageAt(s.heap.start, i)))
    {
      InsideRange(s.heap.start, i, s.heap.size / PAGE_SIZE);
      PageKept(s.world, op, PageAt(s.heap.start, i));
    }
  }

  /** A page outside the identity region that a legal call does not unmap stays mapped. */
  lemma PageKept(w: World, op: Op, p: seq<nat>)
    requires Inv(w) && Legal(w, op) && IsPage(p) && p != WINDOW && !InLow(p) && Present(LeafEntry(w.ram, p))
    requires op.UmapV? ==> !InRange(p, op.virt, PageCount(op.length))
    ensures Present(LeafEntry(Do(w, op).ram, p))
  {
    hide Inv, LeafEntry, PageAt, MapPages, MapPhysPages, UnmapPages, Alloc4K, TablesMade, PhysTablesMade, FreeCount, Missing,
      Live, Grows, FreshPage, Claim, FirstFree, InLow;
    match op
    case GetFrame =>
      InvShape(w);
      FreeCountPositive(w.used);
      if FreeCount(w.used) > 0 {
        ClaimInv(w);
        SameLeavesAt(w.ram, Claim(w, Claimed).ram, p);
      } else {
        NoFrameLeft(w);
      }
    case AllocOp(flags) =>
      InvShape(w);
      ShapeSize(w);
      FreeCountPositive(w.used);
      Alloc4KInv(w, flags);
      IdentLow(FirstFree(w.used));
    case MapV(virt, length, flags) => MapPagesInv(w, virt, PageCount(length), flags);
    case MapVP(virt, phys, length, flags) => MapPhysPagesInv(w, virt, phys, PageCount(length), flags);
    case UmapV(virt, length) => UnmapPagesInv(w, virt, PageCount(length));
  }

  lemma NoFrameLeft(w: World)
    requires FreeCount(w.used) == 0
    ensures Claim(w, Claimed) == w
  {
    FreeCountPositive(w.used);
  }

  ghost predicate AllowedRun(s: Sys, ops: seq<SysOp>)
    decreases |ops|
  {
    ops == [] || (Allowed(s, ops[0]) && HeapAbove(s.heap) && AllowedRun(Step(s, ops[0]), ops[1..]))
  }

  function RunSys(s: Sys, ops: seq<SysOp>): Sys
    requires AllowedRun(s, ops)
    decreases |ops|
  {
    if ops == [] then s else RunSys(Step(s, ops[0]), ops[1..])
  }

  lemma {:induction false} RunSysInv(s: Sys, ops: seq<SysOp>)
    requires SysInv(s) && AllowedRun(s, ops)
    ensures SysInv(RunSys(s, ops)) && RunSys(s, ops).heap.start == s.heap.start
    decreases |ops|
  {
    hide SysInv, Step, HeapAbove, Legal, HasRoom, Safe;
    if ops != [] {
      match ops[0] {
        case HeapCall(c) => HeapCallInv(s, c);
        case PageCall(c) => PageCallInv(s, c);
      }
      SameStart(s, ops[0]);
      RunSysInv(Step(s, ops[0]), ops[1..]);
    }
  }

  lemma SameStart(s: Sys, op: SysOp)
    requires SysInv(s) && Allowed(s, op)
    ensures Step(s, op).heap.start == s.heap.start
  {
    hide Inv, HeapMapped, AvoidsWindow, HasRoom, HeapWorld, Do, Legal;
    if op.HeapCall? {
      CallTiled(s.heap, op.op);
    }
  }

  /** After any allowed run every address from heap_start to heap_start + heap_size is translated. */
  lemma HeapStaysTranslated(s: Sys, ops: seq<SysOp>, addr: nat)
    requires SysInv(s) && s.heap.start % PAGE_SIZE == 0 && AllowedRun(s, ops)
    requires var h := RunSys(s, ops).heap; h.start <= addr < h.start + h.size <= WORD_LIMIT
    ensures Walk(RunSys(s, ops).world.ram, PageOf(addr)).Some?
  {
    hide Walk, PageOf, LeafEntry, Inv, Tiled, AvoidsWindow, HeapMapped, AllowedRun;
    RunSysInv(s, ops);
    var t := RunSys(s, ops);
    HeapAddressTranslates(t.world, t.heap.start, t.heap.size, addr);
  }
}

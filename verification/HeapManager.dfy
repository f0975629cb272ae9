/** `kernel/alloc.c` as it runs: headers linked by address, heap growth paired with page mapping. */
module HeapManager {
  import opened Words
  import opened PageTables
  import opened PageSteps
  import opened PageRanges
  import opened PageManager
  import opened HeapBlocks

  const NULL: nat := 0
  const HEAP_FLAGS: nat := 3       // PAGE_PRESENT | PAGE_READWRITE

  /** The header stored in front of a block. */
  datatype Header = Header(size: nat, available: bool, next: nat)

  function HeaderOf(bs: seq<Block>, k: nat): Header
    requires k < |bs|
  {
    Header(bs[k].size, bs[k].available, if k + 1 < |bs| then bs[k + 1].addr else NULL)
  }

  /** The headers, followed from the first block by their links, are exactly `bs`. */
  ghost predicate Linked(headers: map<nat, Header>, bs: seq<Block>) {
    forall k :: 0 <= k < |bs| ==> bs[k].addr in headers && headers[bs[k].addr] == HeaderOf(bs, k)
  }

  // ---------------------------------------------------------------- heap pages

  /** Every page of the heap is mapped. */
  ghost predicate HeapMapped(w: World, start: nat, size: nat) {
    forall i :: 0 <= i < size / PAGE_SIZE ==> Present(LeafEntry(w.ram, PageAt(start, i)))
  }

  /** Mapping the page behind the heap extends the mapped heap by that page. */
  lemma HeapPageMapped(w: World, w': World, start: nat, size: nat)
    requires Inv(w) && Inv(w') && HeapMapped(w, start, size) && size % PAGE_SIZE == 0
    requires AvoidsWindow(start, size / PAGE_SIZE + 1) && RangeMapped(w, w', start + size, 1, HEAP_FLAGS)
    ensures HeapMapped(w', start, size + PAGE_SIZE)
  {
    hide Inv, LeafEntry, PageOf, FreshPage;
    var n := size / PAGE_SIZE;
    assert PageAt(start + size, 0) == PageAt(start, n);
    LastAvoids(start, size);
    RangeIsPresent(w, w', start + size, 1, HEAP_FLAGS, 0);
    forall i | 0 <= i < n + 1 ensures Present(LeafEntry(w'.ram, PageAt(start, i))) {
      if i < n {
        var p := PageAt(start, i);
        assert InRange(p, start, n + 1);
      }
    }
  }

  lemma LastAvoids(start: nat, size: nat)
    requires size % PAGE_SIZE == 0 && AvoidsWindow(start, size / PAGE_SIZE + 1)
    ensures AvoidsWindow(start + size, 1)
  {
    hide PageOf;
    assert PageAt(start + size, 0) == PageAt(start, size / PAGE_SIZE);
    InsideRange(start, size / PAGE_SIZE, size / PAGE_SIZE + 1);
  }

  /** Every address of the heap is translated by the page tables. */
  lemma HeapAddressTranslates(w: World, start: nat, size: nat, addr: nat)
    requires HeapMapped(w, start, size) && start % PAGE_SIZE == 0 && size % PAGE_SIZE == 0
    requires start <= addr < start + size <= WORD_LIMIT
    ensures Walk(w.ram, PageOf(addr)).Some?
  {
    hide Walk, PageOf, LeafEntry;
    var i := (addr - start) / PAGE_SIZE;
    PageOfFloor(addr);
    assert addr - addr % PAGE_SIZE == start + i * PAGE_SIZE;
    assert PageAt(start, i) == PageOf(addr);
    PresentWalks(w.ram, PageOf(addr));
  }

  lemma PresentWalks(ram: Ram, p: seq<nat>)
    requires |p| == 4 && Present(LeafEntry(ram, p))
    ensures Walk(ram, p).Some?
  {
  }

  // ---------------------------------------------------------------- one growth step at a time

  /** Pages `new_alloc(size)` asks `page_mapv` for. */
  function PagesFor(h: Heap, size: nat): nat
    requires Satisfiable(h, size + HEADER)
  {
    if NewAlloc(h, size).size >= h.size then (NewAlloc(h, size).size - h.size) / PAGE_SIZE else 0
  }

  lemma RetryIsSame(h: Heap, size: nat)
    requires Tiled(h) && Satisfiable(h, size + HEADER) && FirstFit(h.blocks, size + HEADER) == |h.blocks|
    ensures Satisfiable(GrowTail(h), size + HEADER) && Tiled(GrowTail(h))
    ensures NewAlloc(GrowTail(h), size) == NewAlloc(h, size) && AllocPtr(GrowTail(h), size) == AllocPtr(h, size)
    ensures Grown(GrowTail(h), size + HEADER) == Grown(h, size + HEADER)
    ensures SafeRequest(GrowTail(h), size) == SafeRequest(h, size)
    ensures PagesFor(h, size) == PagesFor(GrowTail(h), size) + 1
    ensures NewAlloc(h, size).size >= h.size + PAGE_SIZE
  {
    GrowTailTiled(h);
    assert !Fits(Tail(h), size + HEADER);
    GrownSize(GrowTail(h), size + HEADER);
  }

  lemma ServedPages(h: Heap, size: nat)
    requires Tiled(h) && FirstFit(h.blocks, size + HEADER) < |h.blocks|
    ensures Satisfiable(h, size + HEADER) && Grown(h, size + HEADER) == h
    ensures NewAlloc(h, size) == Carve(h, FirstFit(h.blocks, size + HEADER), size + HEADER)
    ensures AllocPtr(h, size) == h.blocks[FirstFit(h.blocks, size + HEADER)].addr + HEADER
    ensures SafeRequest(h, size) == !OverlappingSplit(h, FirstFit(h.blocks, size + HEADER), size + HEADER)
    ensures PagesFor(h, size) == if NewAlloc(h, size).size == h.size then 0 else 1
    ensures NewAlloc(h, size).size == h.size || NewAlloc(h, size).size == h.size + PAGE_SIZE
  {
  }

  /** Kernel heap state: header words in memory, the two globals, and the page tables it grows into. */
  class KernelHeap {
    const paging: Paging
    var headers: map<nat, Header>
    var heap_start: nat
    var heap_size: nat
    ghost var blocks: seq<Block>

    ghost function Model(): Heap
      reads this
    {
      Heap(heap_start, heap_size, blocks)
    }

    ghost predicate Valid()
      reads this, paging, paging.bitmap
    {
      && Linked(headers, blocks) && Tiled(Model())
      && heap_start % PAGE_SIZE == 0 && heap_size % PAGE_SIZE == 0 && heap_start + heap_size <= WORD_LIMIT
      && AvoidsWindow(heap_start, heap_size / PAGE_SIZE)
      && paging.Valid() && HeapMapped(paging.State(), heap_start, heap_size)
    }

    /** What the rest of the system must provide for n more heap pages. */
    ghost predicate Room(n: nat)
      reads this, paging, paging.bitmap
    {
      && heap_size % PAGE_SIZE == 0 && heap_start + heap_size + n * PAGE_SIZE <= WORD_LIMIT
      && AvoidsWindow(heap_start, heap_size / PAGE_SIZE + n)
      && FreeCount(paging.State().used) >= n + TablesMade(paging.State(), heap_start + heap_size, n, HEAP_FLAGS)
    }

    /** `init_alloc`. */
    constructor Init(paging: Paging, start: nat)
      requires paging.Valid() && 0 < start && start % PAGE_SIZE == 0 && start + PAGE_SIZE <= WORD_LIMIT && AvoidsWindow(start, 1)
      requires FreeCount(paging.State().used) >= 1 + TablesMade(paging.State(), start, 1, HEAP_FLAGS)
      modifies paging, paging.bitmap
      ensures this.paging == paging && Valid() && Model() == InitHeap(start)
      ensures paging.State() == MapPages(old(paging.State()), start, 1, HEAP_FLAGS)
    {
      hide Inv, MapPages, TablesMade, FreeCount, PageOf, LeafEntry, AvoidsWindow;
      this.paging := paging;
      heap_start := start;
      headers := map[start := Header(HEAP_PAGE, true, NULL)];
      heap_size := HEAP_PAGE;
      blocks := [Block(start, HEAP_PAGE, true)];
      new;
      ghost var w := paging.State();
      MapPagesInv(w, start, 1, HEAP_FLAGS);
      paging.PageMapv(start, HEAP_PAGE, HEAP_FLAGS);
      NothingMapped(w, start);
      HeapPageMapped(w, paging.State(), start, 0);
    }

    /** Lines 61-62 and 93-94: map the page behind the heap and count it in. */
    method MapNextPage()
      requires heap_start % PAGE_SIZE == 0 && Room(1) && paging.Valid() && HeapMapped(paging.State(), heap_start, heap_size)
      modifies this`heap_size, paging, paging.bitmap
      ensures heap_size == old(heap_size) + HEAP_PAGE && paging.Valid() && HeapMapped(paging.State(), heap_start, heap_size)
      ensures paging.State() == MapPages(old(paging.State()), heap_start + old(heap_size), 1, HEAP_FLAGS)
    {
      hide Inv, MapPages, TablesMade, FreeCount, PageOf, LeafEntry, AvoidsWindow, HeapMapped;
      ghost var w := paging.State();
      LastAvoids(heap_start, heap_size);
      MapPagesInv(w, heap_start + heap_size, 1, HEAP_FLAGS);
      paging.PageMapv(heap_start + heap_size, HEAP_PAGE, HEAP_FLAGS);
      HeapPageMapped(w, paging.State(), heap_start, heap_size);
      heap_size := heap_size + HEAP_PAGE;
    }

    /** Lines 40-81: hand out block k, whole or split. */
    method TakeBlock(current: nat, size: nat, ghost k: nat) returns (ptr: nat)
      requires Valid() && size > 0 && k < |blocks| && current == blocks[k].addr && Fits(blocks[k], size + HEADER)
      requires heap_size + HEAP_PAGE < DWORD_LIMIT && !OverlappingSplit(Model(), k, size + HEADER)
      requires Splits(blocks[k], size + HEADER) && SplitGrows(Model(), blocks[k], size + HEADER) ==> Room(1)
      modifies this, paging, paging.bitmap
      ensures Valid() && Model() == Carve(old(Model()), k, size + HEADER) && ptr == current + HEADER
      ensures paging.State() == MapPages(old(paging.State()), old(heap_start + heap_size),
        if heap_size == old(heap_size) then 0 else 1, HEAP_FLAGS)
    {
      hide Inv, MapPages, TablesMade, FreeCount, PageOf, LeafEntry, AvoidsWindow, HeapMapped, Tiled, Linked;
      ghost var h, need := Model(), size + HEADER;
      LinkAt(headers, h.blocks, k);
      NothingMore(paging.State(), h.start + h.size);
      CarveTiled(h, k, need);
      ptr := current + HEADER;
      var block := headers[current];
      headers := headers[current := block.(available := false)];
      if block.size == size + HEADER {
        LinkedUpdate(old(headers), h, k, h.blocks[k].(available := false));
        blocks := Carve(h, k, need).blocks;
        return;
      }
      var size_block := (size + HEADER) % DWORD_LIMIT;
      Inside(h, k);
      var remain_size := (block.size - size_block) % DWORD_LIMIT;
      if remain_size < HEADER {
        LinkedUpdate(old(headers), h, k, h.blocks[k].(available := false));
        blocks := Carve(h, k, need).blocks;
        return;
      }
      CarveBlocks(h, k, need);
      var new_block := current + size_block;
      if heap_start + heap_size < new_block + size_block {
        MapNextPage();
        remain_size := (heap_start + heap_size - new_block) % DWORD_LIMIT;
      }
      headers := headers[new_block := Header(remain_size, true, headers[current].next)];
      headers := headers[current := Header(size_block, false, new_block)];
      blocks := Carve(h, k, need).blocks;
      LinkedSplit(old(headers), h, k, need, headers);
    }

    /** Lines 32-90: the first block that fits, or NULL and the last block of the list. */
    method Search(size: nat) returns (current: nat, end_heap: nat, ghost k: nat)
      requires Valid()
      ensures k == FirstFit(blocks, size + HEADER)
      ensures current == if k < |blocks| then blocks[k].addr else NULL
      ensures k < |blocks| ==> current != NULL
      ensures k == |blocks| ==> end_heap == Tail(Model()).addr
    {
      hide Inv, PageOf, LeafEntry, AvoidsWindow, HeapMapped;
      AddressesPositive(Model());
      current, end_heap, k := heap_start, NULL, 0;
      while current != NULL
        invariant k <= |blocks| && current == if k < |blocks| then blocks[k].addr else NULL
        invariant end_heap == if k == |blocks| then Tail(Model()).addr else NULL
        invariant forall j :: 0 <= j < k ==> !Fits(blocks[j], size + HEADER)
        decreases |blocks| - k
      {
        if headers[current].available && headers[current].size >= size + HEADER {
          FirstFitIs(blocks, size + HEADER, k);
          return;
        }
        if headers[current].next == NULL {
          end_heap := current;
        }
        current := headers[current].next;
        k := k + 1;
      }
      NoFit(blocks, size + HEADER);
    }

    /** Lines 92-96: one more page, given to the last block. */
    method ExtendTail(end_heap: nat)
      requires Valid() && Room(1) && end_heap == Tail(Model()).addr
      modifies this, paging, paging.bitmap
      ensures Valid() && Model() == GrowTail(old(Model()))
      ensures paging.State() == MapPages(old(paging.State()), old(heap_start + heap_size), 1, HEAP_FLAGS)
    {
      hide Inv, MapPages, TablesMade, FreeCount, PageOf, LeafEntry, AvoidsWindow, HeapMapped, Tiled, Linked;
      ghost var h := Model();
      TiledNonempty(h);
      LinkAt(headers, h.blocks, |h.blocks| - 1);
      GrowTailTiled(h);
      MapNextPage();
      NextWindow(heap_start, h.size);
      headers := headers[end_heap := headers[end_heap].(size := headers[end_heap].size + HEAP_PAGE)];
      blocks := GrowTail(h).blocks;
      LinkedGrown(old(headers), h, headers);
    }

    /** `new_alloc`. */
    method NewAlloc(size: nat) returns (ptr: nat)
      requires Valid()
      requires size > 0 ==> Satisfiable(Model(), size + HEADER) && SafeRequest(Model(), size)
      requires size > 0 ==> Grown(Model(), size + HEADER).size + HEAP_PAGE < DWORD_LIMIT && Room(PagesFor(Model(), size))
      modifies this, paging, paging.bitmap
      ensures Valid()
      ensures size == 0 ==> ptr == NULL && Model() == old(Model()) && paging.State() == old(paging.State())
      ensures size > 0 ==> Model() == HeapBlocks.NewAlloc(old(Model()), size) && ptr == AllocPtr(old(Model()), size)
      ensures size > 0 ==> (
        paging.State() == MapPages(old(paging.State()), old(heap_start + heap_size), PagesFor(old(Model()), size), HEAP_FLAGS))
      decreases if FirstFit(blocks, size + HEADER) < |blocks| then 0 else size + HEADER - Tail(Model()).size
    {
      hide Inv, MapPages, TablesMade, FreeCount, PageOf, LeafEntry, AvoidsWindow, HeapMapped, Grown, Carve, Tiled, Linked,
        HeapBlocks.NewAlloc, AllocPtr, SafeRequest, PagesFor;
      if size == 0 {
        return NULL;
      }
      ghost var h, w := Model(), paging.State();
      var current, end_heap, k := Search(size);
      if current != NULL {
        ServedPages(h, size);
        ServedSize(h, k, size);
        ptr := TakeBlock(current, size, k);
      } else {
        RetryIsSame(h, size);
        assert !Fits(Tail(h), size + HEADER);
        RoomAfterOne(w, heap_start, heap_size, PagesFor(h, size));
        ExtendTail(end_heap);
        ptr := NewAlloc(size);
        MapPagesSplit(w, h.start + h.size, PagesFor(h, size) - 1, HEAP_FLAGS);
      }
    }

    /** `free_alloc` of NULL or of a pointer into the list. `prev_block` has just been set to heap_start,
        so the branch for other predecessors never runs. */
    method FreeAlloc(ptr: nat, ghost k: nat)
      requires Valid() && (ptr == NULL || (k < |blocks| && ptr == blocks[k].addr + HEADER))
      modifies this`headers, this`blocks
      ensures Valid()
      ensures ptr == NULL ==> Model() == old(Model())
      ensures ptr != NULL ==> Model() == Free(old(Model()), k)
    {
      hide Inv, PageOf, LeafEntry, AvoidsWindow, HeapMapped, Tiled, Free;
      if ptr == NULL {
        return;
      }
      ghost var h := Model();
      FreeTiled(h, k);
      var block := ptr - HEADER;
      var next_block := headers[block].next;
      headers := headers[block := headers[block].(available := true)];
      NextDiffers(h, k);
      if next_block != NULL && headers[next_block].available {
        headers := headers[block := Header(headers[block].size + headers[next_block].size, true, headers[next_block].next)];
        headers := headers[next_block := headers[next_block].(next := NULL)];
      }
      blocks := Free(h, k).blocks;
      LinkedFree(old(headers), h, k, headers);
    }
  }

  /** The link of block k leads to block k + 1, at a different address, or nowhere. */
  lemma NextDiffers(h: Heap, k: nat)
    requires Tiled(h) && k < |h.blocks|
    ensures k + 1 < |h.blocks| ==> h.blocks[k + 1].addr != h.blocks[k].addr && h.blocks[k + 1].addr != NULL
  {
    AddressesPositive(h);
    if k + 1 < |h.blocks| {
      AddressesDiffer(h, k, k + 1);
    }
  }

  lemma LinkedFree(headers: map<nat, Header>, h: Heap, k: nat, headers': map<nat, Header>)
    requires Tiled(h) && Linked(headers, h.blocks) && k < |h.blocks|
    requires var a := h.blocks[k].addr;
      if k + 1 < |h.blocks| && h.blocks[k + 1].available then
        var n := h.blocks[k + 1].addr;
        headers' == headers[a := headers[a].(available := true)]
                           [a := Header(headers[a].size + headers[n].size, true, headers[n].next)]
                           [n := headers[n].(next := NULL)]
      else headers' == headers[a := headers[a].(available := true)]
    ensures Linked(headers', Free(h, k).blocks)
  {
    hide Tiled, Linked;
    if k + 1 < |h.blocks| && h.blocks[k + 1].available {
      NextDiffers(h, k);
      LinkAt(headers, h.blocks, k);
      LinkAt(headers, h.blocks, k + 1);
      LinkedMerge(headers, h, k, headers');
    } else {
      LinkAt(headers, h.blocks, k);
      LinkedUpdate(headers, h, k, h.blocks[k].(available := true));
    }
  }

  lemma LinkAt(headers: map<nat, Header>, bs: seq<Block>, k: nat)
    requires Linked(headers, bs) && k < |bs|
    ensures bs[k].addr in headers && headers[bs[k].addr] == HeaderOf(bs, k)
  {
  }

  lemma AreLinked(headers: map<nat, Header>, bs: seq<Block>)
    requires forall k :: 0 <= k < |bs| ==> bs[k].addr in headers && headers[bs[k].addr] == HeaderOf(bs, k)
    ensures Linked(headers, bs)
  {
  }

  /** Outside blocks k and k + 1 a merge rewrites no header. */
  lemma LinkedMerge(headers: map<nat, Header>, h: Heap, k: nat, headers': map<nat, Header>)
    requires Tiled(h) && Linked(headers, h.blocks) && k + 1 < |h.blocks| && h.blocks[k + 1].available
    requires headers'.Keys == headers.Keys
    requires h.blocks[k].addr in headers && h.blocks[k + 1].addr in headers
    requires headers'[h.blocks[k].addr]
          == Header(h.blocks[k].size + h.blocks[k + 1].size, true, HeaderOf(h.blocks, k + 1).next)
    requires forall a :: a in headers && a != h.blocks[k].addr && a != h.blocks[k + 1].addr ==> headers'[a] == headers[a]
    ensures Linked(headers', Free(h, k).blocks)
  {
    hide Tiled, Linked;
    var c := Free(h, k).blocks;
    forall j | 0 <= j < |c| ensures c[j].addr in headers' && headers'[c[j].addr] == HeaderOf(c, j) {
      if j < k {
        LinkAt(headers, h.blocks, j);
        AddressesDiffer(h, j, k);
        AddressesDiffer(h, j, k + 1);
      } else if j > k {
        LinkAt(headers, h.blocks, j + 1);
        AddressesDiffer(h, j + 1, k);
        AddressesDiffer(h, j + 1, k + 1);
      }
    }
    AreLinked(headers', c);
  }

  lemma TiledNonempty(h: Heap)
    requires Tiled(h)
    ensures |h.blocks| > 0
  {
  }

  lemma NextWindow(start: nat, size: nat)
    requires size % PAGE_SIZE == 0 && AvoidsWindow(start, size / PAGE_SIZE + 1)
    ensures AvoidsWindow(start, (size + PAGE_SIZE) / PAGE_SIZE)
  {
  }

  lemma ServedSize(h: Heap, k: nat, size: nat)
    requires k < |h.blocks| && Fits(h.blocks[k], size + HEADER)
    ensures Carve(h, k, size + HEADER).size
         == if Splits(h.blocks[k], size + HEADER) && SplitGrows(h, h.blocks[k], size + HEADER) then h.size + HEAP_PAGE else h.size
  {
  }

  lemma NothingMore(w: World, virt: nat)
    ensures MapPages(w, virt, 0, HEAP_FLAGS) == w
  {
  }

  /** Writing the two headers of a split links the two blocks in place of the one. */
  lemma LinkedSplit(headers: map<nat, Header>, h: Heap, k: nat, need: nat, headers': map<nat, Header>)
    requires Tiled(h) && Linked(headers, h.blocks) && k < |h.blocks| && h.blocks[k].size >= need >= HEADER
    requires h.size + HEAP_PAGE < DWORD_LIMIT && Splits(h.blocks[k], need) && Tiled(Carve(h, k, need))
    requires var c, a := Carve(h, k, need), h.blocks[k].addr;
      headers' == headers[a := headers[a].(available := false)]
                         [a + need := Header(c.blocks[k + 1].size, true, headers[a].next)]
                         [a := Header(need, false, a + need)]
    ensures Linked(headers', Carve(h, k, need).blocks)
  {
    hide Carve, Tiled, Linked;
    var c := Carve(h, k, need);
    CarveBlocks(h, k, need);
    LinkAt(headers, h.blocks, k);
    forall j | 0 <= j < |c.blocks|
      ensures c.blocks[j].addr in headers' && headers'[c.blocks[j].addr] == HeaderOf(c.blocks, j)
    {
      if j != k {
        AddressesDiffer(c, j, k);
      }
      if j != k + 1 {
        AddressesDiffer(c, j, k + 1);
      }
      if j > k + 1 {
        assert c.blocks[j] == h.blocks[j - 1];
        LinkAt(headers, h.blocks, j - 1);
      } else if j < k {
        LinkAt(headers, h.blocks, j);
      }
    }
    AreLinked(headers', c.blocks);
  }

  lemma AddressesPositive(h: Heap)
    requires Tiled(h)
    ensures forall k :: 0 <= k < |h.blocks| ==> h.blocks[k].addr > 0
  {
    forall k | 0 <= k < |h.blocks| ensures h.blocks[k].addr > 0 {
      Inside(h, k);
    }
  }

  lemma FirstFitIs(bs: seq<Block>, need: nat, k: nat)
    requires k < |bs| && Fits(bs[k], need) && forall j :: 0 <= j < k ==> !Fits(bs[j], need)
    ensures FirstFit(bs, need) == k
  {
  }

  lemma NoFit(bs: seq<Block>, need: nat)
    requires forall j :: 0 <= j < |bs| ==> !Fits(bs[j], need)
    ensures FirstFit(bs, need) == |bs|
  {
  }

  /** Room for n pages is room for one and then for the rest. */
  lemma RoomAfterOne(w: World, start: nat, size: nat, n: nat)
    requires n > 0 && size % PAGE_SIZE == 0 && AvoidsWindow(start, size / PAGE_SIZE + n)
    requires Inv(w) && FreeCount(w.used) >= n + TablesMade(w, start + size, n, HEAP_FLAGS)
    ensures AvoidsWindow(start, size / PAGE_SIZE + 1) && AvoidsWindow(start, (size + PAGE_SIZE) / PAGE_SIZE + (n - 1))
    ensures AvoidsWindow(start, (size + PAGE_SIZE) / PAGE_SIZE)
    ensures FreeCount(w.used) >= 1 + TablesMade(w, start + size, 1, HEAP_FLAGS)
    ensures var w1 := MapPages(w, start + size, 1, HEAP_FLAGS);
      FreeCount(w1.used) >= n - 1 + TablesMade(w1, start + size + PAGE_SIZE, n - 1, HEAP_FLAGS)
  {
    hide Inv, MapPages, TablesMade, FreeCount, PageOf, RangeMapped, Grows;
    MapPagesSplit(w, start + size, n - 1, HEAP_FLAGS);
    SubRange(start, size / PAGE_SIZE + 1, size / PAGE_SIZE + n);
    LastAvoids(start, size);
    MapPagesInv(w, start + size, 1, HEAP_FLAGS);
  }

  lemma LinkedGrown(headers: map<nat, Header>, h: Heap, headers': map<nat, Header>)
    requires Tiled(h) && Linked(headers, h.blocks)
    requires headers' == headers[Tail(h).addr := headers[Tail(h).addr].(size := headers[Tail(h).addr].size + HEAP_PAGE)]
    ensures Linked(headers', GrowTail(h).blocks)
  {
    var n := |h.blocks| - 1;
    LinkedUpdate(headers, h, n, Tail(h).(size := Tail(h).size + HEAP_PAGE));
  }

  /** Rewriting the header of block k. */
  lemma LinkedUpdate(headers: map<nat, Header>, h: Heap, k: nat, b: Block)
    requires Tiled(h) && Linked(headers, h.blocks) && k < |h.blocks| && b.addr == h.blocks[k].addr
    ensures Linked(headers[b.addr := HeaderOf(h.blocks[k := b], k)], h.blocks[k := b])
  {
    forall j | 0 <= j < |h.blocks| && j != k ensures h.blocks[j].addr != b.addr {
      AddressesDiffer(h, j, k);
    }
  }

  lemma AddressesDiffer(h: Heap, j: nat, k: nat)
    requires Tiled(h) && j < |h.blocks| && k < |h.blocks| && j != k
    ensures h.blocks[j].addr != h.blocks[k].addr
  {
    if j < k {
      Ordered(h, j, k);
    } else {
      Ordered(h, k, j);
    }
  }

  lemma NothingMapped(w: World, start: nat)
    ensures HeapMapped(w, start, 0)
  {
  }
}

/** The kernel heap as the list of blocks its headers describe: first fit, splitting, forward merging, growth by pages. */
module HeapBlocks {
  import opened Words

  const HEADER: nat := 17          // sizeof(alloc_block_t): packed qword, byte, pointer
  const HEAP_PAGE: nat := 0x1000

  datatype Block = Block(addr: nat, size: nat, available: bool)

  /** `blocks` in list order from `heap_start`; `size` is the global heap_size. */
  datatype Heap = Heap(start: nat, size: nat, blocks: seq<Block>)

  predicate Meets(a: Block, b: Block) {
    a.addr + a.size == b.addr
  }

  function End(b: Block): nat {
    b.addr + b.size
  }

  /** In list order the blocks start at heap_start, each ends where the next begins, each has room for its
      header, and the last ends at heap_start + heap_size. */
  ghost predicate Tiled(h: Heap) {
    && |h.blocks| > 0 && h.start > 0 && h.blocks[0].addr == h.start
    && (forall k :: 0 <= k < |h.blocks| ==> h.blocks[k].size >= HEADER)
    && (forall k :: 0 <= k < |h.blocks| - 1 ==> Meets(h.blocks[k], h.blocks[k + 1]))
    && End(h.blocks[|h.blocks| - 1]) == h.start + h.size
  }

  function Total(bs: seq<Block>): nat {
    if bs == [] then 0 else bs[0].size + Total(bs[1..])
  }

  /** Tiling means address order, disjointness, containment, and sizes that add up to heap_size. */
  lemma {:induction false} Ordered(h: Heap, i: nat, j: nat)
    requires Tiled(h) && i < j < |h.blocks|
    ensures End(h.blocks[i]) <= h.blocks[j].addr
    decreases j - i
  {
    assert Meets(h.blocks[j - 1], h.blocks[j]);
    if i < j - 1 {
      Ordered(h, i, j - 1);
    }
  }

  lemma Inside(h: Heap, k: nat)
    requires Tiled(h) && k < |h.blocks|
    ensures h.start <= h.blocks[k].addr && End(h.blocks[k]) <= h.start + h.size
  {
    if k > 0 {
      Ordered(h, 0, k);
    }
    if k < |h.blocks| - 1 {
      Ordered(h, k, |h.blocks| - 1);
    }
  }

  lemma {:induction false} TotalFrom(h: Heap, k: nat)
    requires Tiled(h) && k < |h.blocks|
    ensures h.blocks[k].addr + Total(h.blocks[k..]) == h.start + h.size
    decreases |h.blocks| - k
  {
    if k < |h.blocks| - 1 {
      TotalFrom(h, k + 1);
      assert Meets(h.blocks[k], h.blocks[k + 1]);
      assert h.blocks[k..][1..] == h.blocks[k + 1..];
    } else {
      assert h.blocks[k..][1..] == [];
    }
  }

  lemma SizesAddUp(h: Heap)
    requires Tiled(h)
    ensures Total(h.blocks) == h.size
  {
    TotalFrom(h, 0);
    assert h.blocks[0..] == h.blocks;
  }

  // ---------------------------------------------------------------- new_alloc

  predicate Fits(b: Block, need: nat) {
    b.available && b.size >= need
  }

  /** The first available block with room, or the length of the list. */
  function FirstFit(bs: seq<Block>, need: nat): (k: nat)
    ensures k <= |bs|
    ensures forall j :: 0 <= j < k ==> !Fits(bs[j], need)
    ensures k < |bs| ==> Fits(bs[k], need)
  {
    if bs == [] || Fits(bs[0], need) then 0
    else
      var k := FirstFit(bs[1..], need);
      assert forall j :: 1 <= j < 1 + k ==> bs[j] == bs[1..][j - 1];
      1 + k
  }

  /** `new_alloc` computes the split in 32-bit words. */
  function SizeBlock(need: nat): nat {
    need % DWORD_LIMIT
  }

  function Remain(b: Block, need: nat): nat
    requires b.size >= need
  {
    (b.size - SizeBlock(need)) % DWORD_LIMIT
  }

  /** The growth test of the split: only the new block's start plus the *requested* size is compared with the heap's end. */
  predicate SplitGrows(h: Heap, b: Block, need: nat) {
    h.start + h.size < b.addr + SizeBlock(need) + SizeBlock(need)
  }

  predicate Splits(b: Block, need: nat)
    requires b.size >= need
  {
    b.size > need && Remain(b, need) >= HEADER
  }

  /** Hand out block k: whole if nothing worth a header remains, otherwise split, perhaps growing the heap first. */
  function Carve(h: Heap, k: nat, need: nat): Heap
    requires k < |h.blocks| && h.blocks[k].size >= need
  {
    var b := h.blocks[k];
    if !Splits(b, need) then h.(blocks := h.blocks[k := b.(available := false)])
    else
      var grows := SplitGrows(h, b, need);
      var size := if grows then h.size + HEAP_PAGE else h.size;
      var new_addr := b.addr + SizeBlock(need);
      var remain := if grows && h.start + size >= new_addr then (h.start + size - new_addr) % DWORD_LIMIT else Remain(b, need);
      Heap(h.start, size,
           h.blocks[..k] + [Block(b.addr, SizeBlock(need), false), Block(new_addr, remain, true)] + h.blocks[k + 1..])
  }

  /** The split that overlaps: the heap grows although the block being split is not the last one. */
  predicate OverlappingSplit(h: Heap, k: nat, need: nat)
    requires k < |h.blocks| && h.blocks[k].size >= need
  {
    Splits(h.blocks[k], need) && SplitGrows(h, h.blocks[k], need) && k < |h.blocks| - 1
  }

  /** Line 93-96: the last block and the heap grow by a page, whether or not the last block is available. */
  function GrowTail(h: Heap): Heap
    requires |h.blocks| > 0
  {
    var n := |h.blocks| - 1;
    Heap(h.start, h.size + HEAP_PAGE, h.blocks[n := h.blocks[n].(size := h.blocks[n].size + HEAP_PAGE)])
  }

  function Tail(h: Heap): Block
    requires |h.blocks| > 0
  {
    h.blocks[|h.blocks| - 1]
  }

  /** The request can be met: some block fits, or the last block is available and will grow until it does. */
  predicate Satisfiable(h: Heap, need: nat) {
    |h.blocks| > 0 && (FirstFit(h.blocks, need) < |h.blocks| || Tail(h).available)
  }

  /** The heap after the retries: the tail grown until something fits. */
  function Grown(h: Heap, need: nat): (g: Heap)
    requires Satisfiable(h, need)
    ensures |g.blocks| == |h.blocks| && FirstFit(g.blocks, need) < |g.blocks|
    decreases if FirstFit(h.blocks, need) < |h.blocks| then 0 else need - Tail(h).size
  {
    if FirstFit(h.blocks, need) < |h.blocks| then h
    else
      assert !Fits(Tail(h), need);
      Grown(GrowTail(h), need)
  }

  /** `new_alloc(size)` for size > 0: the heap afterwards. */
  function NewAlloc(h: Heap, size: nat): Heap
    requires Satisfiable(h, size + HEADER)
  {
    var g := Grown(h, size + HEADER);
    Carve(g, FirstFit(g.blocks, size + HEADER), size + HEADER)
  }

  /** The pointer `new_alloc(size)` returns. */
  function AllocPtr(h: Heap, size: nat): nat
    requires Satisfiable(h, size + HEADER)
  {
    var g := Grown(h, size + HEADER);
    g.blocks[FirstFit(g.blocks, size + HEADER)].addr + HEADER
  }

  /** No overlapping split happens while serving the request. */
  predicate SafeRequest(h: Heap, size: nat)
    requires Satisfiable(h, size + HEADER)
  {
    var g := Grown(h, size + HEADER);
    !OverlappingSplit(g, FirstFit(g.blocks, size + HEADER), size + HEADER)
  }

  // ---------------------------------------------------------------- tiling

  lemma GrowTailTiled(h: Heap)
    requires Tiled(h)
    ensures Tiled(GrowTail(h))
  {
    var g := GrowTail(h);
    forall k | 0 <= k < |g.blocks| - 1 ensures Meets(g.blocks[k], g.blocks[k + 1]) {
      assert Meets(h.blocks[k], h.blocks[k + 1]);
    }
  }

  lemma {:induction false} GrownTiled(h: Heap, need: nat)
    requires Tiled(h) && Satisfiable(h, need)
    ensures Tiled(Grown(h, need)) && Grown(h, need).start == h.start
    decreases if FirstFit(h.blocks, need) < |h.blocks| then 0 else need - Tail(h).size
  {
    if FirstFit(h.blocks, need) >= |h.blocks| {
      assert !Fits(Tail(h), need);
      GrowTailTiled(h);
      GrownTiled(GrowTail(h), need);
    }
  }

  /** A split of a block that is not last and does not grow the heap, or of the last block, keeps the tiling. */
  lemma CarveTiled(h: Heap, k: nat, need: nat)
    requires Tiled(h) && k < |h.blocks| && h.blocks[k].size >= need >= HEADER
    requires h.size + HEAP_PAGE < DWORD_LIMIT && !OverlappingSplit(h, k, need)
    ensures Tiled(Carve(h, k, need))
  {
    hide SplitGrows, SizeBlock, Remain;
    Inside(h, k);
    if Splits(h.blocks[k], need) {
      hide Carve;
      CarveBlocks(h, k, need);
      SplitMeets(h, k, need, Carve(h, k, need));
    } else {
      TakenWhole(h, k, need);
    }
  }

  /** Two blocks in place of one keep the tiling when the second ends where the next block begins. */
  lemma SplitMeets(h: Heap, k: nat, need: nat, c: Heap)
    requires Tiled(h) && k < |h.blocks| && need >= HEADER && c.start == h.start && |c.blocks| == |h.blocks| + 1
    requires (forall j :: 0 <= j < k ==> c.blocks[j] == h.blocks[j]) && c.blocks[k] == Block(h.blocks[k].addr, need, false)
    requires c.blocks[k + 1].addr == h.blocks[k].addr + need && c.blocks[k + 1].size >= HEADER
    requires End(c.blocks[k + 1]) == if k == |h.blocks| - 1 then c.start + c.size else End(h.blocks[k])
    requires k < |h.blocks| - 1 ==> c.size == h.size
    requires forall j :: k + 1 < j < |c.blocks| ==> c.blocks[j] == h.blocks[j - 1]
    ensures Tiled(c)
  {
    forall j | 0 <= j < |c.blocks| - 1 ensures Meets(c.blocks[j], c.blocks[j + 1]) {
      if j < k {
        assert Meets(h.blocks[j], h.blocks[j + 1]);
      } else if j > k {
        assert Meets(h.blocks[j - 1], h.blocks[j]);
      }
    }
  }

  lemma TakenWhole(h: Heap, k: nat, need: nat)
    requires Tiled(h) && k < |h.blocks| && h.blocks[k].size >= need && !Splits(h.blocks[k], need)
    ensures Tiled(Carve(h, k, need))
  {
    var c := Carve(h, k, need);
    forall j | 0 <= j < |c.blocks| - 1 ensures Meets(c.blocks[j], c.blocks[j + 1]) {
      assert Meets(h.blocks[j], h.blocks[j + 1]);
    }
  }

  /** The blocks of a split, and its sizes free of 32-bit truncation. */
  lemma CarveBlocks(h: Heap, k: nat, need: nat)
    requires Tiled(h) && k < |h.blocks| && h.blocks[k].size >= need >= HEADER
    requires h.size + HEAP_PAGE < DWORD_LIMIT && Splits(h.blocks[k], need)
    ensures var b, c := h.blocks[k], Carve(h, k, need);
      && SizeBlock(need) == need && Remain(b, need) == b.size - need
      && |c.blocks| == |h.blocks| + 1
      && (forall j :: 0 <= j < k ==> c.blocks[j] == h.blocks[j])
      && c.blocks[k] == Block(b.addr, need, false)
      && c.blocks[k + 1].addr == b.addr + need && c.blocks[k + 1].available && c.blocks[k + 1].size >= HEADER
      && End(c.blocks[k + 1]) == (if SplitGrows(h, b, need) then h.start + c.size else End(b))
      && (forall j :: k + 1 < j < |c.blocks| ==> c.blocks[j] == h.blocks[j - 1])
      && c.size == (if SplitGrows(h, b, need) then h.size + HEAP_PAGE else h.size)
  {
    Inside(h, k);
  }

  /** An overlapping split in numbers: room for another header remains, the block is not the last, and twice the
      requested size from its start passes the heap's end. */
  lemma OverlapsExactly(h: Heap, k: nat, need: nat)
    requires Tiled(h) && k < |h.blocks| && h.blocks[k].size >= need >= HEADER && h.size + HEAP_PAGE < DWORD_LIMIT
    ensures OverlappingSplit(h, k, need) <==>
      h.blocks[k].size >= need + 17 && k < |h.blocks| - 1 && h.start + h.size < h.blocks[k].addr + 2 * need
  {
    Inside(h, k);
  }

  /** Handing out a block keeps the tiling exactly when it makes no overlapping split. */
  lemma CarveTiledIff(h: Heap, k: nat, need: nat)
    requires Tiled(h) && k < |h.blocks| && h.blocks[k].size >= need >= HEADER && h.size + HEAP_PAGE < DWORD_LIMIT
    ensures Tiled(Carve(h, k, need)) <==>
      !(h.blocks[k].size >= need + 17 && k < |h.blocks| - 1 && h.start + h.size < h.blocks[k].addr + 2 * need)
  {
    OverlapsExactly(h, k, need);
    if OverlappingSplit(h, k, need) {
      CarveBlocks(h, k, need);
      Inside(h, k + 1);
      var c := Carve(h, k, need);
      assert !Meets(c.blocks[k + 1], c.blocks[k + 2]);
    } else {
      CarveTiled(h, k, need);
    }
  }

  lemma {:induction false} GrownSize(h: Heap, need: nat)
    requires Tiled(h) && Satisfiable(h, need)
    ensures Grown(h, need).size == h.size + HEAP_PAGE * Retries(h, need)
    decreases if FirstFit(h.blocks, need) < |h.blocks| then 0 else need - Tail(h).size
  {
    if FirstFit(h.blocks, need) >= |h.blocks| {
      assert !Fits(Tail(h), need);
      GrowTailTiled(h);
      GrowTailNoFit(h, need);
      GrownSize(GrowTail(h), need);
      RetriesStep(h, need);
    }
  }

  /** How many tail extensions the retries take: the missing bytes in whole pages. */
  function Retries(h: Heap, need: nat): nat
    requires |h.blocks| > 0
  {
    if FirstFit(h.blocks, need) < |h.blocks| || Tail(h).size >= need then 0
    else (need - Tail(h).size + HEAP_PAGE - 1) / HEAP_PAGE
  }

  lemma GrowTailNoFit(h: Heap, need: nat)
    requires |h.blocks| > 0 && FirstFit(h.blocks, need) == |h.blocks|
    ensures FirstFit(GrowTail(h).blocks, need) >= |h.blocks| - 1
    ensures FirstFit(GrowTail(h).blocks, need) < |h.blocks| <==> Tail(h).available && Tail(h).size + HEAP_PAGE >= need
  {
    var g, n := GrowTail(h), |h.blocks| - 1;
    assert forall j :: 0 <= j < n ==> g.blocks[j] == h.blocks[j];
    assert g.blocks[|h.blocks| - 1].available == Tail(h).available;
  }

  lemma RetriesStep(h: Heap, need: nat)
    requires |h.blocks| > 0 && FirstFit(h.blocks, need) == |h.blocks| && Tail(h).available
    ensures Retries(h, need) == 1 + Retries(GrowTail(h), need)
  {
    assert !Fits(Tail(h), need);
    GrowTailNoFit(h, need);
    var m := need - Tail(h).size;
    if m > HEAP_PAGE {
      assert (m + HEAP_PAGE - 1) / HEAP_PAGE == 1 + (m - HEAP_PAGE + HEAP_PAGE - 1) / HEAP_PAGE;
    } else {
      assert (m + HEAP_PAGE - 1) / HEAP_PAGE == 1;
    }
  }

  /** When nothing fits and the last block is available, `new_alloc` extends it by exactly the missing pages and
      then hands out that block. */
  lemma {:induction false} RetrySucceedsAtTail(h: Heap, need: nat)
    requires |h.blocks| > 0 && FirstFit(h.blocks, need) == |h.blocks| && Tail(h).available
    ensures var g := Grown(h, need);
      && FirstFit(g.blocks, need) == |h.blocks| - 1
      && g.blocks == h.blocks[|h.blocks| - 1 := Tail(h).(size := Tail(h).size + HEAP_PAGE * Retries(h, need))]
      && g.size == h.size + HEAP_PAGE * Retries(h, need) && g.start == h.start
    decreases need - Tail(h).size
  {
    assert !Fits(Tail(h), need);
    GrowTailNoFit(h, need);
    RetriesStep(h, need);
    if FirstFit(GrowTail(h).blocks, need) == |h.blocks| {
      RetrySucceedsAtTail(GrowTail(h), need);
    }
  }

  /** When some block fits nothing grows before the split, and the block is the first that fits, in address order. */
  lemma FirstFitServed(h: Heap, need: nat, j: nat)
    requires Tiled(h) && FirstFit(h.blocks, need) < |h.blocks| && j < |h.blocks| && Fits(h.blocks[j], need)
    ensures Grown(h, need) == h && Retries(h, need) == 0
    ensures h.blocks[FirstFit(h.blocks, need)].addr <= h.blocks[j].addr
  {
    var k := FirstFit(h.blocks, need);
    if k < j {
      Ordered(h, k, j);
    }
  }

  /** When nothing fits and the last block is taken, the heap after any number of extensions is in the same
      position: the recursion never returns. */
  lemma {:induction false} StuckForever(h: Heap, need: nat, n: nat)
    requires |h.blocks| > 0 && FirstFit(h.blocks, need) == |h.blocks| && !Tail(h).available
    ensures |Extended(h, n).blocks| == |h.blocks|
    ensures FirstFit(Extended(h, n).blocks, need) == |h.blocks| && !Tail(Extended(h, n)).available
  {
    if n > 0 {
      StuckForever(h, need, n - 1);
      GrowTailNoFit(Extended(h, n - 1), need);
    }
  }

  function Extended(h: Heap, n: nat): (g: Heap)
    requires |h.blocks| > 0
    ensures |g.blocks| == |h.blocks|
  {
    if n == 0 then h else GrowTail(Extended(h, n - 1))
  }

  lemma {:induction false} ExtendedTail(h: Heap, n: nat)
    requires |h.blocks| > 0
    ensures Tail(Extended(h, n)) == Tail(h).(size := Tail(h).size + n * HEAP_PAGE)
  {
    if n > 0 {
      ExtendedTail(h, n - 1);
    }
  }

  /** Extending the tail makes something fit sooner or later exactly when something fits already or the tail is
      available: the test a caller can make decides whether `new_alloc` returns. */
  lemma ServedEventuallyIff(h: Heap, need: nat)
    requires |h.blocks| > 0
    ensures (exists n: nat :: FirstFit(Extended(h, n).blocks, need) < |h.blocks|) <==> Satisfiable(h, need)
  {
    if Satisfiable(h, need) {
      if FirstFit(h.blocks, need) < |h.blocks| {
        assert Extended(h, 0) == h;
      } else {
        ExtendedTail(h, need);
        assert Fits(Tail(Extended(h, need)), need);
        assert FirstFit(Extended(h, need).blocks, need) < |h.blocks|;
      }
    } else {
      forall n: nat ensures FirstFit(Extended(h, n).blocks, need) == |h.blocks| {
        StuckForever(h, need, n);
      }
    }
  }

  // ---------------------------------------------------------------- free_alloc

  /** `free_alloc` of block k: available again, and merged with its successor if that is available.
      The predecessor is never merged. */
  function Free(h: Heap, k: nat): Heap
    requires k < |h.blocks|
  {
    var b := h.blocks[k];
    if k + 1 < |h.blocks| && h.blocks[k + 1].available then
      h.(blocks := h.blocks[..k] + [Block(b.addr, b.size + h.blocks[k + 1].size, true)] + h.blocks[k + 2..])
    else
      h.(blocks := h.blocks[k := b.(available := true)])
  }

  lemma FreeTiled(h: Heap, k: nat)
    requires Tiled(h) && k < |h.blocks|
    ensures Tiled(Free(h, k)) && Free(h, k).start == h.start && Free(h, k).size == h.size
  {
    var c := Free(h, k);
    if k + 1 < |h.blocks| && h.blocks[k + 1].available {
      assert Meets(h.blocks[k], h.blocks[k + 1]);
      forall j | 0 <= j < |c.blocks| - 1 ensures Meets(c.blocks[j], c.blocks[j + 1]) {
        if j < k {
          assert Meets(h.blocks[j], h.blocks[j + 1]);
        } else {
          assert Meets(h.blocks[j + 1], h.blocks[j + 2]);
        }
      }
    } else {
      forall j | 0 <= j < |c.blocks| - 1 ensures Meets(c.blocks[j], c.blocks[j + 1]) {
        assert Meets(h.blocks[j], h.blocks[j + 1]);
      }
    }
  }

  /** Where the freed bytes go: block k then reaches to the end of its successor if that was available, and to its own
      end otherwise; all other blocks keep their places. */
  lemma FreeMerges(h: Heap, k: nat)
    requires Tiled(h) && k < |h.blocks|
    ensures var f, bs := Free(h, k), h.blocks;
      var last := if k + 1 < |bs| && bs[k + 1].available then k + 1 else k;
      && |f.blocks| == |bs| - (last - k) && f.blocks[..k] == bs[..k] && f.blocks[k + 1..] == bs[last + 1..]
      && f.blocks[k].available && f.blocks[k].addr == bs[k].addr
      && f.blocks[k].addr + f.blocks[k].size == bs[last].addr + bs[last].size
  {
    if k + 1 < |h.blocks| {
      assert Meets(h.blocks[k], h.blocks[k + 1]);
    }
  }

  /** Two neighbours in use, with nothing available behind them, become one block when the upper one is freed first, and
      stay two when the lower one is. */
  lemma FreeOrderMatters(h: Heap, k: nat)
    requires Tiled(h) && k + 1 < |h.blocks| && !h.blocks[k].available && !h.blocks[k + 1].available
    requires k + 2 < |h.blocks| ==> !h.blocks[k + 2].available
    ensures var b, c, down, up := h.blocks[k], h.blocks[k + 1], Free(Free(h, k + 1), k), Free(Free(h, k), k + 1);
      && down.blocks == h.blocks[..k] + [Block(b.addr, b.size + c.size, true)] + h.blocks[k + 2..]
      && up.blocks == h.blocks[..k] + [Block(b.addr, b.size, true), Block(c.addr, c.size, true)] + h.blocks[k + 2..]
  {
    var c := h.blocks[k + 1];
    var f := Free(h, k + 1);
    assert f.blocks == h.blocks[..k + 1] + [Block(c.addr, c.size, true)] + h.blocks[k + 2..];
    assert f.blocks[k] == h.blocks[k] && f.blocks[k + 1] == Block(c.addr, c.size, true) && f.blocks[k + 2..] == h.blocks[k + 2..];
    assert f.blocks[..k] == h.blocks[..k];
  }

  // ---------------------------------------------------------------- live blocks

  /** A block that has been handed out and not freed. */
  predicate InUse(h: Heap, b: Block) {
    b in h.blocks && !b.available
  }

  /** A block in use after carving was in use before, or is the one just handed out; and every block in use before still is. */
  lemma CarveInUse(h: Heap, k: nat, need: nat, b: Block)
    requires Tiled(h) && k < |h.blocks| && Fits(h.blocks[k], need) && need >= HEADER && h.size + HEAP_PAGE < DWORD_LIMIT
    ensures var c := Carve(h, k, need);
      InUse(c, b) <==> InUse(h, b) || b == c.blocks[k]
    ensures var c := Carve(h, k, need);
      c.blocks[k].addr == h.blocks[k].addr && c.blocks[k].size >= need && !c.blocks[k].available
  {
    var c, a := Carve(h, k, need), h.blocks[k];
    if Splits(a, need) {
      CarveBlocks(h, k, need);
      if b in h.blocks && b != a {
        var j :| 0 <= j < |h.blocks| && h.blocks[j] == b;
        assert b == if j < k then c.blocks[j] else c.blocks[j + 1];
      }
    } else {
      if b in h.blocks && b != a {
        var j :| 0 <= j < |h.blocks| && h.blocks[j] == b;
        assert c.blocks[j] == b;
      }
    }
  }

  lemma {:induction false} GrownInUse(h: Heap, need: nat, b: Block)
    requires Satisfiable(h, need)
    ensures InUse(Grown(h, need), b) <==> InUse(h, b)
    decreases if FirstFit(h.blocks, need) < |h.blocks| then 0 else need - Tail(h).size
  {
    if FirstFit(h.blocks, need) >= |h.blocks| {
      assert !Fits(Tail(h), need);
      GrowTailInUse(h, b);
      GrownInUse(GrowTail(h), need, b);
    }
  }

  lemma GrowTailInUse(h: Heap, b: Block)
    requires |h.blocks| > 0 && Tail(h).available
    ensures InUse(GrowTail(h), b) <==> InUse(h, b)
  {
    var g, n := GrowTail(h), |h.blocks| - 1;
    assert forall j :: 0 <= j < n ==> g.blocks[j] == h.blocks[j];
    if InUse(h, b) {
      var j :| 0 <= j < |h.blocks| && h.blocks[j] == b;
      assert g.blocks[j] == b;
    }
  }

  /** The block at its place in the list after `new_alloc(size)`. */
  function AllocBlock(h: Heap, size: nat): Block
    requires Satisfiable(h, size + HEADER)
  {
    NewAlloc(h, size).blocks[FirstFit(Grown(h, size + HEADER).blocks, size + HEADER)]
  }

  /** The pointer `new_alloc` returns heads a block with at least the requested bytes; that block was not in use
      before; and no block that was in use has moved or changed size. */
  lemma NewAllocInUse(h: Heap, size: nat, b: Block)
    requires Tiled(h) && Satisfiable(h, size + HEADER) && Grown(h, size + HEADER).size + HEAP_PAGE < DWORD_LIMIT
    ensures var a := AllocBlock(h, size);
      && a.addr + HEADER == AllocPtr(h, size) && a.size >= size + HEADER && !a.available && !InUse(h, a)
      && (InUse(NewAlloc(h, size), b) <==> InUse(h, b) || b == a)
  {
    var need := size + HEADER;
    var g := Grown(h, need);
    var k := FirstFit(g.blocks, need);
    GrownTiled(h, need);
    GrownInUse(h, need, b);
    CarveInUse(g, k, need, b);
    var a := Carve(g, k, need).blocks[k];
    GrownInUse(h, need, a);
    if InUse(g, a) {
      var j :| 0 <= j < |g.blocks| && g.blocks[j] == a;
      assert j != k;
      if j < k {
        Ordered(g, j, k);
      } else {
        Ordered(g, k, j);
      }
    }
  }

  /** Freeing block k leaves exactly the other blocks in use. */
  lemma FreeInUse(h: Heap, k: nat, b: Block)
    requires Tiled(h) && k < |h.blocks|
    ensures InUse(Free(h, k), b) <==> InUse(h, b) && b != h.blocks[k]
  {
    var c := Free(h, k);
    if b in h.blocks && b != h.blocks[k] && !b.available {
      var j :| 0 <= j < |h.blocks| && h.blocks[j] == b;
      if k + 1 < |h.blocks| && h.blocks[k + 1].available {
        assert c.blocks[if j < k then j else j - 1] == b;
      } else {
        assert c.blocks[j] == b;
      }
    }
    if b in c.blocks && !b.available && b == h.blocks[k] {
      var j :| 0 <= j < |c.blocks| && c.blocks[j] == b;
      FreeTiled(h, k);
      assert c.blocks[k].addr == b.addr && c.blocks[k].available;
      if j < k {
        Ordered(c, j, k);
      } else {
        Ordered(c, k, j);
      }
    }
  }

  /** Payloads of two blocks in use are disjoint and lie inside the heap. */
  lemma PayloadsApart(h: Heap, a: Block, b: Block)
    requires Tiled(h) && InUse(h, a) && InUse(h, b) && a != b
    ensures a.addr + a.size <= b.addr || b.addr + b.size <= a.addr
    ensures h.start + HEADER <= a.addr + HEADER <= a.addr + a.size <= h.start + h.size
  {
    var i :| 0 <= i < |h.blocks| && h.blocks[i] == a;
    var j :| 0 <= j < |h.blocks| && h.blocks[j] == b;
    Inside(h, i);
    if i < j {
      Ordered(h, i, j);
    } else {
      Ordered(h, j, i);
    }
  }

  // ---------------------------------------------------------------- runs

  datatype HeapOp = Allocate(size: nat) | Release(k: nat)

  function InitHeap(start: nat): Heap {
    Heap(start, HEAP_PAGE, [Block(start, HEAP_PAGE, true)])
  }

  /** A call that returns: a request that can be met, or the release of a listed block. `new_alloc(0)` is NULL. */
  predicate Returns(h: Heap, op: HeapOp) {
    match op
    case Allocate(size) => size == 0 || Satisfiable(h, size + HEADER)
    case Release(k) => k < |h.blocks|
  }

  function Call(h: Heap, op: HeapOp): Heap
    requires Returns(h, op)
  {
    match op
    case Allocate(size) => if size == 0 then h else NewAlloc(h, size)
    case Release(k) => Free(h, k)
  }

  /** The side condition under which a call keeps the tiling: sizes within 32 bits, no overlapping split. */
  predicate Safe(h: Heap, op: HeapOp)
    requires Returns(h, op)
  {
    op.Allocate? && op.size > 0 ==>
      Grown(h, op.size + HEADER).size + HEAP_PAGE < DWORD_LIMIT && SafeRequest(h, op.size)
  }

  /** Every call of the sequence returns and is safe when its turn comes. */
  predicate AllSafe(h: Heap, ops: seq<HeapOp>)
    decreases |ops|
  {
    ops == [] || (Returns(h, ops[0]) && Safe(h, ops[0]) && AllSafe(Call(h, ops[0]), ops[1..]))
  }

  function After(h: Heap, ops: seq<HeapOp>): Heap
    requires AllSafe(h, ops)
    decreases |ops|
  {
    if ops == [] then h else After(Call(h, ops[0]), ops[1..])
  }

  lemma CallTiled(h: Heap, op: HeapOp)
    requires Tiled(h) && Returns(h, op) && Safe(h, op)
    ensures Tiled(Call(h, op)) && Call(h, op).start == h.start
  {
    match op
    case Allocate(size) =>
      if size > 0 {
        var g := Grown(h, size + HEADER);
        GrownTiled(h, size + HEADER);
        CarveTiled(g, FirstFit(g.blocks, size + HEADER), size + HEADER);
      }
    case Release(k) => FreeTiled(h, k);
  }

  /** After any sequence of safe calls from `init_alloc` the blocks tile the heap. */
  lemma {:induction false} CallsKeepTiling(h: Heap, ops: seq<HeapOp>)
    requires Tiled(h) && AllSafe(h, ops)
    ensures Tiled(After(h, ops)) && After(h, ops).start == h.start
    decreases |ops|
  {
    hide Tiled, Call, Safe, Returns;
    if ops != [] {
      CallTiled(h, ops[0]);
      CallsKeepTiling(Call(h, ops[0]), ops[1..]);
    }
  }

  lemma InitTiled(start: nat)
    requires start > 0
    ensures Tiled(InitHeap(start))
  {
  }

  /** From a tiled heap within 32 bits, a request keeps the tiling exactly when it makes no overlapping split. */
  lemma AllocTiledIff(h: Heap, size: nat)
    requires Tiled(h) && Satisfiable(h, size + HEADER) && Grown(h, size + HEADER).size + HEAP_PAGE < DWORD_LIMIT
    ensures Tiled(NewAlloc(h, size)) <==> SafeRequest(h, size)
    ensures var g, need := Grown(h, size + HEADER), size + 17;
      var k := FirstFit(g.blocks, need);
      SafeRequest(h, size) <==>
        !(g.blocks[k].size >= need + 17 && k < |g.blocks| - 1 && g.start + g.size < g.blocks[k].addr + 2 * need)
  {
    var g, need := Grown(h, size + HEADER), size + HEADER;
    GrownTiled(h, need);
    CarveTiledIff(g, FirstFit(g.blocks, need), need);
    OverlapsExactly(g, FirstFit(g.blocks, need), need);
  }

  // ---------------------------------------------------------------- what a request leaves, in numbers

  /** The heap after the retries: as it was if some available block has `need` bytes; otherwise its last block and its
      size have grown by the missing bytes in whole pages. */
  lemma GrownExactly(h: Heap, need: nat)
    requires |h.blocks| > 0 && Satisfiable(h, need)
    ensures var g := Grown(h, need);
      if exists j :: 0 <= j < |h.blocks| && h.blocks[j].available && h.blocks[j].size >= need then g == h
      else
        var n := |h.blocks| - 1;
        var more := (need - h.blocks[n].size + 0xFFF) / 0x1000 * 0x1000;
        && h.blocks[n].available && h.blocks[n].size < need
        && g == Heap(h.start, h.size + more, h.blocks[n := Block(h.blocks[n].addr, h.blocks[n].size + more, true)])
  {
    if FirstFit(h.blocks, need) == |h.blocks| {
      assert forall j :: 0 <= j < |h.blocks| ==> !Fits(h.blocks[j], need);
      RetrySucceedsAtTail(h, need);
    } else {
      assert Fits(h.blocks[FirstFit(h.blocks, need)], need);
    }
  }

  /** `new_alloc(size)` in numbers. With `b` the first available block of `size + 17` bytes after the retries: if fewer
      than 17 bytes would remain it is handed out whole. Otherwise it is cut, and the heap grows by one page exactly when
      twice the requested size from its start passes the heap's end; the rest then reaches to the new end. */
  lemma NewAllocExactly(h: Heap, size: nat)
    requires Tiled(h) && Satisfiable(h, size + HEADER) && Grown(h, size + HEADER).size + HEAP_PAGE < DWORD_LIMIT
    ensures var need, g, n := size + 17, Grown(h, size + 17), NewAlloc(h, size);
      exists k :: 0 <= k < |g.blocks|
        && g.blocks[k].available && g.blocks[k].size >= need
        && (forall j :: 0 <= j < k ==> !(g.blocks[j].available && g.blocks[j].size >= need))
        && AllocPtr(h, size) == g.blocks[k].addr + 17
        && n == CutExactly(g, k, need)
  {
    hide Tiled, Satisfiable, Carve, Grown;
    var g, need := Grown(h, size + HEADER), size + HEADER;
    GrownTiled(h, need);
    var k := FirstFit(g.blocks, need);
    assert Fits(g.blocks[k], need);
    CarveExactly(g, k, need);
  }

  /** Block `k` cut or handed out whole, without 32-bit words. */
  function CutExactly(g: Heap, k: nat, need: nat): Heap
    requires k < |g.blocks| && g.blocks[k].size >= need
  {
    var b := g.blocks[k];
    if b.size < need + 17 then Heap(g.start, g.size, g.blocks[k := Block(b.addr, b.size, false)])
    else if g.start + g.size < b.addr + 2 * need then
      var end := g.start + g.size + 0x1000;
      Heap(g.start, g.size + 0x1000,
           g.blocks[..k] + [Block(b.addr, need, false), Block(b.addr + need, if end >= b.addr + need then end - (b.addr + need) else 0, true)]
           + g.blocks[k + 1..])
    else
      Heap(g.start, g.size,
           g.blocks[..k] + [Block(b.addr, need, false), Block(b.addr + need, b.size - need, true)] + g.blocks[k + 1..])
  }

  lemma CarveExactly(g: Heap, k: nat, need: nat)
    requires Tiled(g) && k < |g.blocks| && g.blocks[k].size >= need >= HEADER && g.size + HEAP_PAGE < DWORD_LIMIT
    ensures Carve(g, k, need) == CutExactly(g, k, need)
  {
    hide Tiled, SizeBlock, Remain;
    NoTruncation(g, k, need);
  }

  /** None of the 32-bit words of the split truncates. */
  lemma NoTruncation(g: Heap, k: nat, need: nat)
    requires Tiled(g) && k < |g.blocks| && g.blocks[k].size >= need >= HEADER && g.size + HEAP_PAGE < DWORD_LIMIT
    ensures SizeBlock(need) == need && Remain(g.blocks[k], need) == g.blocks[k].size - need
    ensures g.start <= g.blocks[k].addr && g.blocks[k].addr + g.blocks[k].size <= g.start + g.size
    ensures var rest := g.start + g.size + HEAP_PAGE - (g.blocks[k].addr + need); rest >= 0 && rest % DWORD_LIMIT == rest
  {
    hide Tiled;
    Inside(g, k);
  }

  /** The first descriptor of a task, 48 bytes, from a fresh heap: one page is enough, and stays so. */
  lemma FirstRequest(start: nat)
    requires start > 0
    ensures NewAlloc(InitHeap(start), 48) == Heap(start, 0x1000, [Block(start, 65, false), Block(start + 65, 0x1000 - 65, true)])
    ensures AllocPtr(InitHeap(start), 48) == start + 17
  {
    FirstIs(InitHeap(start).blocks, 65, 0);
  }

  /** One allocation of a whole page's block reaches a heap where no further request is ever served. */
  lemma StuckIsReachable(start: nat, size: nat, n: nat)
    requires start > 0 && size > 0
    ensures var ops := [Allocate(HEAP_PAGE - HEADER)];
      && AllSafe(InitHeap(start), ops)
      && var h := After(InitHeap(start), ops);
         && h == Heap(start, HEAP_PAGE, [Block(start, HEAP_PAGE, false)])
         && !Satisfiable(h, size + HEADER) && FirstFit(Extended(h, n).blocks, size + HEADER) == |h.blocks|
  {
    hide Call, Returns, Safe, AllSafe, Satisfiable, FirstFit;
    var op := Allocate(HEAP_PAGE - HEADER);
    var g := Heap(start, HEAP_PAGE, [Block(start, HEAP_PAGE, false)]);
    WholePageTaken(start);
    Nothing(g);
    OneMore(InitHeap(start), op, g, []);
    assert [op] + [] == [op];
    AllTaken(start, size + HEADER);
    StuckForever(g, size + HEADER, n);
  }

  lemma WholePageTaken(start: nat)
    requires start > 0
    ensures Takes(InitHeap(start), Allocate(HEAP_PAGE - HEADER), Heap(start, HEAP_PAGE, [Block(start, HEAP_PAGE, false)]))
  {
    FirstIs(InitHeap(start).blocks, HEAP_PAGE, 0);
  }

  lemma AllTaken(start: nat, need: nat)
    ensures var g := Heap(start, HEAP_PAGE, [Block(start, HEAP_PAGE, false)]);
      !Satisfiable(g, need) && FirstFit(g.blocks, need) == |g.blocks| && !Tail(g).available
  {
  }

  /** The condition can fail after ordinary calls: three allocations, two releases, and a request nearly as large
      as the merged first block. The block split off then runs over the block still in use behind it. */
  lemma OverlapIsReachable(start: nat)
    requires start > 0
    ensures AllSafe(InitHeap(start), OVERLAP_CALLS) && After(InitHeap(start), OVERLAP_CALLS) == OverlapHeap(start)
    ensures Satisfiable(OverlapHeap(start), 0x1EE0) && !SafeRequest(OverlapHeap(start), 0x1EE0 - HEADER)
    ensures var c := NewAlloc(OverlapHeap(start), 0x1EE0 - HEADER);
      !Tiled(c) && |c.blocks| == 3 && !c.blocks[2].available && c.blocks[1].addr < c.blocks[2].addr < End(c.blocks[1])
  {
    hide Call, Returns, Safe, AllSafe, NewAlloc, Tiled, SafeRequest, Satisfiable, OverlapStage;
    var c := OVERLAP_CALLS;
    OverlapCalls(start);
    Nothing(OverlapHeap(start));
    assert c[5..] == [] && [c[4]] + c[5..] == c[4..] && [c[3]] + c[4..] == c[3..];
    assert [c[2]] + c[3..] == c[2..] && [c[1]] + c[2..] == c[1..] && [c[0]] + c[1..] == c;
    OneMore(OverlapStage(start, 4), c[4], OverlapHeap(start), c[5..]);
    OneMore(OverlapStage(start, 3), c[3], OverlapStage(start, 4), c[4..]);
    OneMore(OverlapStage(start, 2), c[2], OverlapStage(start, 3), c[3..]);
    OneMore(OverlapStage(start, 1), c[1], OverlapStage(start, 2), c[2..]);
    OneMore(InitHeap(start), c[0], OverlapStage(start, 1), c[1..]);
    OverlapSplit(start);
  }

  const OVERLAP_CALLS: seq<HeapOp> :=
    [Allocate(0xF00 - HEADER), Allocate(0x1000 - HEADER), Allocate(0x1100 - HEADER), Release(1), Release(0)]

  function OverlapHeap(start: nat): Heap {
    Heap(start, 0x3000, [Block(start, 0x1F00, true), Block(start + 0x1F00, 0x1100, false)])
  }

  lemma Nothing(h: Heap)
    ensures AllSafe(h, []) && After(h, []) == h
  {
  }

  lemma OneMore(h: Heap, op: HeapOp, g: Heap, ops: seq<HeapOp>)
    requires Returns(h, op) && Safe(h, op) && Call(h, op) == g && AllSafe(g, ops)
    ensures AllSafe(h, [op] + ops) && After(h, [op] + ops) == After(g, ops)
  {
    assert ([op] + ops)[1..] == ops;
  }

  /** The heap after the first `n` calls. */
  function OverlapStage(start: nat, n: nat): Heap {
    if n == 1 then Heap(start, 0x2000, [Block(start, 0xF00, false), Block(start + 0xF00, 0x1100, true)])
    else
      Heap(start, 0x3000, [Block(start, 0xF00, false), Block(start + 0xF00, 0x1000, n == 4), Block(start + 0x1F00, 0x1100, n == 2)])
  }

  /** Call `op` takes `h` to `g`. */
  ghost predicate Takes(h: Heap, op: HeapOp, g: Heap) {
    Returns(h, op) && Safe(h, op) && Call(h, op) == g
  }

  /** Each call of the sequence, worked out. */
  lemma OverlapCalls(start: nat)
    requires start > 0
    ensures Takes(InitHeap(start), OVERLAP_CALLS[0], OverlapStage(start, 1))
    ensures Takes(OverlapStage(start, 1), OVERLAP_CALLS[1], OverlapStage(start, 2))
    ensures Takes(OverlapStage(start, 2), OVERLAP_CALLS[2], OverlapStage(start, 3))
    ensures Takes(OverlapStage(start, 3), OVERLAP_CALLS[3], OverlapStage(start, 4))
    ensures Takes(OverlapStage(start, 4), OVERLAP_CALLS[4], OverlapHeap(start))
  {
    hide Takes, OverlapStage, InitHeap, OverlapHeap;
    FirstSplit(start);
    SecondSplit(start);
    LastTaken(start);
    TwoReleases(start);
  }

  lemma FirstSplit(start: nat)
    requires start > 0
    ensures Takes(InitHeap(start), Allocate(0xF00 - HEADER), OverlapStage(start, 1))
  {
    FirstIs(InitHeap(start).blocks, 0xF00, 0);
  }

  lemma SecondSplit(start: nat)
    requires start > 0
    ensures Takes(OverlapStage(start, 1), Allocate(0x1000 - HEADER), OverlapStage(start, 2))
  {
    FirstIs(OverlapStage(start, 1).blocks, 0x1000, 1);
  }

  lemma LastTaken(start: nat)
    requires start > 0
    ensures Takes(OverlapStage(start, 2), Allocate(0x1100 - HEADER), OverlapStage(start, 3))
  {
    FirstIs(OverlapStage(start, 2).blocks, 0x1100, 2);
  }

  lemma TwoReleases(start: nat)
    requires start > 0
    ensures Takes(OverlapStage(start, 3), Release(1), OverlapStage(start, 4))
    ensures Takes(OverlapStage(start, 4), Release(0), OverlapHeap(start))
  {
  }

  lemma FirstIs(bs: seq<Block>, need: nat, k: nat)
    requires k < |bs| && Fits(bs[k], need) && forall j :: 0 <= j < k ==> !Fits(bs[j], need)
    ensures FirstFit(bs, need) == k
  {
  }

  lemma OverlapSplit(start: nat)
    requires start > 0
    ensures var h := OverlapHeap(start);
      && Satisfiable(h, 0x1EE0) && !SafeRequest(h, 0x1EE0 - HEADER)
      && var c := NewAlloc(h, 0x1EE0 - HEADER);
         !Tiled(c) && |c.blocks| == 3 && !c.blocks[2].available && c.blocks[1].addr < c.blocks[2].addr < End(c.blocks[1])
  {
    var h := OverlapHeap(start);
    FirstIs(h.blocks, 0x1EE0, 0);
    AllocTiledIff(h, 0x1EE0 - HEADER);
  }
}

/** Tasks together with what they own: a heap block for the descriptor and an identity-mapped stack page. */
module TaskSystem {
  import opened Words
  import opened PageTables
  import opened PageSteps
  import opened PageRanges
  import opened PageUndo
  import opened PageRuns
  import opened PageUse
  import opened PageManager
  import opened HeapBlocks
  import opened HeapManager
  import opened HeapRuns
  import T = TaskRing

  const TASK_SIZE: nat := 48       // sizeof(struct task_info_t): six packed words
  const STACK_FLAGS: nat := 3      // PAGE_PRESENT | PAGE_READWRITE

  /** The task list, the heap its descriptors come from, and the page tables its stacks are mapped in. */
  datatype Kernel = Kernel(ring: T.Ring, sys: Sys)

  /** The memory part of `task_create_impl`: a descriptor block, then a stack page. */
  function CreateMemory(s: Sys): Sys
    requires Satisfiable(s.heap, TASK_SIZE + HEADER)
  {
    var t := Step(s, HeapCall(Allocate(TASK_SIZE)));
    t.(world := Alloc4K(t.world, STACK_FLAGS))
  }

  /** The stack page `page_alloc4K` hands out after the descriptor has been allocated. */
  function NewStack(s: Sys): nat
    requires Satisfiable(s.heap, TASK_SIZE + HEADER)
  {
    FirstFree(Step(s, HeapCall(Allocate(TASK_SIZE))).world.used) * PAGE_SIZE
  }

  function CreateTask(k: Kernel): Kernel
    requires Satisfiable(k.sys.heap, TASK_SIZE + HEADER)
  {
    Kernel(T.Create(k.ring, AllocPtr(k.sys.heap, TASK_SIZE), NewStack(k.sys)), CreateMemory(k.sys))
  }

  /** The memory part of `task_remove`: unmap the stack page, free descriptor block `b`. */
  function ReapMemory(s: Sys, provider: nat, b: nat): Sys
    requires b < |s.heap.blocks|
  {
    Sys(Free(s.heap, b), UnmapPages(s.world, provider, 1))
  }

  /** The timer tick; `b` is the place in the block list of the current task's descriptor. */
  function TickTask(k: Kernel, b: nat): Kernel
    requires k.ring.cur < |k.ring.list| && b < |k.sys.heap.blocks|
  {
    var r := T.Tick(k.ring);
    if !T.Skips(r.time) && !k.ring.list[k.ring.cur].running then
      Kernel(r, ReapMemory(k.sys, k.ring.list[k.ring.cur].provider, b))
    else k.(ring := r)
  }

  // ---------------------------------------------------------------- ownership

  /** The page at `provider` is the identity mapping of a marked frame handed out by `page_alloc4K`. */
  ghost predicate OwnsStack(w: World, provider: nat) {
    && provider % PAGE_SIZE == 0 && provider / PAGE_SIZE in w.owner
    && w.owner[provider / PAGE_SIZE] == Leaf(Ident(provider / PAGE_SIZE))
  }

  /** A block in use whose payload is at `addr`. */
  ghost predicate OwnsBlock(h: Heap, addr: nat, b: nat) {
    b < |h.blocks| && !h.blocks[b].available && h.blocks[b].addr + HEADER == addr
  }

  ghost predicate HasBlock(h: Heap, addr: nat) {
    exists b: nat :: OwnsBlock(h, addr, b)
  }

  ghost predicate StacksOwned(k: Kernel) {
    && (forall i :: 0 < i < |k.ring.list| ==> OwnsStack(k.sys.world, k.ring.list[i].provider))
    && (forall i, j :: 0 < i < j < |k.ring.list| ==> k.ring.list[i].provider != k.ring.list[j].provider)
    && (forall i :: 0 < i < |k.ring.list| ==> HasBlock(k.sys.heap, k.ring.list[i].addr))
  }

  ghost predicate KernelInv(k: Kernel) {
    && T.Sound(k.ring) && SysInv(k.sys) && LowIsIdentity(k.sys.world) && HeapAbove(k.sys.heap)
    && k.ring.list[0].addr < k.sys.heap.start     // kernel_task is a kernel global
    && StacksOwned(k)
  }

  lemma KernelIsSound(k: Kernel)
    requires KernelInv(k)
    ensures T.Sound(k.ring)
  {
    hide T.Sound, SysInv, LowIsIdentity, HeapAbove, StacksOwned;
  }

  /** An owned stack page translates to itself, by a present entry, and its frame is marked. */
  lemma StackIsMapped(w: World, provider: nat)
    requires Inv(w) && OwnsStack(w, provider)
    ensures provider / PAGE_SIZE < FRAMES && w.used[provider / PAGE_SIZE]
    ensures PageOf(provider) == Ident(provider / PAGE_SIZE) && PageOf(provider) != WINDOW
    ensures Walk(w.ram, PageOf(provider)) == Some(provider / PAGE_SIZE) && Live(w, PageOf(provider))
  {
    hide Walk, PageOf, Inv;
    var f := provider / PAGE_SIZE;
    LiveWalk(w, Ident(f), f);
    assert provider == f * PAGE_SIZE;
    IdentIsPageOf(f);
  }

  // ---------------------------------------------------------------- create

  ghost predicate CanCreate(k: Kernel) {
    && Allowed(k.sys, HeapCall(Allocate(TASK_SIZE))) && k.ring.nextId + 1 < DWORD_LIMIT
    && HeapAbove(NewAlloc(k.sys.heap, TASK_SIZE))
    && var w := HeapWorld(k.sys, Allocate(TASK_SIZE));
       FreeCount(w.used) > Missing(w.ram, Ident(FirstFree(w.used)), 3)
  }

  /** The heap half: descriptors allocated earlier stay, and the world only grows. */
  lemma DescriptorAllocated(s: Sys)
    requires SysInv(s) && LowIsIdentity(s.world) && Allowed(s, HeapCall(Allocate(TASK_SIZE)))
    requires HeapAbove(NewAlloc(s.heap, TASK_SIZE))
    ensures var t := Step(s, HeapCall(Allocate(TASK_SIZE)));
      && SysInv(t) && LowIsIdentity(t.world) && Grows(s.world, t.world) && t.heap.start == s.heap.start
      && t.heap == NewAlloc(s.heap, TASK_SIZE)
  {
    hide Inv, LeafEntry, PageOf, MapPages, TablesMade, FreeCount, HeapMapped, Tiled, NewAlloc, RangeMapped, Grows, LowIsIdentity,
      AvoidsWindow;
    var n := PagesFor(s.heap, TASK_SIZE);
    HeapCallInv(s, Allocate(TASK_SIZE));
    SameStart(s, HeapCall(Allocate(TASK_SIZE)));
    AllocatedSize(s.heap, TASK_SIZE);
    BehindAvoids(s.heap.start, s.heap.size, n);
    MapPagesInv(s.world, s.heap.start + s.heap.size, n, HEAP_FLAGS);
    BehindAbove(s.heap.start, s.heap.size, n);
    MapPagesLow(s.world, s.heap.start + s.heap.size, n, HEAP_FLAGS);
  }

  lemma BehindAbove(start: nat, size: nat, n: nat)
    requires size % PAGE_SIZE == 0
    requires forall i :: 0 <= i < (size + n * PAGE_SIZE) / PAGE_SIZE ==> !InLow(PageAt(start, i))
    ensures forall p :: InLow(p) ==> !InRange(p, start + size, n)
  {
    hide PageOf, InLow;
    var end, m := start + size, size / PAGE_SIZE;
    forall i | 0 <= i < n ensures !InLow(PageAt(end, i)) {
      assert PageAt(end, i) == PageAt(start, m + i);
    }
  }

  lemma KeepsStacks(k: Kernel, t: Sys)
    requires StacksOwned(k) && Grows(k.sys.world, t.world)
    requires forall a :: HasBlock(k.sys.heap, a) ==> HasBlock(t.heap, a)
    ensures StacksOwned(k.(sys := t))
  {
  }

  lemma KeepsBlocks(h: Heap, g: Heap, a: nat)
    requires HasBlock(h, a) && forall b :: InUse(h, b) ==> InUse(g, b)
    ensures HasBlock(g, a)
  {
    var b: nat :| OwnsBlock(h, a, b);
    assert InUse(h, h.blocks[b]);
    var c: nat :| c < |g.blocks| && g.blocks[c] == h.blocks[b];
    assert OwnsBlock(g, a, c);
  }

  lemma AllocKeepsBlocks(h: Heap, size: nat)
    requires Tiled(h) && Satisfiable(h, size + HEADER) && Grown(h, size + HEADER).size + HEAP_PAGE < DWORD_LIMIT
    ensures forall a :: HasBlock(h, a) ==> HasBlock(NewAlloc(h, size), a)
    ensures HasBlock(NewAlloc(h, size), AllocPtr(h, size)) && !HasBlock(h, AllocPtr(h, size))
    ensures AllocPtr(h, size) > h.start
  {
    hide Tiled, NewAlloc, AllocPtr, InUse;
    forall b ensures InUse(h, b) ==> InUse(NewAlloc(h, size), b) {
      NewAllocInUse(h, size, b);
    }
    forall a | HasBlock(h, a) ensures HasBlock(NewAlloc(h, size), a) {
      KeepsBlocks(h, NewAlloc(h, size), a);
    }
    NewPointer(h, size);
  }

  /** The pointer returned is that of a block in use afterwards, at an address where none was in use before. */
  lemma NewPointer(h: Heap, size: nat)
    requires Tiled(h) && Satisfiable(h, size + HEADER) && Grown(h, size + HEADER).size + HEAP_PAGE < DWORD_LIMIT
    ensures HasBlock(NewAlloc(h, size), AllocPtr(h, size)) && !HasBlock(h, AllocPtr(h, size))
    ensures AllocPtr(h, size) > h.start
  {
    var need := size + HEADER;
    var g := Grown(h, need);
    var k := FirstFit(g.blocks, need);
    var a := AllocBlock(h, size);
    GrownTiled(h, need);
    Inside(g, k);
    NewAllocInUse(h, size, a);
    CarveInUse(g, k, need, a);
    assert OwnsBlock(NewAlloc(h, size), AllocPtr(h, size), k);
    forall b: nat ensures !OwnsBlock(h, AllocPtr(h, size), b) {
      if b < |h.blocks| && !h.blocks[b].available {
        GrownInUse(h, need, h.blocks[b]);
        var j: nat :| j < |g.blocks| && g.blocks[j] == h.blocks[b];
        if g.blocks[j].addr == g.blocks[k].addr {
          SameAddressSameBlock(g, j, k);
        }
      }
    }
  }

  lemma SameAddressSameBlock(h: Heap, i: nat, j: nat)
    requires Tiled(h) && i < |h.blocks| && j < |h.blocks| && h.blocks[i].addr == h.blocks[j].addr
    ensures i == j
  {
    if i < j {
      Ordered(h, i, j);
    } else if j < i {
      Ordered(h, j, i);
    }
  }

  lemma CreateKernelInv(k: Kernel)
    requires KernelInv(k) && CanCreate(k)
    ensures KernelInv(CreateTask(k))
  {
    hide Inv, LeafEntry, PageOf, FreeCount, Missing, HeapMapped, Tiled, NewAlloc, AllocPtr, Grows, LowIsIdentity, FirstFree,
      AvoidsWindow, Alloc4K, HeapWorld, FreshPage, MarksBeside, SameLeavesBut, HasRoom, StacksOwned, T.Sound, HeapAbove, Live;
    var s := k.sys;
    var t := Step(s, HeapCall(Allocate(TASK_SIZE)));
    DescriptorAllocated(s);
    AllocKeepsBlocks(s.heap, TASK_SIZE);
    EnoughFrames(t.world);
    AllocIsClear(t.world);
    Alloc4KInv(t.world, STACK_FLAGS);
    var w' := Alloc4K(t.world, STACK_FLAGS);
    AllocLow(t.world, w', FirstFree(t.world.used), STACK_FLAGS);
    GrowsTransitive(s.world, t.world, w');
    StackPageKeepsHeap(t, w');
    KeepsStacks(k, CreateMemory(s));
    NewTaskOwned(k, t, w');
    DescriptorIsNew(k);
    T.CreateSound(k.ring, AllocPtr(s.heap, TASK_SIZE), NewStack(s));
    KernelFirst(k);
  }

  /** The new task in numbers: it is behind all others with the next id and RUNNING, its record is a block in use whose
      seventeen header bytes lie before it and whose 48 bytes or more lie behind, and its stack page is an aligned one
      mapped to itself with present and read-write set. */
  lemma NewTaskExactly(k: Kernel)
    requires KernelInv(k) && CanCreate(k)
    ensures var t, n := CreateTask(k), |k.ring.list|;
      && |t.ring.list| == n + 1 && t.ring.list[..n] == k.ring.list && t.ring.list[n].id == k.ring.nextId
      && t.ring.list[n].running && t.ring.nextId == k.ring.nextId + 1 && t.ring.cur == k.ring.cur && t.ring.time == k.ring.time
      && (exists b: nat :: b < |t.sys.heap.blocks| && !t.sys.heap.blocks[b].available
            && t.sys.heap.blocks[b].addr + 17 == t.ring.list[n].addr && t.sys.heap.blocks[b].size >= 17 + 48)
      && t.ring.list[n].provider % 0x1000 == 0
      && LeafEntry(t.sys.world.ram, PageOf(t.ring.list[n].provider)) == t.ring.list[n].provider + 3
  {
    hide KernelInv, CanCreate, CreateMemory, NewStack, AllocPtr, LeafEntry, PageOf;
    RecordExactly(k);
    StackExactly(k);
  }

  lemma RecordExactly(k: Kernel)
    requires KernelInv(k) && CanCreate(k)
    ensures k.ring.nextId + 1 < DWORD_LIMIT && Satisfiable(k.sys.heap, TASK_SIZE + HEADER)
    ensures var h := CreateMemory(k.sys).heap;
      exists b: nat :: b < |h.blocks| && !h.blocks[b].available
        && h.blocks[b].addr + 17 == AllocPtr(k.sys.heap, TASK_SIZE) && h.blocks[b].size >= 17 + 48
  {
    hide Inv, LeafEntry, FreeCount, Missing, NewAlloc, HasRoom, HeapAbove, Grown, LowIsIdentity, AllocPtr, StacksOwned, T.Sound,
      MapPages, Tiled, AvoidsWindow, HeapMapped, FirstFree, Alloc4K, Ident;
    var a := AllocBlock(k.sys.heap, TASK_SIZE);
    NewAllocInUse(k.sys.heap, TASK_SIZE, a);
  }

  lemma StackExactly(k: Kernel)
    requires KernelInv(k) && CanCreate(k)
    ensures Satisfiable(k.sys.heap, TASK_SIZE + HEADER) && NewStack(k.sys) % 0x1000 == 0
    ensures LeafEntry(CreateMemory(k.sys).world.ram, PageOf(NewStack(k.sys))) == NewStack(k.sys) + 3
  {
    hide Inv, LeafEntry, PageOf, FreeCount, Missing, HeapMapped, Tiled, NewAlloc, AllocPtr, Grows, LowIsIdentity, FirstFree,
      AvoidsWindow, Alloc4K, HeapWorld, FreshPage, MarksBeside, SameLeavesBut, HasRoom, StacksOwned, T.Sound, HeapAbove, Live;
    var t := Step(k.sys, HeapCall(Allocate(TASK_SIZE)));
    DescriptorAllocated(k.sys);
    EnoughFrames(t.world);
    AllocIsClear(t.world);
    Alloc4KInv(t.world, STACK_FLAGS);
    IdentIsPageOf(FirstFree(t.world.used));
  }

  lemma EnoughFrames(w: World)
    requires Inv(w) && FreeCount(w.used) > 0
    ensures FirstFree(w.used) < FRAMES
  {
    hide FreeCount, FirstFree;
    FreeCountPositive(w.used);
    InvShape(w);
    ShapeSize(w);
  }

  /** The stack page is in the identity region, so no heap page changes. */
  lemma StackPageKeepsHeap(t: Sys, w': World)
    requires SysInv(t) && HeapAbove(t.heap) && Inv(w') && FirstFree(t.world.used) < FRAMES
    requires SameLeavesBut(t.world.ram, w'.ram, Ident(FirstFree(t.world.used)))
    ensures SysInv(t.(world := w'))
  {
    hide Inv, LeafEntry, PageOf, Tiled, FirstFree, InLow;
    IdentLow(FirstFree(t.world.used));
    forall i | 0 <= i < t.heap.size / PAGE_SIZE ensures Present(LeafEntry(w'.ram, PageAt(t.heap.start, i))) {
      InsideRange(t.heap.start, i, t.heap.size / PAGE_SIZE);
    }
  }

  /** The new task's stack and descriptor are its own. */
  lemma NewTaskOwned(k: Kernel, t: Sys, w': World)
    requires KernelInv(k) && Satisfiable(k.sys.heap, TASK_SIZE + HEADER) && t == Step(k.sys, HeapCall(Allocate(TASK_SIZE)))
    requires StacksOwned(k.(sys := t.(world := w'))) && Inv(t.world) && Grows(k.sys.world, t.world)
    requires FirstFree(t.world.used) < FRAMES && HasBlock(t.heap, AllocPtr(k.sys.heap, TASK_SIZE))
    requires FreshPage(t.world, w', Ident(FirstFree(t.world.used)), STACK_FLAGS)
    requires LeafEntry(w'.ram, Ident(FirstFree(t.world.used))) == FirstFree(t.world.used) * PAGE_SIZE + STACK_FLAGS
    ensures StacksOwned(Kernel(T.Create(k.ring, AllocPtr(k.sys.heap, TASK_SIZE), NewStack(k.sys)), t.(world := w')))
  {
    hide Inv, LeafEntry, SysInv, LowIsIdentity, HeapAbove, FirstFree, AllocPtr, Step, Ident, Satisfiable;
    var f := FirstFree(t.world.used);
    assert NewStack(k.sys) / PAGE_SIZE == f && NewStack(k.sys) == f * PAGE_SIZE;
    forall i | 0 < i < |k.ring.list| ensures k.ring.list[i].provider != NewStack(k.sys) {
      assert OwnsStack(k.sys.world, k.ring.list[i].provider);
      StillMarked(k.sys.world, t.world, k.ring.list[i].provider / PAGE_SIZE);
    }
  }

  lemma StillMarked(w: World, w': World, f: nat)
    requires Inv(w') && Grows(w, w') && f in w.owner
    ensures f < |w'.used| && w'.used[f]
  {
  }

  lemma DescriptorIsNew(k: Kernel)
    requires KernelInv(k) && Satisfiable(k.sys.heap, TASK_SIZE + HEADER) && !HasBlock(k.sys.heap, AllocPtr(k.sys.heap, TASK_SIZE))
    requires AllocPtr(k.sys.heap, TASK_SIZE) > k.sys.heap.start
    ensures forall i :: 0 <= i < |k.ring.list| ==> k.ring.list[i].addr != AllocPtr(k.sys.heap, TASK_SIZE)
  {
    hide SysInv, LowIsIdentity, HeapAbove, AllocPtr, Satisfiable, HasBlock, OwnsStack;
  }

  lemma KernelFirst(k: Kernel)
    requires KernelInv(k) && Satisfiable(k.sys.heap, TASK_SIZE + HEADER)
    ensures |k.ring.list| > 0 && CreateTask(k).ring.list[0] == k.ring.list[0] && k.ring.list[0].addr < k.sys.heap.start
  {
    hide SysInv, LowIsIdentity, HeapAbove, StacksOwned;
  }

  // ---------------------------------------------------------------- exit and tick

  lemma ExitKernelInv(k: Kernel)
    requires KernelInv(k)
    ensures KernelInv(k.(ring := T.Exit(k.ring)))
  {
    hide SysInv, LowIsIdentity, HeapAbove, OwnsStack, HasBlock;
    T.ExitSound(k.ring);
  }

  /** `b` is the place of the current task's descriptor whenever the tick is going to free it. */
  ghost predicate DescriptorAt(k: Kernel, b: nat)
    requires k.ring.cur < |k.ring.list|
  {
    b < |k.sys.heap.blocks|
    && (!k.ring.list[k.ring.cur].running ==> OwnsBlock(k.sys.heap, k.ring.list[k.ring.cur].addr, b))
  }

  /** Unmapping a task's stack page is a legal call that touches no heap page and no other stack. */
  lemma StackUnmaps(s: Sys, provider: nat)
    requires SysInv(s) && LowIsIdentity(s.world) && HeapAbove(s.heap) && OwnsStack(s.world, provider)
    ensures var w' := UnmapPages(s.world, provider, 1);
      && Inv(w') && SysInv(s.(world := w')) && LowIsIdentity(w') && RangeUnmapped(s.world, w', provider, 1)
      && (forall q :: InRange(q, provider, 1) <==> q == Ident(provider / PAGE_SIZE))
  {
    hide Inv, LeafEntry, PageOf, HeapMapped, Tiled, RangeUnmapped, Walk, LowIsIdentity, UnmapPages, Live, HeapAbove, AvoidsWindow,
      AllRemovable;
    var f, w := provider / PAGE_SIZE, s.world;
    StackIsMapped(w, provider);
    OnePage(provider);
    StackRange(w, provider);
    UnmapPagesInv(w, provider, 1);
    UnmapLow(w, UnmapPages(w, provider, 1), provider, 1);
    StackNotHeap(s.heap, provider);
    PageCallInv(s, UmapV(provider, PAGE_SIZE));
  }

  lemma OnePage(provider: nat)
    requires provider % PAGE_SIZE == 0 && provider / PAGE_SIZE < FRAMES
    ensures PageAt(provider, 0) == PageOf(provider)
    ensures forall q :: InRange(q, provider, 1) <==> q == PageOf(provider)
  {
    hide PageOf;
    assert PageAt(provider, 0) == PageOf(provider);
  }

  lemma StackRange(w: World, provider: nat)
    requires PageOf(provider) != WINDOW && Live(w, PageOf(provider)) && PageAt(provider, 0) == PageOf(provider)
    requires forall q :: InRange(q, provider, 1) <==> q == PageOf(provider)
    ensures AvoidsWindow(provider, 1) && AllRemovable(w, provider, 1)
  {
    hide PageOf, Live, PageAt;
  }

  lemma StackNotHeap(h: Heap, provider: nat)
    requires HeapAbove(h) && provider / PAGE_SIZE < FRAMES && PageOf(provider) == Ident(provider / PAGE_SIZE)
    requires forall q :: InRange(q, provider, 1) <==> q == PageOf(provider)
    ensures forall i :: 0 <= i < h.size / PAGE_SIZE ==> !InRange(PageAt(h.start, i), provider, 1)
  {
    hide PageOf, PageAt, InLow, Ident, InRange;
    IdentLow(provider / PAGE_SIZE);
  }

  lemma ReapKernelInv(k: Kernel, b: nat)
    requires KernelInv(k) && k.ring.cur > 0 && OwnsBlock(k.sys.heap, k.ring.list[k.ring.cur].addr, b)
    requires T.Sound(T.Remove(k.ring))
    ensures KernelInv(Kernel(T.Remove(k.ring), ReapMemory(k.sys, k.ring.list[k.ring.cur].provider, b)))
  {
    hide Inv, LeafEntry, PageOf, HeapMapped, Tiled, RangeUnmapped, LowIsIdentity, UnmapPages, T.Sound, Free, AvoidsWindow;
    CurrentInList(k);
    var s, t := k.sys, k.ring.list[k.ring.cur];
    StackUnmaps(s, t.provider);
    var w' := UnmapPages(s.world, t.provider, 1);
    FreeTiled(s.heap, b);
    OthersKeepStacks(k, w');
    OthersKeepBlocks(k, b);
    StacksAfterReap(k, w', Free(s.heap, b));
  }

  lemma CurrentInList(k: Kernel)
    requires KernelInv(k) && k.ring.cur > 0
    ensures 0 < k.ring.cur < |k.ring.list| && OwnsStack(k.sys.world, k.ring.list[k.ring.cur].provider)
  {
    hide SysInv, LowIsIdentity, HeapAbove, OwnsStack, HasBlock;
  }

  lemma OthersKeepStacks(k: Kernel, w': World)
    requires KernelInv(k) && k.ring.cur > 0
    requires var p := k.ring.list[k.ring.cur].provider;
      RangeUnmapped(k.sys.world, w', p, 1) && forall q :: InRange(q, p, 1) <==> q == Ident(p / PAGE_SIZE)
    ensures forall i :: 0 < i < |k.ring.list| && i != k.ring.cur ==> OwnsStack(w', k.ring.list[i].provider)
  {
    hide Inv, LeafEntry, PageAt, Walk, SysInv, LowIsIdentity, HeapAbove, HasBlock, InRange, Ident;
    var p := k.ring.list[k.ring.cur].provider;
    forall i | 0 < i < |k.ring.list| && i != k.ring.cur ensures OwnsStack(w', k.ring.list[i].provider) {
      var q := k.ring.list[i].provider;
      assert OwnsStack(k.sys.world, q) && OwnsStack(k.sys.world, p) && q != p;
      SysFrames(k.sys, p / PAGE_SIZE, q / PAGE_SIZE);
      if Ident(q / PAGE_SIZE) == Ident(p / PAGE_SIZE) {
        IdentInjective(q / PAGE_SIZE, p / PAGE_SIZE);
      }
    }
  }

  lemma SysFrames(s: Sys, f: nat, g: nat)
    requires SysInv(s) && f in s.world.owner && g in s.world.owner
    ensures f < FRAMES && g < FRAMES
  {
    hide LeafEntry, Walk, HeapMapped, Tiled, AvoidsWindow;
  }

  lemma OthersKeepBlocks(k: Kernel, b: nat)
    requires KernelInv(k) && k.ring.cur > 0 && OwnsBlock(k.sys.heap, k.ring.list[k.ring.cur].addr, b)
    ensures forall i :: 0 < i < |k.ring.list| && i != k.ring.cur ==> HasBlock(Free(k.sys.heap, b), k.ring.list[i].addr)
  {
    hide Inv, LeafEntry, LowIsIdentity, HeapAbove, HeapMapped, AvoidsWindow, OwnsStack, Free, Tiled;
    var h := k.sys.heap;
    forall i | 0 < i < |k.ring.list| && i != k.ring.cur ensures HasBlock(Free(h, b), k.ring.list[i].addr) {
      assert HasBlock(h, k.ring.list[i].addr);
      var c: nat :| OwnsBlock(h, k.ring.list[i].addr, c);
      assert k.ring.list[i].addr != k.ring.list[k.ring.cur].addr;
      FreeInUse(h, b, h.blocks[c]);
      assert InUse(Free(h, b), h.blocks[c]);
      var d: nat :| d < |Free(h, b).blocks| && Free(h, b).blocks[d] == h.blocks[c];
      assert OwnsBlock(Free(h, b), k.ring.list[i].addr, d);
    }
  }

  lemma StacksAfterReap(k: Kernel, w': World, g: Heap)
    requires KernelInv(k) && k.ring.cur > 0
    requires forall i :: 0 < i < |k.ring.list| && i != k.ring.cur ==> OwnsStack(w', k.ring.list[i].provider)
    requires forall i :: 0 < i < |k.ring.list| && i != k.ring.cur ==> HasBlock(g, k.ring.list[i].addr)
    ensures StacksOwned(Kernel(T.Remove(k.ring), Sys(g, w'))) && T.Remove(k.ring).list[0] == k.ring.list[0]
  {
    hide SysInv, LowIsIdentity, HeapAbove, OwnsStack, HasBlock;
    var l, c := k.ring.list, k.ring.cur;
    var m := T.Remove(k.ring).list;
    assert forall i :: 0 <= i < |m| ==> m[i] == l[if i < c then i else i + 1];
  }

  lemma TickKernelInv(k: Kernel, b: nat)
    requires KernelInv(k) && DescriptorAt(k, b)
    ensures KernelInv(TickTask(k, b))
  {
    hide SysInv, LowIsIdentity, HeapAbove, OwnsStack, OwnsBlock, ReapMemory, StacksOwned;
    T.TickSound(k.ring);
    var t := k.(ring := k.ring.(time := (k.ring.time + 1) % DWORD_LIMIT));
    if !T.Skips(T.Tick(k.ring).time) && !k.ring.list[k.ring.cur].running {
      TimeKernelInv(k, t);
      ReapKernelInv(t, b);
    } else {
      SameListKernelInv(k, T.Tick(k.ring));
    }
  }

  lemma TimeKernelInv(k: Kernel, t: Kernel)
    requires KernelInv(k) && t == k.(ring := k.ring.(time := (k.ring.time + 1) % DWORD_LIMIT))
    ensures KernelInv(t)
  {
    hide SysInv, LowIsIdentity, HeapAbove, OwnsStack, HasBlock;
  }

  lemma SameListKernelInv(k: Kernel, r: T.Ring)
    requires KernelInv(k) && T.Sound(r) && r.list == k.ring.list
    ensures KernelInv(k.(ring := r))
  {
    hide SysInv, LowIsIdentity, HeapAbove, OwnsStack, HasBlock;
  }

  // ---------------------------------------------------------------- the rest of the kernel

  /** Other heap and page calls that respect the tasks: they free no descriptor, unmap no stack,
      map nothing in the identity region, and keep the heap above it. */
  ghost predicate Respects(k: Kernel, op: SysOp) {
    && Allowed(k.sys, op) && (op.PageCall? ==> KeepsLow(op.page))
    && HeapAbove(Step(k.sys, op).heap)
    && (op.HeapCall? && op.op.Release? ==>
          forall i :: 0 < i < |k.ring.list| ==> !OwnsBlock(k.sys.heap, k.ring.list[i].addr, op.op.k))
    && (op.PageCall? && op.page.UmapV? ==>
          forall i :: 0 < i < |k.ring.list| ==>
            !InRange(Ident(k.ring.list[i].provider / PAGE_SIZE), op.page.virt, PageCount(op.page.length)))
  }

  lemma OtherKernelInv(k: Kernel, op: SysOp)
    requires KernelInv(k) && Respects(k, op)
    ensures KernelInv(k.(sys := Step(k.sys, op)))
  {
    match op
    case HeapCall(c) => OtherHeapCall(k, c);
    case PageCall(c) => OtherPageCall(k, c);
  }

  lemma OtherHeapCall(k: Kernel, op: HeapOp)
    requires KernelInv(k) && Respects(k, HeapCall(op))
    ensures KernelInv(k.(sys := Step(k.sys, HeapCall(op))))
  {
    hide Inv, LeafEntry, PageOf, MapPages, TablesMade, FreeCount, HeapMapped, Tiled, NewAlloc, RangeMapped, Grows, LowIsIdentity,
      AvoidsWindow, T.Sound, HeapAbove, StacksOwned, Free;
    var s := k.sys;
    HeapCallInv(s, op);
    SameStart(s, HeapCall(op));
    match op
    case Allocate(size) =>
      if size > 0 {
        var n := PagesFor(s.heap, size);
        AllocatedSize(s.heap, size);
        BehindAvoids(s.heap.start, s.heap.size, n);
        MapPagesInv(s.world, s.heap.start + s.heap.size, n, HEAP_FLAGS);
        assert HeapAbove(NewAlloc(s.heap, size));
        AboveBehind(s.heap, size, n);
        MapPagesLow(s.world, s.heap.start + s.heap.size, n, HEAP_FLAGS);
        AllocKeepsBlocks(s.heap, size);
        KeepsStacks(k, Step(s, HeapCall(op)));
      }
    case Release(b) =>
      ReleaseKeepsStacks(k, b);
  }

  lemma AboveBehind(h: Heap, size: nat, n: nat)
    requires h.size % PAGE_SIZE == 0 && Satisfiable(h, size + HEADER) && HeapAbove(NewAlloc(h, size))
    requires NewAlloc(h, size).size == h.size + n * PAGE_SIZE && NewAlloc(h, size).start == h.start
    ensures forall p :: InLow(p) ==> !InRange(p, h.start + h.size, n)
  {
    hide PageOf, NewAlloc, InLow;
    BehindAbove(h.start, h.size, n);
  }

  lemma ReleaseKeepsStacks(k: Kernel, b: nat)
    requires KernelInv(k) && Respects(k, HeapCall(Release(b)))
    ensures StacksOwned(k.(sys := Step(k.sys, HeapCall(Release(b)))))
  {
    hide Inv, LeafEntry, LowIsIdentity, HeapAbove, HeapMapped, AvoidsWindow, OwnsStack, Free, Tiled;
    var h := k.sys.heap;
    forall i | 0 < i < |k.ring.list| ensures HasBlock(Free(h, b), k.ring.list[i].addr) {
      assert HasBlock(h, k.ring.list[i].addr);
      var c: nat :| OwnsBlock(h, k.ring.list[i].addr, c);
      assert !OwnsBlock(h, k.ring.list[i].addr, b);
      if h.blocks[c] == h.blocks[b] {
        SameAddressSameBlock(h, c, b);
      }
      FreeInUse(h, b, h.blocks[c]);
      assert InUse(Free(h, b), h.blocks[c]);
      var d: nat :| d < |Free(h, b).blocks| && Free(h, b).blocks[d] == h.blocks[c];
      assert OwnsBlock(Free(h, b), k.ring.list[i].addr, d);
    }
  }

  lemma OtherPageCall(k: Kernel, op: Op)
    requires KernelInv(k) && Respects(k, PageCall(op))
    ensures KernelInv(k.(sys := Step(k.sys, PageCall(op))))
  {
    hide Inv, LeafEntry, PageOf, FreeCount, HeapMapped, Tiled, LowIsIdentity, AvoidsWindow, T.Sound, HeapAbove, Legal, PageRuns.Do,
      HasBlock, OwnsStack;
    PageCallInv(k.sys, op);
    DoLow(k.sys.world, op);
    forall i | 0 < i < |k.ring.list| ensures OwnsStack(PageRuns.Do(k.sys.world, op), k.ring.list[i].provider) {
      StackKept(k.sys.world, op, k.ring.list[i].provider);
    }
  }

  /** A stack stays owned under every legal page call that does not unmap it. */
  lemma StackKept(w: World, op: Op, provider: nat)
    requires Inv(w) && Legal(w, op) && OwnsStack(w, provider)
    requires op.UmapV? ==> !InRange(Ident(provider / PAGE_SIZE), op.virt, PageCount(op.length))
    ensures OwnsStack(PageRuns.Do(w, op), provider)
  {
    hide Inv, LeafEntry, PageAt, MapPages, MapPhysPages, UnmapPages, Alloc4K, TablesMade, PhysTablesMade, FreeCount, Missing,
      Live, FreshPage, Claim, FirstFree, Ident, Walk;
    match op
    case GetFrame =>
      if FreeCount(w.used) > 0 {
        ClaimInv(w);
      } else {
        NoFrameLeft(w);
      }
    case AllocOp(flags) => Alloc4KInv(w, flags);
    case MapV(virt, length, flags) => MapPagesInv(w, virt, PageCount(length), flags);
    case MapVP(virt, phys, length, flags) => MapPhysPagesInv(w, virt, phys, PageCount(length), flags);
    case UmapV(virt, length) => UnmapPagesInv(w, virt, PageCount(length));
  }

  // ---------------------------------------------------------------- runs

  datatype KernelOp = CreateOp | ExitOp | TickOp(b: nat) | OtherOp(op: SysOp)

  ghost predicate Possible(k: Kernel, op: KernelOp) {
    match op
    case CreateOp => CanCreate(k)
    case ExitOp => true
    case TickOp(b) => k.ring.cur < |k.ring.list| && DescriptorAt(k, b)
    case OtherOp(o) => Respects(k, o)
  }

  function Act(k: Kernel, op: KernelOp): Kernel
    requires k.ring.cur < |k.ring.list| && Possible(k, op)
  {
    match op
    case CreateOp => CreateTask(k)
    case ExitOp => k.(ring := T.Exit(k.ring))
    case TickOp(b) => TickTask(k, b)
    case OtherOp(o) => k.(sys := Step(k.sys, o))
  }

  lemma ActInv(k: Kernel, op: KernelOp)
    requires KernelInv(k) && Possible(k, op)
    ensures k.ring.cur < |k.ring.list| && KernelInv(Act(k, op))
  {
    hide KernelInv, CanCreate, Respects, DescriptorAt, CreateTask, TickTask, T.Exit, Step;
    KernelCurrent(k);
    match op
    case CreateOp => CreateKernelInv(k);
    case ExitOp => ExitKernelInv(k);
    case TickOp(b) => TickKernelInv(k, b);
    case OtherOp(o) => OtherKernelInv(k, o);
  }

  lemma KernelCurrent(k: Kernel)
    requires KernelInv(k)
    ensures k.ring.cur < |k.ring.list|
  {
    hide SysInv, LowIsIdentity, HeapAbove, StacksOwned;
  }

  ghost predicate PossibleRun(k: Kernel, ops: seq<KernelOp>)
    decreases |ops|
  {
    ops == [] || (k.ring.cur < |k.ring.list| && Possible(k, ops[0]) && PossibleRun(Act(k, ops[0]), ops[1..]))
  }

  ghost function RunKernel(k: Kernel, ops: seq<KernelOp>): Kernel
    requires PossibleRun(k, ops)
    decreases |ops|
  {
    if ops == [] then k else RunKernel(Act(k, ops[0]), ops[1..])
  }

  lemma {:induction false} RunKernelInv(k: Kernel, ops: seq<KernelOp>)
    requires KernelInv(k) && PossibleRun(k, ops)
    ensures KernelInv(RunKernel(k, ops))
    decreases |ops|
  {
    hide KernelInv, Possible, Act;
    if ops != [] {
      ActInv(k, ops[0]);
      RunKernelInv(Act(k, ops[0]), ops[1..]);
    }
  }

  /** In every reachable state each task's stack page is identity-mapped and marked, and no two tasks share one. */
  lemma StacksStayOwned(k: Kernel, ops: seq<KernelOp>, i: nat, j: nat)
    requires KernelInv(k) && PossibleRun(k, ops)
    requires var l := RunKernel(k, ops).ring.list; 0 < i < |l| && 0 < j < |l| && i != j
    ensures var t := RunKernel(k, ops);
      var p, q := t.ring.list[i].provider, t.ring.list[j].provider;
      && p / PAGE_SIZE != q / PAGE_SIZE
      && p / PAGE_SIZE < |t.sys.world.used| && t.sys.world.used[p / PAGE_SIZE]
      && Walk(t.sys.world.ram, PageOf(p)) == Some(p / PAGE_SIZE)
  {
    hide Inv, Walk, PageOf, HeapMapped, Tiled, AvoidsWindow, LowIsIdentity, HeapAbove, HasBlock, PossibleRun;
    RunKernelInv(k, ops);
    var t := RunKernel(k, ops);
    assert OwnsStack(t.sys.world, t.ring.list[i].provider) && OwnsStack(t.sys.world, t.ring.list[j].provider);
    StackIsMapped(t.sys.world, t.ring.list[i].provider);
    InvShape(t.sys.world);
    ShapeSize(t.sys.world);
    assert t.ring.list[i].provider != t.ring.list[j].provider;
  }

  // ---------------------------------------------------------------- start and full cycle

  /** The kernel after `task_init` and `init_alloc`. */
  lemma StartInv(w: World, kernel: nat, stack: nat, start: nat)
    requires Inv(w) && LowIsIdentity(w) && 0 < kernel < start && AvoidsWindow(start, 1) && !InLow(PageAt(start, 0))
    requires FreeCount(w.used) >= 1 + TablesMade(w, start, 1, HEAP_FLAGS)
    ensures KernelInv(Kernel(T.InitRing(kernel, stack), Sys(InitHeap(start), MapPages(w, start, 1, HEAP_FLAGS))))
  {
    hide Inv, LeafEntry, PageOf, MapPages, TablesMade, FreeCount, RangeMapped, Grows, LowIsIdentity, InLow;
    T.InitSound(kernel, stack);
    InitTiled(start);
    MapPagesInv(w, start, 1, HEAP_FLAGS);
    NothingMapped(w, start);
    HeapPageMapped(w, MapPages(w, start, 1, HEAP_FLAGS), start, 0);
    MapPagesLow(w, start, 1, HEAP_FLAGS);
  }

  /** Nothing is mapped in the boot tables by `page_mapv` or `page_alloc4K`. */
  lemma BootIsLow(ram: Ram)
    requires |ram| == FRAMES
    ensures LowIsIdentity(BootWorld(ram))
  {
  }

  /** From the boot state, with the heap placed above the identity region, the kernel starts in its invariant:
      no condition on free frames is left. */
  lemma BootKernelInv(ram: Ram, kernel: nat, stack: nat, start: nat)
    requires FullRam(ram) && 0 < kernel < start && AvoidsWindow(start, 1) && !InLow(PageAt(start, 0))
    ensures KernelInv(Kernel(T.InitRing(kernel, stack), Sys(InitHeap(start), MapPages(BootWorld(ram), start, 1, HEAP_FLAGS))))
  {
    hide BootWorld, KernelInv, Inv, LowIsIdentity, AvoidsWindow, InLow, PageAt, TablesMade, FreeCount;
    BootInv(ram);
    BootIsLow(ram);
    BootFree(ram);
    TablesMadeAtMost(BootWorld(ram), start, 1, HEAP_FLAGS);
    StartInv(BootWorld(ram), kernel, stack, start);
  }

  // ---------------------------------------------------------------- from the loader to the first task

  /** One call of the loader's `Kernel_MapPagePhysical`. */
  datatype Loading = Loading(virt: nat, phys: nat, size: nat, flags: nat)

  function Load(w: World, ls: seq<Loading>): World {
    if ls == [] then w else
      var l := ls[|ls| - 1];
      BootMapPages(Load(w, ls[..|ls| - 1]), l.virt, l.phys, PageCount(l.size), l.flags)
  }

  function LoadedPages(ls: seq<Loading>): nat {
    if ls == [] then 0 else LoadedPages(ls[..|ls| - 1]) + PageCount(ls[|ls| - 1].size)
  }

  /** Usable flags, physical memory below 128 MiB, and neither the window nor the pages the kernel reaches its tables
      through. */
  ghost predicate Loadable(l: Loading) {
    && GoodFlags(l.flags) && AvoidsWindow(l.virt, PageCount(l.size)) && PageCount(l.size) <= PAGES_IN_SPACE
    && InBitmap(l.phys, PageCount(l.size))
    && forall i :: 0 <= i < PageCount(l.size) ==> !KernelPage(PageAt(l.virt, i))
  }

  ghost predicate NoLeaves(w: World) {
    forall f :: f in w.owner ==> !w.owner[f].Leaf?
  }

  /** No page takes more than its three tables and the mark of its frame. */
  lemma {:induction false} BootTablesAtMost(w: World, virt: nat, phys: nat, n: nat, flags: nat)
    ensures BootTablesMade(w, virt, phys, n, flags) <= 4 * n
  {
    hide BootMapPages, PageAt;
    if n > 0 {
      BootTablesAtMost(w, virt, phys, n - 1, flags);
      AtMostThree(BootMapPages(w, virt, phys, n - 1, flags).ram, PageAt(virt, n - 1));
    }
  }

  /** Whatever the loader maps below 128 MiB, kernel image, stage code and fonts, the invariant holds and no page is
      live. */
  lemma {:induction false} LoadInv(w: World, ls: seq<Loading>)
    requires Inv(w) && NoLeaves(w) && FreeCount(w.used) >= 4 * LoadedPages(ls)
    requires forall i :: 0 <= i < |ls| ==> Loadable(ls[i])
    ensures Inv(Load(w, ls)) && NoLeaves(Load(w, ls)) && FreeCount(Load(w, ls).used) >= FreeCount(w.used) - 4 * LoadedPages(ls)
  {
    hide Inv, Loadable, BootMapPages, FreeCount, NoLeaves, PageCount;
    if ls != [] {
      var before, l := ls[..|ls| - 1], ls[|ls| - 1];
      LoadInv(w, before);
      LoadOne(Load(w, before), l);
    }
  }

  lemma LoadOne(w: World, l: Loading)
    requires Inv(w) && NoLeaves(w) && Loadable(l) && FreeCount(w.used) >= 4 * PageCount(l.size)
    ensures var w' := BootMapPages(w, l.virt, l.phys, PageCount(l.size), l.flags);
      Inv(w') && NoLeaves(w') && FreeCount(w'.used) >= FreeCount(w.used) - 4 * PageCount(l.size)
  {
    hide Inv, BootMapPages, FreeCount, PageCount, PageAt, BootTablesMade, Grows, BootMapped, AvoidsWindow, KernelPage, InBitmap;
    BootTablesAtMost(w, l.virt, l.phys, PageCount(l.size), l.flags);
    BootMapPagesInv(w, l.virt, l.phys, PageCount(l.size), l.flags);
  }

  lemma BootNoLeaves(ram: Ram)
    requires |ram| == FRAMES
    ensures NoLeaves(BootWorld(ram))
  {
  }

  lemma NoLeavesIsLow(w: World)
    requires NoLeaves(w)
    ensures LowIsIdentity(w)
  {
  }

  /** The whole way to the first task: boot tables, whatever the loader maps below 128 MiB, page calls made before the heap exists
      (the framebuffer is mapped there), `task_init` and `init_alloc`. */
  lemma LoadedKernelInv(ram: Ram, ls: seq<Loading>, ops: seq<Op>, kernel: nat, stack: nat, start: nat)
    requires FullRam(ram) && 0 < kernel < start && AvoidsWindow(start, 1) && !InLow(PageAt(start, 0))
    requires (forall i :: 0 <= i < |ls| ==> Loadable(ls[i])) && 4 * LoadedPages(ls) <= FRAMES - 7
    requires PermittedRun(Load(BootWorld(ram), ls), ops)
    requires FreeCount(PageRuns.Run(Load(BootWorld(ram), ls), ops).used) >= 4
    ensures var w := PageRuns.Run(Load(BootWorld(ram), ls), ops);
      KernelInv(Kernel(T.InitRing(kernel, stack), Sys(InitHeap(start), MapPages(w, start, 1, HEAP_FLAGS))))
  {
    hide BootWorld, KernelInv, Inv, LowIsIdentity, AvoidsWindow, InLow, PageAt, TablesMade, FreeCount, Loadable, Load, PermittedRun,
      PageRuns.Run, NoLeaves, InitHeap, MapPages;
    var w := PageRuns.Run(Load(BootWorld(ram), ls), ops);
    BootInv(ram);
    BootNoLeaves(ram);
    BootFree(ram);
    LoadInv(BootWorld(ram), ls);
    NoLeavesIsLow(Load(BootWorld(ram), ls));
    PermittedIsLegal(Load(BootWorld(ram), ls), ops);
    TablesMadeAtMost(w, start, 1, HEAP_FLAGS);
    StartInv(w, kernel, stack, start);
  }

  /** Mapping the framebuffer, anywhere but over the window, is such a page call. */
  lemma FramebufferIsPermitted(w: World, address: nat, size: nat)
    requires AvoidsWindow(address, PageCount(size))
    requires FreeCount(w.used) >= PhysTablesMade(w, address, address, PageCount(size), STACK_FLAGS)
    ensures PermittedRun(w, [MapVP(address, address, size, STACK_FLAGS)])
  {
    hide AvoidsWindow, FreeCount, PhysTablesMade, PageCount;
    var ops := [MapVP(address, address, size, STACK_FLAGS)];
    assert ops[..0] == [] && PermittedRun(w, []) && PageRuns.Run(w, []) == w;
  }

  /** Creating a task, letting it exit and reaping it returns its stack frame and its descriptor: the same blocks
      are in use, the same translations hold, and the only new marks are page tables. */
  lemma CreateThenReap(s: Sys, b: nat)
    requires SysInv(s) && LowIsIdentity(s.world) && Allowed(s, HeapCall(Allocate(TASK_SIZE)))
    requires HeapAbove(NewAlloc(s.heap, TASK_SIZE))
    requires var w := HeapWorld(s, Allocate(TASK_SIZE));
      FreeCount(w.used) > Missing(w.ram, Ident(FirstFree(w.used)), 3) && LeafEntry(w.ram, Ident(FirstFree(w.used))) == 0
    requires OwnsBlock(CreateMemory(s).heap, AllocPtr(s.heap, TASK_SIZE), b)
    ensures var w, u := HeapWorld(s, Allocate(TASK_SIZE)), ReapMemory(CreateMemory(s), NewStack(s), b);
      && (forall x :: InUse(u.heap, x) <==> InUse(s.heap, x))
      && SameLeaves(w.ram, u.world.ram)
      && (forall f :: 0 <= f < FRAMES ==>
            (f < |u.world.used| && u.world.used[f] <==> (f < |w.used| && w.used[f]) || (TableFrame(u.world.ram, f) && !TableFrame(w.ram, f))))
      && (forall f :: 0 <= f < FRAMES && TableFrame(w.ram, f) ==> TableFrame(u.world.ram, f))
  {
    hide Inv, LeafEntry, PageOf, FreeCount, Missing, HeapMapped, Tiled, NewAlloc, AllocPtr, LowIsIdentity, FirstFree, AvoidsWindow,
      Alloc4K, UnmapPages, Free, InUse, SameLeaves, TableFrame, HasRoom, Grows, HeapAbove;
    DescriptorAllocated(s);
    WorldAfterCycle(HeapWorld(s, Allocate(TASK_SIZE)));
    BlocksAfterCycle(s.heap, b);
  }

  lemma BlocksAfterCycle(h: Heap, b: nat)
    requires Tiled(h) && Satisfiable(h, TASK_SIZE + HEADER) && Tiled(NewAlloc(h, TASK_SIZE))
    requires Grown(h, TASK_SIZE + HEADER).size + HEAP_PAGE < DWORD_LIMIT
    requires OwnsBlock(NewAlloc(h, TASK_SIZE), AllocPtr(h, TASK_SIZE), b)
    ensures forall x :: InUse(Free(NewAlloc(h, TASK_SIZE), b), x) <==> InUse(h, x)
  {
    hide NewAlloc, AllocPtr, Free, Tiled;
    var g := NewAlloc(h, TASK_SIZE);
    AllocBlockPlace(h, b);
    forall x ensures InUse(Free(g, b), x) <==> InUse(h, x) {
      NewAllocInUse(h, TASK_SIZE, x);
      FreeInUse(g, b, x);
    }
  }

  lemma AllocBlockPlace(h: Heap, b: nat)
    requires Tiled(h) && Satisfiable(h, TASK_SIZE + HEADER) && Tiled(NewAlloc(h, TASK_SIZE))
    requires Grown(h, TASK_SIZE + HEADER).size + HEAP_PAGE < DWORD_LIMIT
    requires OwnsBlock(NewAlloc(h, TASK_SIZE), AllocPtr(h, TASK_SIZE), b)
    ensures NewAlloc(h, TASK_SIZE).blocks[b] == AllocBlock(h, TASK_SIZE)
  {
    hide Tiled;
    NewAllocInUse(h, TASK_SIZE, AllocBlock(h, TASK_SIZE));
    SameAddressSameBlock(NewAlloc(h, TASK_SIZE), b, FirstFit(Grown(h, TASK_SIZE + HEADER).blocks, TASK_SIZE + HEADER));
  }

  /** Identity allocation undone by unmapping: only page tables stay behind. */
  lemma WorldAfterCycle(w: World)
    requires Inv(w) && LowIsIdentity(w) && LeafEntry(w.ram, Ident(FirstFree(w.used))) == 0
    requires FreeCount(w.used) > Missing(w.ram, Ident(FirstFree(w.used)), 3)
    ensures var w3 := UnmapPages(Alloc4K(w, STACK_FLAGS), FirstFree(w.used) * PAGE_SIZE, 1);
      && SameLeaves(w.ram, w3.ram) && |w3.used| == FRAMES && |w.used| == FRAMES
      && (forall f :: 0 <= f < FRAMES ==>
            (w3.used[f] <==> w.used[f] || (TableFrame(w3.ram, f) && !TableFrame(w.ram, f))))
      && (forall f :: 0 <= f < FRAMES && TableFrame(w.ram, f) ==> TableFrame(w3.ram, f))
  {
    hide Inv, LeafEntry, PageOf, FreeCount, Missing, LowIsIdentity, FirstFree, Alloc4K, UnmapPages, TableFrame, Grows, SameLeaves,
      RangeUnmapped, Live, FreshPage, Ident, InRange;
    var f := FirstFree(w.used);
    EnoughFrames(w);
    AllocIsClear(w);
    Alloc4KInv(w, STACK_FLAGS);
    var w2 := Alloc4K(w, STACK_FLAGS);
    FreshIsOwned(w, w2, f);
    StackIsMapped(w2, f * PAGE_SIZE);
    OnePage(f * PAGE_SIZE);
    StackRange(w2, f * PAGE_SIZE);
    UnmapPagesInv(w2, f * PAGE_SIZE, 1);
    CycleLeaves(w, w2, UnmapPages(w2, f * PAGE_SIZE, 1), f);
    CycleMarks(w, w2, UnmapPages(w2, f * PAGE_SIZE, 1), f);
  }

  lemma FreshIsOwned(w: World, w2: World, f: nat)
    requires FreshPage(w, w2, Ident(f), STACK_FLAGS) && LeafEntry(w2.ram, Ident(f)) == f * PAGE_SIZE + STACK_FLAGS
    ensures OwnsStack(w2, f * PAGE_SIZE) && f * PAGE_SIZE / PAGE_SIZE == f
    ensures f < |w.used| && !w.used[f]
  {
    hide LeafEntry, Ident;
  }

  lemma CycleLeaves(w: World, w2: World, w3: World, f: nat)
    requires SameLeavesBut(w.ram, w2.ram, Ident(f)) && LeafEntry(w.ram, Ident(f)) == 0
    requires RangeUnmapped(w2, w3, f * PAGE_SIZE, 1) && forall q :: InRange(q, f * PAGE_SIZE, 1) <==> q == Ident(f)
    ensures SameLeaves(w.ram, w3.ram)
  {
    hide LeafEntry, PageAt, InRange;
  }

  lemma CycleMarks(w: World, w2: World, w3: World, f: nat)
    requires Inv(w) && Inv(w2) && Inv(w3) && Grows(w, w2) && MarksBeside(w, w2, f) && OwnsStack(w2, f * PAGE_SIZE)
    requires f < |w.used| && !w.used[f]
    requires RangeUnmapped(w2, w3, f * PAGE_SIZE, 1) && forall q :: InRange(q, f * PAGE_SIZE, 1) <==> q == Ident(f)
    ensures |w3.used| == FRAMES && |w.used| == FRAMES
    ensures forall g :: 0 <= g < FRAMES ==>
      (w3.used[g] <==> w.used[g] || (TableFrame(w3.ram, g) && !TableFrame(w.ram, g)))
    ensures forall g :: 0 <= g < FRAMES && TableFrame(w.ram, g) ==> TableFrame(w3.ram, g)
  {
    hide LeafEntry, Inv, PageAt, InRange, TableFrame, Ident, Walk;
    InvShape(w);
    InvShape(w2);
    InvShape(w3);
    assert f * PAGE_SIZE / PAGE_SIZE == f;
    LiveUnique(w2, Ident(f), f);
    forall g | 0 <= g < FRAMES
      ensures w3.used[g] <==> w.used[g] || (TableFrame(w3.ram, g) && !TableFrame(w.ram, g))
      ensures TableFrame(w.ram, g) ==> TableFrame(w3.ram, g)
    {
      TableFrameIsTable(w, g);
      TableFrameIsTable(w3, g);
    }
  }
}

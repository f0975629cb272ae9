/** What the kernel's own memory management does to the words on the tasks' stacks: nothing. */
module StackContents {
  import opened Words
  import opened PageTables
  import opened PageSteps
  import opened PageRanges
  import opened PageUndo
  import opened PageRuns
  import opened PageManager
  import opened HeapBlocks
  import opened HeapManager
  import opened HeapRuns
  import opened TaskSystem
  import T = TaskRing

  /** Unmapping a removable page writes to page tables only. */
  lemma UnmapPageKeeps(w: World, p: seq<nat>, f: nat)
    requires Inv(w) && IsPage(p) && p != WINDOW && Removable(w, p) && f < FRAMES && !IsTable(w, f)
    ensures |w.ram| == FRAMES == |UnmapPage(w, p).ram| && UnmapPage(w, p).ram[f] == w.ram[f]
  {
    hide Inv, Walk, LeafEntry, MarkIndex, UnmapPlace, Removable;
    InvShape(w);
    LowFacts(w);
    MissingTable(w.ram, p);
    EmptyPath(w);
    if Walk(w.ram, p[..3]).Some? {
      TableAt(w, p[..3]);
      RemovableInside(w, p);
      UnmapInside(w, p, Walk(w.ram, p[..3]).value);
    }
  }

  lemma EmptyPath(w: World)
    requires Inv(w)
    ensures IsTable(w, 5)
  {
    LowTables(w.ram, w.owner);
  }

  lemma {:induction false} UnmapPagesKeep(w: World, virt: nat, n: nat, f: nat)
    requires Inv(w) && AvoidsWindow(virt, n) && AllRemovable(w, virt, n) && n <= PAGES_IN_SPACE
    requires f < FRAMES && !IsTable(w, f)
    ensures |w.ram| == FRAMES == |UnmapPages(w, virt, n).ram| && UnmapPages(w, virt, n).ram[f] == w.ram[f]
    decreases n
  {
    hide Inv, Walk, LeafEntry, PageAt, UnmapPage, Removable, InRange;
    InvShape(w);
    if n > 0 {
      var w1 := UnmapPages(w, virt, n - 1);
      RangeGrows(virt, n);
      UnmapPagesInv(w, virt, n - 1);
      UnmapPagesKeep(w, virt, n - 1, f);
      InsideRange(virt, n - 1, n);
      StillRemovable(w, w1, virt, n);
      UnmapPageKeeps(w1, PageAt(virt, n - 1), f);
    }
  }

  /** Every legal page call leaves the contents of owned memory alone. */
  lemma PageCallKeeps(w: World, op: Op, f: nat)
    requires Inv(w) && Legal(w, op) && f in w.owner && !w.owner[f].Table?
    ensures f < FRAMES == |w.ram| == |PageRuns.Do(w, op).ram| && PageRuns.Do(w, op).ram[f] == w.ram[f]
  {
    hide Inv, LeafEntry, PageAt, MapPages, MapPhysPages, UnmapPages, Alloc4K, TablesMade, PhysTablesMade, FreeCount, Missing,
      Live, FreshPage, Claim, FirstFree, Ident, Walk, SameLeaves, RangeMapped;
    InvShape(w);
    OwnedIsFrame(w, f);
    match op
    case GetFrame =>
      if FreeCount(w.used) > 0 {
        ClaimInv(w);
      } else {
        NoFrameLeft(w);
      }
    case AllocOp(flags) => Alloc4KInv(w, flags);
    case MapV(virt, length, flags) => MapPagesInv(w, virt, PageCount(length), flags);
    case MapVP(virt, phys, length, flags) => MapPhysPagesInv(w, virt, phys, PageCount(length), flags);
    case UmapV(virt, length) => UnmapPagesKeep(w, virt, PageCount(length), f);
  }

  lemma OwnedIsFrame(w: World, f: nat)
    requires Inv(w) && f in w.owner
    ensures f < FRAMES
  {
    hide Walk, LeafEntry, LeavesAreMapped, EntriesArePresent, TablesAreWalked, WalksAreTables;
  }

  lemma HeapCallKeeps(s: Sys, op: HeapOp, f: nat)
    requires SysInv(s) && Allowed(s, HeapCall(op)) && f in s.world.owner && !s.world.owner[f].Table?
    ensures f < FRAMES == |s.world.ram| == |HeapWorld(s, op).ram| && HeapWorld(s, op).ram[f] == s.world.ram[f]
  {
    hide Inv, LeafEntry, PageOf, MapPages, TablesMade, FreeCount, HeapMapped, AvoidsWindow, Tiled, NewAlloc, RangeMapped;
    InvShape(s.world);
    OwnedIsFrame(s.world, f);
    if op.Allocate? && op.size > 0 {
      var n := PagesFor(s.heap, op.size);
      AllocatedSize(s.heap, op.size);
      BehindAvoids(s.heap.start, s.heap.size, n);
      MapPagesInv(s.world, s.heap.start + s.heap.size, n, HEAP_FLAGS);
    }
  }

  /** The memory behind a task's stack page. */
  ghost predicate HasStack(k: Kernel, f: nat) {
    exists i :: 0 < i < |k.ring.list| && k.ring.list[i].provider == f * PAGE_SIZE
  }

  lemma StackFrame(k: Kernel, f: nat)
    requires KernelInv(k) && HasStack(k, f)
    ensures SysInv(k.sys) && f in k.sys.world.owner && !k.sys.world.owner[f].Table?
  {
    hide SysInv, T.Sound, HeapAbove, LowIsIdentity, HasBlock;
    var i :| 0 < i < |k.ring.list| && k.ring.list[i].provider == f * PAGE_SIZE;
    assert OwnsStack(k.sys.world, k.ring.list[i].provider) && f * PAGE_SIZE / PAGE_SIZE == f;
  }

  /** Creations, exits, ticks, reaping, and other heap and page calls leave every word of every task's stack page as
      it was, the page of the task being reaped included. */
  lemma StackContentsKept(k: Kernel, op: KernelOp, f: nat)
    requires KernelInv(k) && k.ring.cur < |k.ring.list| && Possible(k, op) && HasStack(k, f)
    ensures f < FRAMES == |k.sys.world.ram| == |Act(k, op).sys.world.ram|
    ensures Act(k, op).sys.world.ram[f] == k.sys.world.ram[f]
  {
    hide KernelInv, HasStack, SysInv, CanCreate, Respects, DescriptorAt, CreateTask, TickTask, Step;
    StackFrame(k, f);
    match op
    case CreateOp => CreateKeeps(k, f);
    case ExitOp => WorldFrame(k.sys, f);
    case TickOp(b) => TickKeeps(k, b, f);
    case OtherOp(o) => OtherKeeps(k, o, f);
  }

  lemma WorldFrame(s: Sys, f: nat)
    requires SysInv(s) && f in s.world.owner
    ensures f < FRAMES == |s.world.ram|
  {
    hide Inv, Tiled, HeapMapped, AvoidsWindow;
    InvShape(s.world);
    OwnedIsFrame(s.world, f);
  }

  lemma OtherKeeps(k: Kernel, op: SysOp, f: nat)
    requires SysInv(k.sys) && Respects(k, op) && f in k.sys.world.owner && !k.sys.world.owner[f].Table?
    ensures f < FRAMES == |k.sys.world.ram| == |Step(k.sys, op).world.ram| && Step(k.sys, op).world.ram[f] == k.sys.world.ram[f]
  {
    hide Inv, Tiled, HeapMapped, AvoidsWindow, HeapAbove, Legal, Safe, HasRoom, Returns, Call, HeapWorld, Live, Missing, Do;
    match op
    case HeapCall(c) => HeapCallKeeps(k.sys, c, f);
    case PageCall(c) => PageCallKeeps(k.sys.world, c, f);
  }

  lemma CreateKeeps(k: Kernel, f: nat)
    requires KernelInv(k) && CanCreate(k) && f in k.sys.world.owner && !k.sys.world.owner[f].Table?
    ensures f < FRAMES == |k.sys.world.ram| == |CreateTask(k).sys.world.ram|
    ensures CreateTask(k).sys.world.ram[f] == k.sys.world.ram[f]
  {
    hide Inv, LeafEntry, FreeCount, Missing, HeapMapped, Tiled, NewAlloc, AllocPtr, LowIsIdentity, FirstFree, AvoidsWindow,
      Alloc4K, HeapWorld, FreshPage, MarksBeside, SameLeavesBut, HasRoom, StacksOwned, T.Sound, HeapAbove, Live, NewStack;
    var t := Step(k.sys, HeapCall(Allocate(TASK_SIZE)));
    DescriptorAllocated(k.sys);
    EnoughFrames(t.world);
    AllocIsClear(t.world);
    Alloc4KInv(t.world, STACK_FLAGS);
    InvShape(k.sys.world);
    OwnedIsFrame(k.sys.world, f);
  }

  lemma TickKeeps(k: Kernel, b: nat, f: nat)
    requires KernelInv(k) && k.ring.cur < |k.ring.list| && DescriptorAt(k, b)
    requires SysInv(k.sys) && f in k.sys.world.owner && !k.sys.world.owner[f].Table?
    ensures f < FRAMES == |k.sys.world.ram| == |TickTask(k, b).sys.world.ram|
    ensures TickTask(k, b).sys.world.ram[f] == k.sys.world.ram[f]
  {
    hide KernelInv, SysInv, UnmapPages, Free, OwnsBlock, T.Tick, T.Skips;
    WorldFrame(k.sys, f);
    if !k.ring.list[k.ring.cur].running {
      ReapKeeps(k, f);
    }
  }

  lemma ReapKeeps(k: Kernel, f: nat)
    requires KernelInv(k) && k.ring.cur < |k.ring.list| && !k.ring.list[k.ring.cur].running
    requires f in k.sys.world.owner && !k.sys.world.owner[f].Table?
    ensures var w' := UnmapPages(k.sys.world, k.ring.list[k.ring.cur].provider, 1);
      f < FRAMES == |w'.ram| == |k.sys.world.ram| && w'.ram[f] == k.sys.world.ram[f]
  {
    hide Inv, LeafEntry, PageOf, HeapMapped, Tiled, AvoidsWindow, HeapAbove, UnmapPages, AllRemovable, Live, LowIsIdentity, HasBlock,
      Walk, OwnsStack;
    var w, p := k.sys.world, k.ring.list[k.ring.cur].provider;
    assert OwnsStack(w, p);
    OwnedIsFrame(w, f);
    StackIsMapped(w, p);
    OwnedProvider(w, p);
    OnePage(p);
    StackRange(w, p);
    UnmapPagesKeep(w, p, 1, f);
  }

  /** A tick that reaps leaves nothing open in the window: if it comes between `page_mapframe` and the store that was to
      follow, that store faults. Page calls are therefore whole steps in every run. */
  lemma ReapShutsWindow(k: Kernel)
    requires KernelInv(k) && k.ring.cur < |k.ring.list| && !k.ring.list[k.ring.cur].running
    ensures Walk(UnmapPages(k.sys.world, k.ring.list[k.ring.cur].provider, 1).ram, WINDOW) == None
  {
    hide Inv, LeafEntry, PageOf, HeapMapped, Tiled, AvoidsWindow, HeapAbove, UnmapPage, Live, LowIsIdentity, HasBlock, Walk, OwnsStack;
    var w, p := k.sys.world, k.ring.list[k.ring.cur].provider;
    assert OwnsStack(w, p);
    StackIsMapped(w, p);
    OwnedProvider(w, p);
    OnePage(p);
    WalkedTable(w.ram, PageOf(p));
    assert UnmapPages(w, p, 0) == w;
    UnmapShutsWindow(w, PageOf(p));
  }

  lemma WalkedTable(ram: Ram, p: seq<nat>)
    requires |p| == 4 && Walk(ram, p).Some?
    ensures Walk(ram, p[..3]).Some?
  {
  }

  lemma OwnedProvider(w: World, p: nat)
    requires Inv(w) && OwnsStack(w, p)
    ensures p % PAGE_SIZE == 0 && p / PAGE_SIZE < FRAMES
  {
    hide Inv;
    OwnedIsFrame(w, p / PAGE_SIZE);
  }

  /** A task has its stack on frame `f` in every state of the run. */
  ghost predicate StackThroughout(k: Kernel, ops: seq<KernelOp>, f: nat)
    requires PossibleRun(k, ops)
    decreases |ops|
  {
    HasStack(k, f) && (ops == [] || StackThroughout(Act(k, ops[0]), ops[1..], f))
  }

  /** Over whole runs, for as long as the stack is in use. */
  lemma {:induction false} StackContentsSurvive(k: Kernel, ops: seq<KernelOp>, f: nat)
    requires KernelInv(k) && PossibleRun(k, ops) && StackThroughout(k, ops, f)
    ensures f < FRAMES == |k.sys.world.ram| == |RunKernel(k, ops).sys.world.ram|
    ensures RunKernel(k, ops).sys.world.ram[f] == k.sys.world.ram[f]
    decreases |ops|
  {
    hide KernelInv, Possible, Act, HasStack, SysInv;
    StackFrame(k, f);
    WorldFrame(k.sys, f);
    if ops != [] {
      StackContentsKept(k, ops[0], f);
      ActInv(k, ops[0]);
      StackContentsSurvive(Act(k, ops[0]), ops[1..], f);
    }
  }

  /** The condition on the pages unmapped is needed. With a task's stack on frame `g`, unmapping a page that is mapped
      to the start of the (g - 6)-th 128 MiB, 0x80000000 for frame 0x16, clears a bit on that stack. */
  lemma UnmapReachesStack(k: Kernel, q: seq<nat>, g: nat)
    requires KernelInv(k) && HasStack(k, g) && BITMAP_FRAME < g < FRAMES
    requires IsPage(q) && q != WINDOW && q != Ident(g) && Walk(k.sys.world.ram, q[..3]).Some?
    requires LeafEntry(k.sys.world.ram, q) / PAGE_SIZE == (g - BITMAP_FRAME) * FRAMES && Get(k.sys.world.ram, g, 0) % 2 == 1
    ensures Get(UnmapPage(k.sys.world, q).ram, g, 0) != Get(k.sys.world.ram, g, 0)
    ensures !Removable(k.sys.world, q)
  {
    hide KernelInv, Inv, Walk, LeafEntry, HasStack, UnmapPage, Live, Removable, SysInv, UnmapPlace;
    var w := k.sys.world;
    StackFrame(k, g);
    InvOfSys(k.sys);
    IdentityWalk(k, g);
    UnmapReachesMemory(w, q, g);
    if Removable(w, q) {
      RemovableInside(w, q);
      UnmapInside(w, q, Walk(w.ram, q[..3]).value);
      StoreHitsIdentityPage(w, q, g);
      assert false;
    }
  }

  lemma InvOfSys(s: Sys)
    requires SysInv(s)
    ensures Inv(s.world)
  {
  }

  lemma IdentityWalk(k: Kernel, g: nat)
    requires KernelInv(k) && HasStack(k, g)
    ensures Walk(k.sys.world.ram, Ident(g)) == Some(g)
  {
    hide Inv, Walk, SysInv, T.Sound, HeapAbove, LowIsIdentity, HasBlock, Ident;
    var i :| 0 < i < |k.ring.list| && k.ring.list[i].provider == g * PAGE_SIZE;
    InvOfSys(k.sys);
    assert OwnsStack(k.sys.world, k.ring.list[i].provider) && g * PAGE_SIZE / PAGE_SIZE == g;
    LiveWalk(k.sys.world, Ident(g), g);
  }
}

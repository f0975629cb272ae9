/** A task's whole life as the kernel sees it: created, scheduled, exited, reaped; and what that leaves behind. */
module TaskCycle {
  import opened Words
  import opened PageTables
  import opened PageSteps
  import opened PageRanges
  import opened PageUndo
  import opened PageRuns
  import opened HeapBlocks
  import opened HeapManager
  import opened HeapRuns
  import opened TaskSystem
  import T = TaskRing

  function TickOps(n: nat, b: nat): seq<KernelOp> {
    if n == 0 then [] else [TickOp(b)] + TickOps(n - 1, b)
  }

  /** Creation, n ticks, the exit of the task then running, and one more tick. */
  function CycleOps(n: nat, b: nat): seq<KernelOp> {
    [CreateOp] + (TickOps(n, b) + [ExitOp, TickOp(b)])
  }

  predicate AllRunning(l: seq<T.Task>) {
    forall i :: 0 <= i < |l| ==> l[i].running
  }

  /** n ticks on a list where nobody has exited. */
  function Ticked(r: T.Ring, n: nat): T.Ring
    decreases n
  {
    if n == 0 || r.cur >= |r.list| then r else Ticked(T.Tick(r), n - 1)
  }

  lemma RunningTick(r: T.Ring)
    requires T.Sound(r) && AllRunning(r.list)
    ensures T.Tick(r).list == r.list && T.Tick(r).nextId == r.nextId && r.cur < |r.list|
  {
  }

  /** Ticks while every task is running move on and count, and touch no memory. */
  lemma {:induction false} RunningTicks(k: Kernel, n: nat, b: nat, ops: seq<KernelOp>)
    requires KernelInv(k) && AllRunning(k.ring.list) && PossibleRun(k, TickOps(n, b) + ops)
    ensures var t := k.(ring := Ticked(k.ring, n));
      && KernelInv(t) && t.ring.list == k.ring.list && PossibleRun(t, ops)
      && RunKernel(k, TickOps(n, b) + ops) == RunKernel(t, ops)
    decreases n
  {
    hide KernelInv, Possible, T.Tick, AllRunning, T.Sound;
    KernelCurrent(k);
    if n == 0 {
      assert TickOps(0, b) + ops == ops && k.(ring := k.ring) == k;
    } else {
      var all := TickOps(n, b) + ops;
      assert all[0] == TickOp(b) && all[1..] == TickOps(n - 1, b) + ops;
      var k1 := k.(ring := T.Tick(k.ring));
      ActInv(k, TickOp(b));
      KernelIsSound(k);
      RunningTick(k.ring);
      TickMovesOn(k, b);
      RunningTicks(k1, n - 1, b, ops);
    }
  }

  lemma TickMovesOn(k: Kernel, b: nat)
    requires k.ring.cur < |k.ring.list| && AllRunning(k.ring.list) && Possible(k, TickOp(b))
    ensures Act(k, TickOp(b)) == k.(ring := T.Tick(k.ring))
  {
    hide T.Tick, DescriptorAt, ReapMemory;
  }

  // ---------------------------------------------------------------- the list

  lemma CreatedRing(r: T.Ring, addr: nat, provider: nat)
    requires T.Sound(r) && AllRunning(r.list)
    ensures var c := T.Create(r, addr, provider);
      && AllRunning(c.list) && |c.list| == |r.list| + 1 && c.list[..|r.list|] == r.list && c.list[|r.list|].provider == provider
      && c.list[|r.list|].addr == addr && c.list[|r.list|].id == r.nextId != 0
  {
  }

  /** The last task exits and the next switching tick takes it off the list again. */
  lemma LastLeaves(r: T.Ring)
    requires |r.list| > 1 && r.cur == |r.list| - 1 && r.list[r.cur].id != 0 && !T.Skips((r.time + 1) % DWORD_LIMIT)
    ensures !T.Exit(r).list[r.cur].running && T.Exit(r).cur == r.cur < |T.Exit(r).list| && T.Exit(r).time == r.time
    ensures T.Exit(r).list[r.cur].provider == r.list[r.cur].provider && T.Exit(r).list[r.cur].addr == r.list[r.cur].addr
    ensures T.Tick(T.Exit(r)).list == r.list[..r.cur] && T.Tick(T.Exit(r)).cur == 0
  {
  }

  // ---------------------------------------------------------------- the cycle

  /** How many pages the heap grows by for the descriptor, and where. */
  function Growth(k: Kernel): nat
    requires Satisfiable(k.sys.heap, TASK_SIZE + HEADER)
  {
    PagesFor(k.sys.heap, TASK_SIZE)
  }

  function HeapEnd(k: Kernel): nat {
    k.sys.heap.start + k.sys.heap.size
  }

  /** The memory behind one of the n pages from `virt` on. */
  ghost predicate BehindRange(w: World, virt: nat, n: nat, f: nat) {
    exists i :: 0 <= i < n && LeafEntry(w.ram, PageAt(virt, i)) / PAGE_SIZE == f
  }

  /** The pages the new task is to use are not in use for something else. */
  ghost predicate CleanCreate(k: Kernel) {
    && CanCreate(k) && RangeEmpty(k.sys.world, HeapEnd(k), Growth(k))
    && var w := HeapWorld(k.sys, Allocate(TASK_SIZE)); LeafEntry(w.ram, Ident(FirstFree(w.used))) == 0
  }

  /** Same translations as before except for the pages by which the heap grew. */
  ghost predicate SameButGrowth(w: World, w': World, virt: nat, n: nat) {
    forall p :: IsPage(p) && p != WINDOW && !InRange(p, virt, n) ==> LeafEntry(w'.ram, p) == LeafEntry(w.ram, p)
  }

  /** Marked afterwards: what was marked before, tables created meanwhile, and the memory of the growth. */
  ghost predicate MarksButGrowth(w: World, w': World, virt: nat, n: nat) {
    && |w.used| == FRAMES && |w'.used| == FRAMES
    && forall f :: 0 <= f < FRAMES ==>
         (w'.used[f] <==> w.used[f] || (TableFrame(w'.ram, f) && !TableFrame(w.ram, f)) || BehindRange(w', virt, n, f))
  }

  /** A task that is created, runs when its turn comes, exits and is reaped leaves the task list as it was, the same
      heap blocks in use, every translation but those of heap growth, and marks only for page tables and that growth. */
  lemma CreateExitReap(k: Kernel, n: nat, b: nat)
    requires KernelInv(k) && CleanCreate(k) && AllRunning(k.ring.list) && PossibleRun(k, CycleOps(n, b))
    requires var r := Ticked(CreateTask(k).ring, n);
      r.cur == |k.ring.list| && !T.Skips((r.time + 1) % DWORD_LIMIT)
    ensures var u := RunKernel(k, CycleOps(n, b));
      && u.ring.list == k.ring.list && u.ring.cur == 0
      && (forall x :: InUse(u.sys.heap, x) <==> InUse(k.sys.heap, x))
      && SameButGrowth(k.sys.world, u.sys.world, HeapEnd(k), Growth(k))
      && MarksButGrowth(k.sys.world, u.sys.world, HeapEnd(k), Growth(k))
  {
    hide KernelInv, CleanCreate, T.Tick, Ticked, CreateTask, TickTask, PossibleRun, RunKernel, InUse, SameButGrowth, MarksButGrowth,
      T.Skips, OwnsBlock, ReapMemory, AllocPtr, NewStack, CreateMemory, AllRunning, T.Sound;
    CreationCan(k);
    CreatedParts(k);
    KernelCurrent(k);
    KernelIsSound(k);
    CreatedRing(k.ring, AllocPtr(k.sys.heap, TASK_SIZE), NewStack(k.sys));
    CycleRun(k, n, b);
    LastLeaves(Scheduled(k, n).ring);
    LastTick(ExitedAt(k, n), b);
    CycleMemory(k, b);
  }

  /** The kernel when the new task runs for the first time, and once it has exited. */
  function Scheduled(k: Kernel, n: nat): Kernel
    requires Satisfiable(k.sys.heap, TASK_SIZE + HEADER)
  {
    CreateTask(k).(ring := Ticked(CreateTask(k).ring, n))
  }

  function ExitedAt(k: Kernel, n: nat): Kernel
    requires Satisfiable(k.sys.heap, TASK_SIZE + HEADER) && Scheduled(k, n).ring.cur < |Scheduled(k, n).ring.list|
  {
    Scheduled(k, n).(ring := T.Exit(Scheduled(k, n).ring))
  }

  lemma CycleRun(k: Kernel, n: nat, b: nat)
    requires KernelInv(k) && CleanCreate(k) && AllRunning(k.ring.list) && PossibleRun(k, CycleOps(n, b))
    ensures var t := Scheduled(k, n);
      && t.ring.list == CreateTask(k).ring.list && t.ring.cur < |t.ring.list|
      && ExitedAt(k, n).ring.cur < |ExitedAt(k, n).ring.list| && Possible(ExitedAt(k, n), TickOp(b))
      && RunKernel(k, CycleOps(n, b)) == TickTask(ExitedAt(k, n), b)
  {
    hide KernelInv, CleanCreate, T.Tick, T.Exit, Ticked, CreateTask, TickTask, AllRunning, PossibleRun, RunKernel, TickOps,
      OwnsBlock, T.Skips, CanCreate, Respects;
    CreationCan(k);
    FirstOp(k, CreateOp, TickOps(n, b) + [ExitOp, TickOp(b)]);
    CreateKernelInv(k);
    KernelIsSound(k);
    StillRunning(k);
    RunningTicks(CreateTask(k), n, b, [ExitOp, TickOp(b)]);
    KernelCurrent(Scheduled(k, n));
    assert [ExitOp] + [TickOp(b)] == [ExitOp, TickOp(b)] && [TickOp(b)] + [] == [TickOp(b)];
    FirstOp(Scheduled(k, n), ExitOp, [TickOp(b)]);
    FirstOp(ExitedAt(k, n), TickOp(b), []);
    NothingLeft(TickTask(ExitedAt(k, n), b));
  }

  lemma StillRunning(k: Kernel)
    requires CanCreate(k) && T.Sound(k.ring) && AllRunning(k.ring.list)
    ensures AllRunning(CreateTask(k).ring.list)
  {
    hide AllRunning, T.Sound, AllocPtr, NewStack, CreateMemory;
    CreatedParts(k);
    CreatedRing(k.ring, AllocPtr(k.sys.heap, TASK_SIZE), NewStack(k.sys));
  }

  lemma FirstOp(k: Kernel, op: KernelOp, ops: seq<KernelOp>)
    requires PossibleRun(k, [op] + ops)
    ensures k.ring.cur < |k.ring.list| && Possible(k, op) && PossibleRun(Act(k, op), ops)
    ensures RunKernel(k, [op] + ops) == RunKernel(Act(k, op), ops)
  {
    hide Possible, Act;
    assert ([op] + ops)[1..] == ops && ([op] + ops)[0] == op;
  }

  lemma NothingLeft(k: Kernel)
    ensures PossibleRun(k, []) && RunKernel(k, []) == k
  {
  }

  lemma CreationCan(k: Kernel)
    requires CleanCreate(k)
    ensures CanCreate(k) && Satisfiable(k.sys.heap, TASK_SIZE + HEADER)
  {
    hide Satisfiable;
  }

  lemma CreatedParts(k: Kernel)
    requires CanCreate(k)
    ensures CreateTask(k).ring == T.Create(k.ring, AllocPtr(k.sys.heap, TASK_SIZE), NewStack(k.sys))
    ensures CreateTask(k).sys == CreateMemory(k.sys)
  {
  }

  /** The tick that reaps. */
  lemma LastTick(k: Kernel, b: nat)
    requires k.ring.cur < |k.ring.list| && Possible(k, TickOp(b)) && !k.ring.list[k.ring.cur].running
    requires !T.Skips((k.ring.time + 1) % DWORD_LIMIT)
    ensures b < |k.sys.heap.blocks| && OwnsBlock(k.sys.heap, k.ring.list[k.ring.cur].addr, b)
    ensures TickTask(k, b).ring == T.Tick(k.ring)
    ensures TickTask(k, b).sys == ReapMemory(k.sys, k.ring.list[k.ring.cur].provider, b)
  {
    hide ReapMemory, OwnsBlock;
  }

  // ---------------------------------------------------------------- what the memory looks like afterwards

  lemma CycleMemory(k: Kernel, b: nat)
    requires KernelInv(k) && CleanCreate(k) && OwnsBlock(CreateMemory(k.sys).heap, AllocPtr(k.sys.heap, TASK_SIZE), b)
    ensures var u := ReapMemory(CreateMemory(k.sys), NewStack(k.sys), b);
      && (forall x :: InUse(u.heap, x) <==> InUse(k.sys.heap, x))
      && SameButGrowth(k.sys.world, u.world, HeapEnd(k), Growth(k))
      && MarksButGrowth(k.sys.world, u.world, HeapEnd(k), Growth(k))
  {
    hide Inv, LeafEntry, PageOf, FreeCount, Missing, HeapMapped, Tiled, NewAlloc, AllocPtr, LowIsIdentity, FirstFree, AvoidsWindow,
      InUse, SameLeaves, TableFrame, Grows, HeapAbove, MapPages, TablesMade, T.Sound, StacksOwned, RangeMarks, RangeMapped,
      ReapMemory, CreateMemory, NewStack, RangeEmpty, SameButGrowth, MarksButGrowth;
    var s, m := k.sys, Growth(k);
    var w, u := HeapWorld(s, Allocate(TASK_SIZE)), ReapMemory(CreateMemory(s), NewStack(s), b);
    CreateThenReap(s, b);
    DescriptorAllocated(s);
    AllocatedSize(s.heap, TASK_SIZE);
    BehindAvoids(s.heap.start, s.heap.size, m);
    ReapedShape(s, b);
    MapPagesInv(s.world, HeapEnd(k), m, HEAP_FLAGS);
    GrowthFew(s.world, m, TablesMade(s.world, HeapEnd(k), m, HEAP_FLAGS));
    MapPagesMarks(s.world, HeapEnd(k), m, HEAP_FLAGS);
    GrowthLeaves(s.world, w, u.world, HeapEnd(k), m);
    GrowthMarks(s.world, w, u.world, HeapEnd(k), m);
  }

  lemma GrowthFew(w: World, m: nat, tables: nat)
    requires Inv(w) && FreeCount(w.used) >= m + tables
    ensures m <= PAGES_IN_SPACE
  {
    hide FreeCount, WalksAreTables, TablesAreWalked, LeavesAreMapped, EntriesArePresent;
    FreeAtMost(w.used);
  }

  lemma {:induction false} FreeAtMost(used: seq<bool>)
    ensures FreeCount(used) <= |used|
  {
    if used != [] {
      FreeAtMost(used[..|used| - 1]);
    }
  }

  lemma ReapedShape(s: Sys, b: nat)
    requires SysInv(s) && LowIsIdentity(s.world) && Allowed(s, HeapCall(Allocate(TASK_SIZE)))
    requires HeapAbove(NewAlloc(s.heap, TASK_SIZE))
    requires var w := HeapWorld(s, Allocate(TASK_SIZE));
      FreeCount(w.used) > Missing(w.ram, Ident(FirstFree(w.used)), 3) && LeafEntry(w.ram, Ident(FirstFree(w.used))) == 0
    requires OwnsBlock(CreateMemory(s).heap, AllocPtr(s.heap, TASK_SIZE), b)
    ensures |ReapMemory(CreateMemory(s), NewStack(s), b).world.used| == FRAMES
  {
    hide Inv, LeafEntry, PageOf, FreeCount, Missing, HeapMapped, Tiled, NewAlloc, AllocPtr, LowIsIdentity, FirstFree, AvoidsWindow,
      Alloc4K, UnmapPages, Free, SameLeaves, TableFrame, HasRoom, Grows, HeapAbove;
    DescriptorAllocated(s);
    WorldAfterCycle(HeapWorld(s, Allocate(TASK_SIZE)));
  }

  lemma GrowthLeaves(a: World, w: World, u: World, virt: nat, n: nat)
    requires RangeMapped(a, w, virt, n, HEAP_FLAGS) && SameLeaves(w.ram, u.ram)
    ensures SameButGrowth(a, u, virt, n)
  {
    hide LeafEntry, InRange, FreshPage;
  }

  lemma GrowthMarks(a: World, w: World, u: World, virt: nat, n: nat)
    requires Inv(a) && Inv(w) && Grows(a, w) && RangeEmpty(a, virt, n) && AvoidsWindow(virt, n)
    requires RangeMapped(a, w, virt, n, HEAP_FLAGS) && RangeMarks(a, w, virt, n) && SameLeaves(w.ram, u.ram)
    requires |u.used| == FRAMES
    requires forall f :: 0 <= f < FRAMES ==>
      (f < |u.used| && u.used[f] <==> (f < |w.used| && w.used[f]) || (TableFrame(u.ram, f) && !TableFrame(w.ram, f)))
    requires forall f :: 0 <= f < FRAMES && TableFrame(w.ram, f) ==> TableFrame(u.ram, f)
    ensures MarksButGrowth(a, u, virt, n)
  {
    hide Inv, LeafEntry, PageAt, TableFrame, RangeMarks, RangeMapped, RangeEmpty, SameLeaves, AvoidsWindow, BehindRange;
    InvShape(a);
    InvShape(w);
    forall f | 0 <= f < FRAMES
      ensures u.used[f] <==> a.used[f] || (TableFrame(u.ram, f) && !TableFrame(a.ram, f)) || BehindRange(u, virt, n, f)
    {
      TableFrameIsTable(a, f);
      TableFrameIsTable(w, f);
      TablesMarked(a, f);
      TablesMarked(w, f);
      if BehindRange(u, virt, n, f) {
        GrowthIsMarked(a, w, u, virt, n, f);
      }
      if w.used[f] && !a.used[f] {
        NewlyMarked(a, w, u, virt, n, f);
      }
    }
  }

  lemma TablesMarked(w: World, f: nat)
    requires Inv(w) && f < FRAMES
    ensures |w.used| == FRAMES && (IsTable(w, f) ==> w.used[f])
  {
    hide Walk, LeafEntry, LeavesAreMapped, EntriesArePresent, TablesAreWalked, WalksAreTables;
  }

  lemma GrowthIsMarked(a: World, w: World, u: World, virt: nat, n: nat, f: nat)
    requires Inv(w) && RangeEmpty(a, virt, n) && AvoidsWindow(virt, n) && RangeMapped(a, w, virt, n, HEAP_FLAGS)
    requires SameLeaves(w.ram, u.ram) && BehindRange(u, virt, n, f)
    ensures f < |w.used| && w.used[f]
  {
    hide LeafEntry, PageAt, Walk, WalksAreTables, TablesAreWalked, LeavesAreMapped, EntriesArePresent;
    var i :| 0 <= i < n && LeafEntry(u.ram, PageAt(virt, i)) / PAGE_SIZE == f;
    assert InRange(PageAt(virt, i), virt, n);
    assert FreshPage(a, w, PageAt(virt, i), HEAP_FLAGS);
  }

  lemma NewlyMarked(a: World, w: World, u: World, virt: nat, n: nat, f: nat)
    requires Inv(w) && RangeMarks(a, w, virt, n) && SameLeaves(w.ram, u.ram) && AvoidsWindow(virt, n)
    requires f < |w.used| && w.used[f] && f < |a.used| && !a.used[f]
    ensures IsTable(w, f) || BehindRange(u, virt, n, f)
  {
    hide LeafEntry, PageAt, Walk, WalksAreTables, TablesAreWalked, EntriesArePresent, Inv, LeavesAreMapped;
    if !IsTable(w, f) {
      var p := w.owner[f].page;
      LiveEntry(w, p, f);
      LiveIsPage(w, p, f);
      var i :| 0 <= i < n && PageAt(virt, i) == p;
      assert LeafEntry(u.ram, PageAt(virt, i)) == LeafEntry(w.ram, p);
    }
  }

  lemma LiveIsPage(w: World, p: seq<nat>, f: nat)
    requires Inv(w) && f in w.owner && w.owner[f] == Leaf(p)
    ensures IsPage(p) && p != WINDOW
  {
  }
}

/** The scheduler as it runs: task records linked by address, walked and relinked in place
    (`kernel/process/task.c`, `kernel/process/task.S`, `kernel/time.c`). */
module TaskManager {
  import opened Words
  import opened PageTables
  import opened PageSteps
  import opened PageRanges
  import opened PageRuns
  import opened PageManager
  import opened HeapBlocks
  import opened HeapManager
  import opened HeapRuns
  import opened TaskSystem
  import Registers
  import S = TaskSwitching
  import T = TaskRing

  const RUNNING: nat := 1
  const FRAME_SIZE: nat := Registers.FRAME     // cpu_register_t as pushed on the task's stack

  /** struct task_info_t. */
  datatype TaskInfo = TaskInfo(id: nat, provider: nat, stack: nat, flags: nat, signal: nat, next: nat)

  function NextOf(l: seq<T.Task>, k: nat): nat
    requires k < |l|
  {
    if k + 1 < |l| then l[k + 1].addr else NULL
  }

  predicate Records(info: TaskInfo, l: seq<T.Task>, k: nat)
    requires k < |l|
  {
    && info.id == l[k].id && info.provider == l[k].provider && (info.flags % 2 == 1 <==> l[k].running)
    && info.next == NextOf(l, k)
  }

  /** The records, followed by their links from kernel_task, are exactly the list. */
  ghost predicate LinkedTasks(tasks: map<nat, TaskInfo>, l: seq<T.Task>) {
    forall k :: 0 <= k < |l| ==> l[k].addr in tasks && Records(tasks[l[k].addr], l, k)
  }

  /** The stack pointers the records hold, by record address. */
  function SavedOf(tasks: map<nat, TaskInfo>): map<nat, nat> {
    map a | a in tasks :: tasks[a].stack
  }

  lemma LinkedAt(tasks: map<nat, TaskInfo>, r: T.Ring, k: nat)
    requires LinkedTasks(tasks, r.list) && T.Sound(r) && k < |r.list|
    ensures r.list[k].addr in tasks && Records(tasks[r.list[k].addr], r.list, k) && r.list[k].addr != NULL
  {
  }

  lemma LinkedAppend(tasks: map<nat, TaskInfo>, r: T.Ring, addr: nat, provider: nat, info: TaskInfo)
    requires LinkedTasks(tasks, r.list) && T.Sound(r)
    requires forall i :: 0 <= i < |r.list| ==> r.list[i].addr != addr
    requires info.id == r.nextId && info.provider == provider && info.flags % 2 == 1 && info.next == NULL
    ensures var last := r.list[|r.list| - 1].addr;
      LinkedTasks(tasks[addr := info][last := tasks[last].(next := addr)], T.Create(r, addr, provider).list)
  {
    hide T.Sound, LinkedTasks;
    SoundNonempty(r);
    var n := |r.list| - 1;
    var last := r.list[n].addr;
    LinkedAt(tasks, r, n);
    var t, m := tasks[addr := info][last := tasks[last].(next := addr)], T.Create(r, addr, provider).list;
    assert forall k :: 0 <= k <= n ==> m[k] == r.list[k];
    forall k | 0 <= k < |m| ensures m[k].addr in t && Records(t[m[k].addr], m, k) {
      if k < n {
        LinkedAt(tasks, r, k);
        DifferentRecords(r, k, n);
      } else if k > n {
        assert m[k] == T.Task(addr, r.nextId, provider, true);
      }
    }
    AreLinked(t, m);
  }

  lemma AreLinked(tasks: map<nat, TaskInfo>, l: seq<T.Task>)
    requires forall k :: 0 <= k < |l| ==> l[k].addr in tasks && Records(tasks[l[k].addr], l, k)
    ensures LinkedTasks(tasks, l)
  {
  }

  lemma SoundNonempty(r: T.Ring)
    requires T.Sound(r)
    ensures r.cur < |r.list|
  {
  }

  lemma DifferentRecords(r: T.Ring, i: nat, j: nat)
    requires T.Sound(r) && i < j < |r.list|
    ensures r.list[i].addr != r.list[j].addr
  {
  }

  lemma LinkedExit(tasks: map<nat, TaskInfo>, r: T.Ring, info: TaskInfo)
    requires LinkedTasks(tasks, r.list) && T.Sound(r) && r.list[r.cur].id != 0
    requires var old_info := tasks[r.list[r.cur].addr];
      info == old_info.(flags := info.flags, signal := info.signal) && info.flags % 2 == 0
    ensures LinkedTasks(tasks[r.list[r.cur].addr := info], T.Exit(r).list)
  {
    hide T.Sound, LinkedTasks;
    SoundNonempty(r);
    var t, m := tasks[r.list[r.cur].addr := info], T.Exit(r).list;
    forall k | 0 <= k < |m| ensures m[k].addr in t && Records(t[m[k].addr], m, k) {
      LinkedAt(tasks, r, k);
      if k < r.cur {
        DifferentRecords(r, k, r.cur);
      } else if k > r.cur {
        DifferentRecords(r, r.cur, k);
      }
    }
    AreLinked(t, m);
  }

  lemma LinkedStack(tasks: map<nat, TaskInfo>, r: T.Ring, rsp: nat)
    requires LinkedTasks(tasks, r.list) && T.Sound(r)
    ensures var a := r.list[r.cur].addr; LinkedTasks(tasks[a := tasks[a].(stack := rsp)], r.list)
  {
  }

  lemma LinkedRemove(tasks: map<nat, TaskInfo>, r: T.Ring)
    requires LinkedTasks(tasks, r.list) && T.Sound(r) && 0 < r.cur
    ensures var prev, a := r.list[r.cur - 1].addr, r.list[r.cur].addr;
      LinkedTasks(tasks[prev := tasks[prev].(next := tasks[a].next)], T.Remove(r).list)
  {
    hide T.Sound, LinkedTasks;
    SoundNonempty(r);
    LinkedAt(tasks, r, r.cur - 1);
    LinkedAt(tasks, r, r.cur);
    var prev, a := r.list[r.cur - 1].addr, r.list[r.cur].addr;
    var m := T.Remove(r).list;
    var t := tasks[prev := tasks[prev].(next := tasks[a].next)];
    forall k | 0 <= k < |m| ensures m[k].addr in t && Records(t[m[k].addr], m, k) {
      if k < r.cur {
        LinkedAt(tasks, r, k);
        if k < r.cur - 1 {
          DifferentRecords(r, k, r.cur - 1);
        }
      } else {
        LinkedAt(tasks, r, k + 1);
        DifferentRecords(r, r.cur - 1, k + 1);
      }
    }
    AreLinked(t, m);
  }

  /** Scheduler globals, with the heap that descriptors come from. */
  class Scheduler {
    const heap: KernelHeap
    const kernel_task: nat
    var tasks: map<nat, TaskInfo>
    var task_current: nat
    var task_next: nat
    var id_task: nat
    var time: nat
    ghost var ring: T.Ring

    ghost function Model(): Kernel
      reads this, heap, heap.paging, heap.paging.bitmap
    {
      Kernel(ring, Sys(heap.Model(), heap.paging.State()))
    }

    /** The saved stack pointers of all records. */
    ghost function Saved(): map<nat, nat>
      reads this`tasks
    {
      SavedOf(tasks)
    }

    ghost predicate Valid()
      reads this, heap, heap.paging, heap.paging.bitmap
    {
      && heap.Valid() && KernelInv(Model()) && LinkedTasks(tasks, ring.list)
      && ring.list[0].addr == kernel_task && ring.list[ring.cur].addr == task_current
      && ring.nextId == id_task && ring.time == time
    }

    /** `task_init`. */
    constructor TaskInit(heap: KernelHeap, kernel: nat, stackBottom: nat)
      requires heap.Valid() && 0 < kernel < heap.heap_start && LowIsIdentity(heap.paging.State()) && HeapAbove(heap.Model())
      ensures this.heap == heap && Valid() && ring == T.InitRing(kernel, stackBottom)
      ensures tasks == map[kernel := TaskInfo(0, stackBottom, stackBottom, 1, 0, 0)] && task_current == kernel_task == kernel
      ensures id_task == 1 && time == 0 && Saved() == map[kernel := stackBottom]
    {
      hide Inv, LinkedTasks, T.Sound, SysInv, LowIsIdentity, HeapAbove, StacksOwned, KernelInv, Tiled, HeapMapped, PageOf,
        LeafEntry, AvoidsWindow, HeapManager.Linked;
      this.heap := heap;
      kernel_task := kernel;
      tasks := map[kernel := TaskInfo(0, stackBottom, stackBottom, RUNNING, 0, NULL)];
      task_current := kernel;
      task_next := kernel;
      id_task := 1;
      time := 0;
      ring := T.InitRing(kernel, stackBottom);
      HeapIsInv(Sys(heap.Model(), heap.paging.State()));
      InitKernel(kernel, stackBottom, Sys(heap.Model(), heap.paging.State()));
    }

    /** The loop at the end of `task_create_impl`: walk to the last record. */
    method LastTask() returns (crt: nat)
      requires T.Sound(ring) && LinkedTasks(tasks, ring.list) && ring.list[0].addr == kernel_task
      ensures crt == ring.list[|ring.list| - 1].addr
    {
      crt := kernel_task;
      ghost var k := 0;
      LinkedAt(tasks, ring, 0);
      while tasks[crt].next != NULL
        invariant k < |ring.list| && crt == ring.list[k].addr && crt in tasks && Records(tasks[crt], ring.list, k)
        decreases |ring.list| - k
      {
        NextIsListed(tasks, ring, k);
        crt := tasks[crt].next;
        k := k + 1;
        LinkedAt(tasks, ring, k);
      }
      LastIsLast(tasks, ring, k);
    }

    /** Lines 43-61 and 93-117: fill the new record in and link it behind the last one. */
    method AppendTask(new_task: nat, provider: nat)
      requires T.Sound(ring) && LinkedTasks(tasks, ring.list) && ring.list[0].addr == kernel_task && ring.nextId == id_task
      requires forall i :: 0 <= i < |ring.list| ==> ring.list[i].addr != new_task
      modifies this`tasks, this`id_task, this`ring
      ensures ring == T.Create(old(ring), new_task, provider) && LinkedTasks(tasks, ring.list) && ring.nextId == id_task
      ensures SavedOf(tasks) == SavedOf(old(tasks))[new_task := provider + PAGE_SIZE - FRAME_SIZE]
      ensures new_task in tasks && tasks[new_task] == TaskInfo(old(id_task), provider, provider + 0x1000 - 0xD8, 1, 0, 0)
      ensures id_task == (old(id_task) + 1) % 0x1_0000_0000
    {
      hide LinkedTasks, T.Sound, SavedOf;
      var info := TaskInfo(id_task, provider, provider + PAGE_SIZE - FRAME_SIZE, RUNNING, 0, NULL);
      tasks := tasks[new_task := info];
      id_task := (id_task + 1) % DWORD_LIMIT;
      FreshRecord(old(tasks), ring, new_task, info);
      SoundNonempty(ring);
      var crt := LastTask();
      LinkedAt(tasks, ring, |ring.list| - 1);
      SavedFields(old(tasks), new_task, info);
      SavedFields(tasks, crt, tasks[crt].(next := new_task));
      SavedSame(tasks, crt, tasks[crt].(next := new_task));
      tasks := tasks[crt := tasks[crt].(next := new_task)];
      LinkedAppend(old(tasks), ring, new_task, provider, info);
      ring := T.Create(ring, new_task, provider);
    }

    /** `task_create_impl`. */
    method TaskCreate()
      requires Valid() && CanCreate(Model()) && heap.Room(PagesFor(heap.Model(), TASK_SIZE))
      modifies this, heap, heap.paging, heap.paging.bitmap
      ensures Valid() && Model() == CreateTask(old(Model()))
      ensures |ring.list| > 0 && var t := ring.list[|ring.list| - 1];
        t.addr in tasks && tasks[t.addr] == TaskInfo(old(id_task), t.provider, t.provider + 0x1000 - 0xD8, 1, 0, 0)
      ensures Saved() == old(Saved())[AllocPtr(old(Model()).sys.heap, TASK_SIZE) := S.NewTop(old(Model())) - FRAME_SIZE]
    {
      hide Inv, KernelInv, LinkedTasks, T.Sound, FreeCount, Missing, Alloc4K, NewAlloc, AllocPtr, FirstFree, Live, Tiled, PageOf,
        MapPages, TablesMade, LeafEntry, HeapMapped, AvoidsWindow, LowIsIdentity, HeapAbove, StacksOwned, Grown, CanCreate,
        HeapManager.Linked, SysInv;
      ghost var k := Model();
      CreateFacts(k);
      CreateKernelInv(k);
      var new_task := heap.NewAlloc(TASK_SIZE);
      StackFacts(k);
      var provider := heap.paging.PageAlloc4K(STACK_FLAGS);
      AppendTask(new_task, provider);
      CreatedFacts(k);
    }

    /** `task_exit`, up to its endless loop. */
    method TaskExit(signal: nat)
      requires Valid()
      modifies this`tasks, this`ring
      ensures old(task_current) in old(tasks) && task_current in tasks && Saved() == old(Saved())
      ensures old(tasks)[old(task_current)].id == 0 ==> tasks == old(tasks)
      ensures old(tasks)[old(task_current)].id != 0 ==>
        && tasks[task_current].flags == old(tasks)[old(task_current)].flags - old(tasks)[old(task_current)].flags % 2
        && tasks == old(tasks)[old(task_current) :=
             old(tasks)[old(task_current)].(flags := tasks[task_current].flags, signal := signal)]
      ensures Valid() && Model() == old(Model()).(ring := T.Exit(old(ring)))
    {
      hide Inv, LinkedTasks, T.Sound, SysInv, LowIsIdentity, HeapAbove, StacksOwned, Records, KernelInv, Tiled, HeapMapped,
        PageOf, LeafEntry, AvoidsWindow, HeapManager.Linked, SavedOf;
      KernelIsSound(Model());
      SoundNonempty(ring);
      CurrentRecord(tasks, ring);
      ExitKernelInv(Model());
      ExitKeepsCurrent(ring);
      var id_task := tasks[task_current].id;
      if id_task == 0 {
        return;
      }
      var target := tasks[task_current];
      var info := target.(signal := signal, flags := target.flags - target.flags % 2);
      SavedFields(tasks, task_current, info);
      SavedSame(tasks, task_current, info);
      LinkedExit(tasks, ring, info);
      tasks := tasks[task_current := info];
      ring := T.Exit(ring);
    }

    /** `switch_task`: store this task's stack pointer, load the next one's. */
    method SwitchTask(rsp: nat) returns (next_rsp: nat)
      requires T.Sound(ring) && LinkedTasks(tasks, ring.list)
      requires ring.list[0].addr == kernel_task && ring.list[ring.cur].addr == task_current
      modifies this`tasks, this`task_current, this`task_next, this`ring
      ensures ring == T.Switch(old(ring)) && LinkedTasks(tasks, ring.list) && ring.cur < |ring.list|
      ensures ring.list[ring.cur].addr == task_current
      ensures old(task_current) in old(tasks)
      ensures tasks == old(tasks)[old(task_current) := old(tasks)[old(task_current)].(stack := rsp)]
      ensures task_current in tasks && next_rsp == tasks[task_current].stack
      ensures task_current == if old(tasks[task_current].next) == 0 then kernel_task else old(tasks[task_current].next)
    {
      hide LinkedTasks, T.Sound;
      SoundNonempty(ring);
      LinkedAt(tasks, ring, ring.cur);
      var next := tasks[task_current].next;
      NextIsSwitch(tasks, ring);
      if next == NULL {
        task_next := kernel_task;
      } else {
        task_next := next;
      }
      LinkedStack(tasks, ring, rsp);
      tasks := tasks[task_current := tasks[task_current].(stack := rsp)];
      ring := T.Switch(ring);
      LinkedAt(tasks, T.Ring(ring.list, old(ring).cur, ring.time, ring.nextId), ring.cur);
      next_rsp := tasks[task_next].stack;
      task_current := task_next;
    }

    /** The predecessor search of `task_remove`; it would halt the system at the end of the list. */
    method FindPrevious(target: nat) returns (prev: nat, halted: bool)
      requires T.Sound(ring) && LinkedTasks(tasks, ring.list) && ring.cur > 0
      requires ring.list[0].addr == kernel_task && ring.list[ring.cur].addr == target
      ensures !halted && prev == ring.list[ring.cur - 1].addr
    {
      hide LinkedTasks, T.Sound;
      SoundNonempty(ring);
      prev, halted := kernel_task, false;
      ghost var k := 0;
      LinkedAt(tasks, ring, 0);
      while tasks[prev].next != target
        invariant k < ring.cur && prev == ring.list[k].addr && prev in tasks && Records(tasks[prev], ring.list, k)
        decreases ring.cur - k
      {
        LinkedAt(tasks, ring, k + 1);
        prev := tasks[prev].next;
        k := k + 1;
        if prev == NULL {
          halted := true;
          return;
        }
      }
      OnlyPrevious(ring, k);
    }

    /** `task_remove`; `b` is the descriptor's place in the block list. */
    method TaskRemove(ghost b: nat) returns (next_rsp: nat)
      requires Valid() && ring.cur > 0 && DescriptorAt(Model(), b) && !ring.list[ring.cur].running
      modifies this`tasks, this`task_current, this`task_next, this`ring, heap`headers, heap`blocks, heap.paging, heap.paging.bitmap
      ensures Valid() && ring == T.Remove(old(ring))
      ensures Model() == Kernel(ring, ReapMemory(old(Model()).sys, old(ring.list[ring.cur]).provider, b))
      ensures Saved() == old(Saved()) && task_current in Saved() && next_rsp == Saved()[task_current]
      ensures task_current in tasks && next_rsp == tasks[task_current].stack
      ensures old(task_current) in old(tasks)
      ensures task_current == if old(tasks[task_current].next) == 0 then kernel_task else old(tasks[task_current].next)
      ensures ring.cur < |ring.list| && ring.list[ring.cur].addr == task_current
    {
      hide Inv, LinkedTasks, T.Sound, LeafEntry, PageOf, HeapMapped, Tiled, AvoidsWindow, LowIsIdentity, HeapAbove, StacksOwned, Free,
        UnmapPages, AllRemovable, Live, RangeUnmapped, KernelInv, OwnsStack, HeapManager.Linked, SavedOf;
      ghost var k := Model();
      RemoveFacts(k, b);
      var target := task_current;
      var prev, halted := FindPrevious(target);
      LinkedAt(tasks, ring, ring.cur);
      LinkedAt(tasks, ring, ring.cur - 1);
      LinkedRemove(tasks, ring);
      var next := tasks[target].next;
      var provider := tasks[target].provider;
      SavedFields(tasks, prev, tasks[prev].(next := next));
      SavedSame(tasks, prev, tasks[prev].(next := next));
      tasks := tasks[prev := tasks[prev].(next := next)];
      task_next := if next == NULL then kernel_task else next;
      RemoveNext(k.ring);
      heap.paging.PageUmapv(provider, PAGE_SIZE);
      heap.FreeAlloc(target, b);
      ring := T.Remove(ring);
      AfterRemove(k, b);
      LinkedAt(tasks, ring, ring.cur);
      SavedAt(tasks, task_next);
      next_rsp := tasks[task_next].stack;
      task_current := task_next;
    }

    /** `irq_time_handle` with the interrupted stack pointer; the result is the stack pointer to resume from. */
    method IrqTimeHandle(rsp: nat, ghost b: nat) returns (next_rsp: nat)
      requires Valid() && DescriptorAt(Model(), b)
      modifies this`tasks, this`task_current, this`task_next, this`ring, this`time, heap`headers, heap`blocks, heap.paging, heap.paging.bitmap
      ensures Valid() && Model() == TickTask(old(Model()), b)
      ensures time == (old(time) + 1) % 0x1_0000_0000
      ensures time % 1000 == 0 ==> tasks == old(tasks) && task_current == old(task_current) && next_rsp == rsp
      ensures old(task_current) in old(tasks)
      ensures time % 1000 != 0 ==>
        && task_current == (if old(tasks[task_current].next) == 0 then kernel_task else old(tasks[task_current].next))
        && task_current in tasks && next_rsp == tasks[task_current].stack
      ensures time % 1000 != 0 && old(tasks[task_current].flags) % 2 == 1 ==>
        tasks == old(tasks)[old(task_current) := old(tasks)[old(task_current)].(stack := rsp)]
      ensures old(ring).cur < |old(ring).list| && Saved() == S.SavedAfterTick(old(ring), old(Saved()), rsp)
      ensures next_rsp == S.ResumeFrom(old(ring), old(Saved()), rsp)
    {
      hide Inv, LinkedTasks, T.Sound, SysInv, LowIsIdentity, HeapAbove, StacksOwned, KernelInv, OwnsBlock, ReapMemory, Tiled,
        HeapMapped, PageOf, LeafEntry, AvoidsWindow, HeapManager.Linked, TickTask, SavedOf, S.SavedAfterTick, S.ResumeFrom;
      ghost var k := Model();
      TickKernelInv(k, b);
      TickFacts(k, b);
      TickSaved(k.ring, Saved(), rsp);
      time := (time + 1) % DWORD_LIMIT;
      ring := ring.(time := time);
      SameTasks(k.ring, ring);
      CurrentRecord(tasks, ring);
      if time % 1000 != 0 {
        var running := tasks[task_current].flags % 2 == 1;
        if !running {
          next_rsp := TaskRemove(b);
        } else {
          SavedFields(tasks, task_current, tasks[task_current].(stack := rsp));
          next_rsp := SwitchTask(rsp);
          SavedAt(tasks, task_current);
          SwitchKeepsFirst(k.ring);
        }
      } else {
        next_rsp := rsp;
      }
    }
  }

  lemma SavedFields(tasks: map<nat, TaskInfo>, a: nat, info: TaskInfo)
    ensures SavedOf(tasks[a := info]) == SavedOf(tasks)[a := info.stack]
  {
  }

  /** Rewriting a record without touching its stack pointer. */
  lemma SavedSame(tasks: map<nat, TaskInfo>, a: nat, info: TaskInfo)
    requires a in tasks && info.stack == tasks[a].stack
    ensures SavedOf(tasks)[a := info.stack] == SavedOf(tasks)
  {
  }

  lemma SavedAt(tasks: map<nat, TaskInfo>, a: nat)
    requires a in tasks
    ensures a in SavedOf(tasks) && SavedOf(tasks)[a] == tasks[a].stack
  {
  }

  /** The saved stack pointers and the place to resume from, in the three outcomes of a tick. */
  lemma TickSaved(r: T.Ring, saved: map<nat, nat>, rsp: nat)
    requires T.Sound(r)
    ensures var t := r.(time := (r.time + 1) % DWORD_LIMIT);
      var after := S.SavedAfterTick(r, saved, rsp);
      && r.cur < |r.list|
      && (T.Skips(t.time) ==> after == saved && S.ResumeFrom(r, saved, rsp) == rsp)
      && (!T.Skips(t.time) ==>
            var u := if r.list[r.cur].running then T.Switch(t) else T.Remove(t);
            && after == (if r.list[r.cur].running then saved[r.list[r.cur].addr := rsp] else saved)
            && (u.cur < |u.list| && u.list[u.cur].addr in after ==> S.ResumeFrom(r, saved, rsp) == after[u.list[u.cur].addr]))
  {
    hide T.Sound;
    SoundNonempty(r);
  }

  lemma HeapIsInv(s: Sys)
    requires Inv(s.world) && Tiled(s.heap) && s.heap.size % PAGE_SIZE == 0
    requires AvoidsWindow(s.heap.start, s.heap.size / PAGE_SIZE) && HeapMapped(s.world, s.heap.start, s.heap.size)
    ensures SysInv(s)
  {
    hide Inv, Tiled, AvoidsWindow, HeapMapped;
  }

  lemma InitKernel(kernel: nat, stack: nat, s: Sys)
    requires SysInv(s) && LowIsIdentity(s.world) && HeapAbove(s.heap) && 0 < kernel < s.heap.start
    ensures KernelInv(Kernel(T.InitRing(kernel, stack), s))
    ensures LinkedTasks(map[kernel := TaskInfo(0, stack, stack, RUNNING, 0, NULL)], T.InitRing(kernel, stack).list)
  {
    hide SysInv, LowIsIdentity, HeapAbove;
    T.InitSound(kernel, stack);
  }

  lemma CurrentRecord(tasks: map<nat, TaskInfo>, r: T.Ring)
    requires T.Sound(r) && LinkedTasks(tasks, r.list)
    ensures r.cur < |r.list| && r.list[r.cur].addr in tasks
    ensures tasks[r.list[r.cur].addr].id == r.list[r.cur].id
    ensures tasks[r.list[r.cur].addr].flags % 2 == 1 <==> r.list[r.cur].running
  {
    LinkedAt(tasks, r, r.cur);
  }

  lemma ExitKeepsCurrent(r: T.Ring)
    requires T.Sound(r)
    ensures var e := T.Exit(r);
      && |e.list| == |r.list| && e.cur == r.cur && e.time == r.time && e.nextId == r.nextId
      && e.list[0].addr == r.list[0].addr && e.list[r.cur].addr == r.list[r.cur].addr
      && (r.list[r.cur].id == 0 ==> e == r)
  {
  }

  /** The link of the current record, or the kernel task at the end of the list, is what `switch_task` goes to. */
  lemma NextIsSwitch(tasks: map<nat, TaskInfo>, r: T.Ring)
    requires T.Sound(r) && LinkedTasks(tasks, r.list)
    ensures r.cur < |r.list| && r.list[r.cur].addr in tasks && T.Switch(r).cur < |r.list|
    ensures var next := tasks[r.list[r.cur].addr].next;
      r.list[T.Switch(r).cur].addr == if next == NULL then r.list[0].addr else next
    ensures T.Sound(T.Ring(r.list, r.cur, r.time, r.nextId))
  {
    LinkedAt(tasks, r, r.cur);
  }

  lemma OnlyPrevious(r: T.Ring, k: nat)
    requires T.Sound(r) && k < r.cur && NextOf(r.list, k) == r.list[r.cur].addr
    ensures k == r.cur - 1
  {
  }

  /** What `task_remove` may rely on. */
  lemma RemoveFacts(k: Kernel, b: nat)
    requires KernelInv(k) && k.ring.cur > 0 && DescriptorAt(k, b) && !k.ring.list[k.ring.cur].running
    ensures T.Sound(k.ring) && k.ring.cur < |k.ring.list|
    ensures var p := k.ring.list[k.ring.cur].provider;
      && p < WORD_LIMIT && AvoidsWindow(p, 1) && AllRemovable(k.sys.world, p, 1)
      && SysInv(k.sys.(world := UnmapPages(k.sys.world, p, 1)))
    ensures b < |k.sys.heap.blocks| && k.ring.list[k.ring.cur].addr == k.sys.heap.blocks[b].addr + HEADER
  {
    hide Inv, LeafEntry, PageOf, HeapMapped, Tiled, AvoidsWindow, HeapAbove, UnmapPages, AllRemovable, Live, RangeUnmapped, LowIsIdentity,
      SysInv;
    CurrentInList(k);
    SysIsInv(k.sys);
    StackUnmaps(k.sys, k.ring.list[k.ring.cur].provider);
    StackIsMapped(k.sys.world, k.ring.list[k.ring.cur].provider);
    OnePage(k.ring.list[k.ring.cur].provider);
    StackRange(k.sys.world, k.ring.list[k.ring.cur].provider);
  }

  lemma SysIsInv(s: Sys)
    requires SysInv(s)
    ensures Inv(s.world)
  {
  }

  lemma RemoveNext(r: T.Ring)
    requires T.Sound(r) && r.cur > 0
    ensures var m := T.Remove(r);
      && m.cur < |m.list| && m.list[0] == r.list[0] && m.time == r.time && m.nextId == r.nextId
      && m.list[m.cur].addr == if NextOf(r.list, r.cur) == NULL then r.list[0].addr else NextOf(r.list, r.cur)
  {
  }

  lemma AfterRemove(k: Kernel, b: nat)
    requires KernelInv(k) && k.ring.cur > 0 && DescriptorAt(k, b) && !k.ring.list[k.ring.cur].running
    ensures KernelInv(Kernel(T.Remove(k.ring), ReapMemory(k.sys, k.ring.list[k.ring.cur].provider, b)))
    ensures T.Sound(T.Remove(k.ring))
  {
    hide SysInv, LowIsIdentity, HeapAbove, StacksOwned, OwnsBlock, ReapMemory;
    T.RemoveSound(k.ring);
    ReapKernelInv(k, b);
  }

  /** The three outcomes of a tick. */
  lemma TickFacts(k: Kernel, b: nat)
    requires KernelInv(k) && DescriptorAt(k, b)
    ensures T.Sound(k.ring)
    ensures var r := k.ring.(time := (k.ring.time + 1) % DWORD_LIMIT);
      && KernelInv(k.(ring := r)) && T.Sound(r)
      && (T.Skips(r.time) ==> TickTask(k, b) == k.(ring := r))
      && (!T.Skips(r.time) && k.ring.list[k.ring.cur].running ==> TickTask(k, b) == k.(ring := T.Switch(r)))
      && (!T.Skips(r.time) && !k.ring.list[k.ring.cur].running ==>
            r.cur > 0 && DescriptorAt(k.(ring := r), b)
            && TickTask(k, b) == Kernel(T.Remove(r), ReapMemory(k.sys, k.ring.list[k.ring.cur].provider, b)))
  {
    hide SysInv, LowIsIdentity, HeapAbove, StacksOwned, OwnsBlock, ReapMemory;
    T.TickSound(k.ring);
    TimeKernelInv(k, k.(ring := k.ring.(time := (k.ring.time + 1) % DWORD_LIMIT)));
  }

  lemma SameTasks(r: T.Ring, t: T.Ring)
    requires T.Sound(r) && t == r.(time := t.time)
    ensures t.cur < |t.list| && t.list == r.list
  {
  }

  lemma SwitchKeepsFirst(r: T.Ring)
    requires T.Sound(r)
    ensures T.Switch(r).list == r.list && T.Switch(r).time == r.time && T.Switch(r).nextId == r.nextId
  {
  }

  lemma NextIsListed(tasks: map<nat, TaskInfo>, r: T.Ring, k: nat)
    requires T.Sound(r) && k < |r.list| && r.list[k].addr in tasks && Records(tasks[r.list[k].addr], r.list, k)
    requires tasks[r.list[k].addr].next != NULL
    ensures k + 1 < |r.list| && tasks[r.list[k].addr].next == r.list[k + 1].addr
  {
  }

  lemma LastIsLast(tasks: map<nat, TaskInfo>, r: T.Ring, k: nat)
    requires T.Sound(r) && k < |r.list| && r.list[k].addr in tasks && Records(tasks[r.list[k].addr], r.list, k)
    requires tasks[r.list[k].addr].next == NULL
    ensures k == |r.list| - 1
  {
  }

  /** A record at an address not on the list does not disturb it. */
  lemma FreshRecord(tasks: map<nat, TaskInfo>, r: T.Ring, a: nat, info: TaskInfo)
    requires LinkedTasks(tasks, r.list) && forall i :: 0 <= i < |r.list| ==> r.list[i].addr != a
    ensures LinkedTasks(tasks[a := info], r.list)
  {
  }

  /** What `task_create_impl` may rely on when it starts. */
  lemma CreateFacts(k: Kernel)
    requires KernelInv(k) && CanCreate(k)
    ensures T.Sound(k.ring) && |k.ring.list| > 0
    ensures var h := k.sys.heap;
      && Satisfiable(h, TASK_SIZE + HEADER) && SafeRequest(h, TASK_SIZE)
      && Grown(h, TASK_SIZE + HEADER).size + HEAP_PAGE < DWORD_LIMIT
      && forall i :: 0 <= i < |k.ring.list| ==> k.ring.list[i].addr != AllocPtr(h, TASK_SIZE)
  {
    hide Inv, LeafEntry, FreeCount, Missing, NewAlloc, HasRoom, HeapAbove, Grown, LowIsIdentity, AllocPtr, StacksOwned;
    AllocKeepsBlocks(k.sys.heap, TASK_SIZE);
    DescriptorIsNew(k);
  }

  /** And when the descriptor has been allocated. */
  lemma StackFacts(k: Kernel)
    requires KernelInv(k) && CanCreate(k)
    ensures var w := HeapWorld(k.sys, Allocate(TASK_SIZE));
      && Inv(w) && FreeCount(w.used) > Missing(w.ram, Ident(FirstFree(w.used)), 3) && !Live(w, Ident(FirstFree(w.used)))
      && w == MapPages(k.sys.world, k.sys.heap.start + k.sys.heap.size, PagesFor(k.sys.heap, TASK_SIZE), HEAP_FLAGS)
  {
    hide Inv, LeafEntry, FreeCount, Missing, NewAlloc, HasRoom, HeapAbove, LowIsIdentity, StacksOwned, T.Sound, MapPages, Live,
      Tiled, AvoidsWindow, HeapMapped, FirstFree, Grows;
    DescriptorAllocated(k.sys);
    EnoughFrames(HeapWorld(k.sys, Allocate(TASK_SIZE)));
    AllocIsClear(HeapWorld(k.sys, Allocate(TASK_SIZE)));
  }

  /** The heap is still mapped once the stack page has been. */
  lemma CreatedFacts(k: Kernel)
    requires KernelInv(k) && CanCreate(k) && KernelInv(CreateTask(k))
    ensures var t := CreateTask(k);
      && Inv(t.sys.world) && HeapMapped(t.sys.world, t.sys.heap.start, t.sys.heap.size)
      && t.ring.list[0] == k.ring.list[0] && t.ring.cur == k.ring.cur && t.ring.list[k.ring.cur] == k.ring.list[k.ring.cur]
      && t.ring.cur < |t.ring.list| && t.ring.time == k.ring.time && t.ring.nextId == (k.ring.nextId + 1) % DWORD_LIMIT
      && t.sys.heap == NewAlloc(k.sys.heap, TASK_SIZE)
  {
    hide Inv, LeafEntry, FreeCount, Missing, NewAlloc, HasRoom, HeapAbove, LowIsIdentity, StacksOwned, AllocPtr, NewStack, HeapMapped,
      Alloc4K, MapPages, Tiled;
  }
}

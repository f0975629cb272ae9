/** The whole machine: the kernel's tasks and memory together with the stack pointers in the task records, the words
    on the stacks and the processor's registers. Its steps are shown to be steps of the machine in `Preemption`,
    and a preempted task to come back in time with exactly the registers it had. */
module TaskSwitching {
  import opened Words
  import opened PageTables
  import opened PageSteps
  import opened PageRuns
  import opened HeapBlocks
  import opened HeapRuns
  import opened TaskSystem
  import opened Registers
  import P = Preemption
  import T = TaskRing

  // ---------------------------------------------------------------- stack pointers in the records

  /** The saved stack pointers after a tick that interrupted the current task with `rsp`: the current task's is
      stored unless the tick only counts or reaps it; no other is touched. */
  function SavedAfterTick(r: T.Ring, saved: map<nat, nat>, rsp: nat): map<nat, nat>
    requires r.cur < |r.list|
  {
    if T.Skips(T.Tick(r).time) || !r.list[r.cur].running then saved else saved[r.list[r.cur].addr := rsp]
  }

  /** Where a tick that switches resumes: the stack pointer saved for the task it switches to. */
  function ResumeFrom(r: T.Ring, saved: map<nat, nat>, rsp: nat): nat
    requires r.cur < |r.list|
  {
    var t, after := T.Tick(r), SavedAfterTick(r, saved, rsp);
    if T.Skips(t.time) then rsp
    else if t.cur < |t.list| && t.list[t.cur].addr in after then after[t.list[t.cur].addr]
    else 0
  }

  // ---------------------------------------------------------------- the computer

  /** `saved` is what the task records hold as stack pointers, by record address; `kernelStack` is the stack of
      the kernel task. */
  datatype Computer = Computer(kernel: Kernel, saved: map<nat, nat>, mem: Memory, regs: Regs, kernelStack: P.Zone)

  function Current(c: Computer): nat
    requires c.kernel.ring.cur < |c.kernel.ring.list|
  {
    c.kernel.ring.list[c.kernel.ring.cur].addr
  }

  /** The stack area of the k-th task: the page handed out for it, or the kernel's own stack. */
  function ZoneOf(l: seq<T.Task>, kernelStack: P.Zone, k: nat): P.Zone
    requires k < |l|
  {
    if k == 0 then kernelStack else P.Zone(l[k].provider, l[k].provider + PAGE_SIZE)
  }

  /** The stack areas by record address. */
  function Zones(l: seq<T.Task>, kernelStack: P.Zone): map<nat, P.Zone> {
    if l == [] then map[] else Zones(l[..|l| - 1], kernelStack)[l[|l| - 1].addr := ZoneOf(l, kernelStack, |l| - 1)]
  }

  /** The machine of `Preemption` this computer is, with a ledger of the registers each waiting task stopped with. */
  function View(c: Computer, ledger: map<nat, Regs>): P.Machine
    requires c.kernel.ring.cur < |c.kernel.ring.list|
  {
    P.Machine(c.mem, c.regs, Current(c), Zones(c.kernel.ring.list, c.kernelStack), c.saved, ledger)
  }

  datatype Action =
    | Run(mem: Memory, regs: Regs)                                     // the current task runs
    | Interrupt(irq: nat, vector: nat, ctl: Control, mem: Memory)      // any interrupt but the timer's
    | TimerTick(irq: nat, vector: nat, ctl: Control, mem: Memory, b: nat)
    | Create(mem: Memory, entry: nat, cs: nat, ss: nat, args: seq<nat>)
    | Exit(mem: Memory, regs: Regs)
    | Call(op: SysOp, mem: Memory, regs: Regs)                         // another heap or page call

  /** What is left to the running code and the handlers: kernel calls are possible, interrupts find room on the
      stack they are taken on, and nothing is written to another task's stack or to the frame being handled. */
  ghost predicate Proper(c: Computer, x: Action) {
    && c.kernel.ring.cur < |c.kernel.ring.list|
    && var s := View(c, map[]);
       match x
       case Run(mem, regs) => P.KeepsOthers(s, mem)
       case Interrupt(irq, vector, ctl, mem) =>
         P.CanInterrupt(s) && P.HandlerLeaves(s, Interrupted(c.mem, c.regs, irq, vector, ctl), mem)
       case TimerTick(irq, vector, ctl, mem, b) =>
         && DescriptorAt(c.kernel, b)
         && P.CanInterrupt(s) && P.HandlerLeaves(s, Interrupted(c.mem, c.regs, irq, vector, ctl), mem)
       case Create(mem, entry, cs, ss, args) => CanCreate(c.kernel) && P.KeepsOthers(s, mem) && |args| == 6
       case Exit(mem, regs) => P.KeepsOthers(s, mem)
       case Call(op, mem, regs) => Respects(c.kernel, op) && P.KeepsOthers(s, mem)
  }

  /** The kernel's part of an action. */
  ghost function KernelAfter(c: Computer, x: Action): Kernel
    requires Proper(c, x)
  {
    match x
    case Run(_, _) => c.kernel
    case Interrupt(_, _, _, _) => c.kernel
    case TimerTick(_, _, _, _, b) => TickTask(c.kernel, b)
    case Create(_, _, _, _, _) => CreateTask(c.kernel)
    case Exit(_, _) => c.kernel.(ring := T.Exit(c.kernel.ring))
    case Call(op, _, _) => c.kernel.(sys := Step(c.kernel.sys, op))
  }

  /** The top of the stack page `task_create_impl` is given. */
  function NewTop(k: Kernel): (top: nat)
    requires Satisfiable(k.sys.heap, TASK_SIZE + HEADER)
    ensures top >= PAGE_SIZE
  {
    NewStack(k.sys) + PAGE_SIZE
  }

  ghost function After(c: Computer, x: Action): Computer
    requires Proper(c, x)
  {
    var k := KernelAfter(c, x);
    match x
    case Run(mem, regs) => Computer(k, c.saved, mem, regs, c.kernelStack)
    case Interrupt(_, _, _, mem) => Computer(k, c.saved, mem, RestoredByPop(mem, FrameBase(c.regs.rsp)), c.kernelStack)
    case TimerTick(_, _, _, mem, _) =>
      var rsp := FrameBase(c.regs.rsp);
      var from := ResumeFrom(c.kernel.ring, c.saved, rsp);
      Computer(k, SavedAfterTick(c.kernel.ring, c.saved, rsp), mem,
               if T.Skips(k.ring.time) then RestoredByPop(mem, from) else RestoredBySwitch(mem, from), c.kernelStack)
    case Create(mem, entry, cs, ss, args) =>
      var top := NewTop(c.kernel);
      Computer(k, c.saved[AllocPtr(c.kernel.sys.heap, TASK_SIZE) := top - FRAME],
               PushAll(mem, top, NewFrameWords(top, entry, cs, ss, args)), c.regs, c.kernelStack)
    case Exit(mem, regs) => Computer(k, c.saved, mem, regs, c.kernelStack)
    case Call(_, mem, regs) => Computer(k, c.saved, mem, regs, c.kernelStack)
  }

  // ---------------------------------------------------------------- stack areas

  lemma {:induction false} ZonesAt(l: seq<T.Task>, kernelStack: P.Zone)
    requires forall i, j :: 0 <= i < j < |l| ==> l[i].addr != l[j].addr
    ensures forall k :: 0 <= k < |l| ==>
      l[k].addr in Zones(l, kernelStack) && Zones(l, kernelStack)[l[k].addr] == ZoneOf(l, kernelStack, k)
    ensures forall t :: t in Zones(l, kernelStack) ==> exists k :: 0 <= k < |l| && l[k].addr == t
  {
    if l != [] {
      var m := l[..|l| - 1];
      ZonesAt(m, kernelStack);
      forall k | 0 <= k < |l|
        ensures l[k].addr in Zones(l, kernelStack) && Zones(l, kernelStack)[l[k].addr] == ZoneOf(l, kernelStack, k)
      {
        if k < |m| {
          assert m[k] == l[k] && l[k].addr != l[|m|].addr;
        }
      }
      forall t | t in Zones(l, kernelStack) ensures exists k :: 0 <= k < |l| && l[k].addr == t {
        if t in Zones(m, kernelStack) {
          var k :| 0 <= k < |m| && m[k].addr == t;
          assert l[k].addr == t;
        } else {
          assert l[|m|].addr == t;
        }
      }
    }
  }

  lemma DistinctAddresses(r: T.Ring)
    requires T.Sound(r)
    ensures r.cur < |r.list| && forall i, j :: 0 <= i < j < |r.list| ==> r.list[i].addr != r.list[j].addr
  {
  }

  /** The place of a task in the list, from its record's address. */
  lemma PlaceOf(k: Kernel, kernelStack: P.Zone, t: nat) returns (i: nat)
    requires KernelInv(k) && t in Zones(k.ring.list, kernelStack)
    ensures i < |k.ring.list| && k.ring.list[i].addr == t
    ensures Zones(k.ring.list, kernelStack)[t] == ZoneOf(k.ring.list, kernelStack, i)
  {
    hide KernelInv;
    KernelIsSound(k);
    DistinctAddresses(k.ring);
    ZonesAt(k.ring.list, kernelStack);
    i :| 0 <= i < |k.ring.list| && k.ring.list[i].addr == t;
  }

  /** The kernel's stack lies in its image, above the addresses at which stack pages are handed out. */
  predicate StackAbove(z: P.Zone) {
    z.lo >= FRAMES * PAGE_SIZE
  }

  /** Stack pages of two tasks are different whole pages below 128 MiB. */
  lemma OwnPages(k: Kernel, i: nat, j: nat)
    requires KernelInv(k) && 0 < i < |k.ring.list| && 0 < j < |k.ring.list| && i != j
    ensures var p, q := k.ring.list[i].provider, k.ring.list[j].provider;
      && p + PAGE_SIZE <= FRAMES * PAGE_SIZE && (p + PAGE_SIZE <= q || q + PAGE_SIZE <= p)
  {
    hide T.Sound, HeapAbove, LowIsIdentity, HasBlock, SysInv;
    var p, q := k.ring.list[i].provider, k.ring.list[j].provider;
    assert OwnsStack(k.sys.world, p) && OwnsStack(k.sys.world, q) && p != q;
    SysFrames(k.sys, p / PAGE_SIZE, q / PAGE_SIZE);
  }

  lemma OwnPage(k: Kernel, i: nat)
    requires KernelInv(k) && 0 < i < |k.ring.list|
    ensures k.ring.list[i].provider + PAGE_SIZE <= FRAMES * PAGE_SIZE
  {
    hide T.Sound, HeapAbove, LowIsIdentity, HasBlock, SysInv;
    assert OwnsStack(k.sys.world, k.ring.list[i].provider);
    SysFrames(k.sys, k.ring.list[i].provider / PAGE_SIZE, k.ring.list[i].provider / PAGE_SIZE);
  }

  /** No two tasks' stack areas overlap: stack pages are owned apart, and the kernel's stack is above them. */
  lemma StacksApart(k: Kernel, kernelStack: P.Zone, t: nat, u: nat)
    requires KernelInv(k) && StackAbove(kernelStack) && t != u
    requires t in Zones(k.ring.list, kernelStack) && u in Zones(k.ring.list, kernelStack)
    ensures P.Apart(Zones(k.ring.list, kernelStack)[t], Zones(k.ring.list, kernelStack)[u])
  {
    hide KernelInv, Zones;
    var i := PlaceOf(k, kernelStack, t);
    var j := PlaceOf(k, kernelStack, u);
    if i > 0 && j > 0 {
      OwnPages(k, i, j);
    } else if i > 0 {
      OwnPage(k, i);
    } else if j > 0 {
      OwnPage(k, j);
    }
  }

  // ---------------------------------------------------------------- the invariant

  /** The kernel invariant holds, and every waiting task's frame is intact on its stack, where its record points. */
  ghost predicate Good(c: Computer, ledger: map<nat, Regs>) {
    && KernelInv(c.kernel) && StackAbove(c.kernelStack) && c.kernel.ring.cur < |c.kernel.ring.list|
    && forall t :: t in Zones(c.kernel.ring.list, c.kernelStack) && t != Current(c) ==> P.Waiting(View(c, ledger), t)
  }

  lemma GoodIsOrderly(c: Computer, ledger: map<nat, Regs>)
    requires Good(c, ledger)
    ensures P.Orderly(View(c, ledger))
  {
    hide KernelInv, P.Waiting, Zones;
    KernelIsSound(c.kernel);
    DistinctAddresses(c.kernel.ring);
    ZonesAt(c.kernel.ring.list, c.kernelStack);
    var zones := Zones(c.kernel.ring.list, c.kernelStack);
    forall t, u | t in zones && u in zones && t != u ensures P.Apart(zones[t], zones[u]) {
      StacksApart(c.kernel, c.kernelStack, t, u);
    }
  }

  lemma OrderlyIsGood(c: Computer, ledger: map<nat, Regs>)
    requires KernelInv(c.kernel) && StackAbove(c.kernelStack) && c.kernel.ring.cur < |c.kernel.ring.list|
    requires P.Orderly(View(c, ledger))
    ensures Good(c, ledger)
  {
    hide KernelInv, P.Waiting, Zones;
  }

  // ---------------------------------------------------------------- actions are events

  /** The event of `Preemption` an action amounts to. */
  ghost function EventOf(c: Computer, x: Action): P.Event
    requires Proper(c, x)
  {
    match x
    case Run(mem, regs) => P.Work(mem, regs)
    case Interrupt(irq, vector, ctl, mem) => P.Handled(irq, vector, ctl, mem)
    case TimerTick(irq, vector, ctl, mem, _) =>
      var t := T.Tick(c.kernel.ring);
      var to := if t.cur < |t.list| then t.list[t.cur].addr else 0;
      if T.Skips(t.time) then P.Handled(irq, vector, ctl, mem)
      else if !c.kernel.ring.list[c.kernel.ring.cur].running then P.Reap(mem, to)
      else P.Preempt(irq, vector, ctl, mem, to)
    case Create(_, entry, cs, ss, args) =>
      var top := NewTop(c.kernel);
      P.Spawn(AllocPtr(c.kernel.sys.heap, TASK_SIZE), P.Zone(NewStack(c.kernel.sys), top), After(c, x).mem, top - FRAME,
              EntryRegs(top, entry, cs, ss, args))
    case Exit(mem, regs) => P.Work(mem, regs)
    case Call(_, mem, regs) => P.Work(mem, regs)
  }

  /** The ledger does not matter to what may happen. */
  lemma SameMay(s: P.Machine, ledger: map<nat, Regs>, m: Memory, framed: Memory)
    ensures P.KeepsOthers(s, m) <==> P.KeepsOthers(s.(ledger := ledger), m)
    ensures P.CanInterrupt(s) <==> P.CanInterrupt(s.(ledger := ledger))
    ensures P.HandlerLeaves(s, framed, m) <==> P.HandlerLeaves(s.(ledger := ledger), framed, m)
  {
    hide Read;
    var u := s.(ledger := ledger);
    assert P.KeepsOthers(s.(mem := framed), m) <==> P.KeepsOthers(u.(mem := framed), m);
  }

  lemma KernelKept(c: Computer, x: Action)
    requires KernelInv(c.kernel) && Proper(c, x)
    ensures KernelInv(KernelAfter(c, x)) && KernelAfter(c, x).ring.cur < |KernelAfter(c, x).ring.list|
  {
    hide KernelInv, CanCreate, Respects, DescriptorAt, CreateTask, TickTask, T.Exit, Step, P.KeepsOthers, P.CanInterrupt,
      P.HandlerLeaves, Interrupted, View;
    match x {
      case Run(_, _) =>
      case Interrupt(_, _, _, _) =>
      case TimerTick(_, _, _, _, b) => TickKernelInv(c.kernel, b);
      case Create(_, _, _, _, _) => CreateKernelInv(c.kernel);
      case Exit(_, _) => ExitKernelInv(c.kernel);
      case Call(op, _, _) => OtherKernelInv(c.kernel, op);
    }
    KernelCurrent(KernelAfter(c, x));
  }

  /** Lists with the same addresses and stack pages have the same stack areas. */
  lemma {:induction false} SameZones(l: seq<T.Task>, m: seq<T.Task>, kernelStack: P.Zone)
    requires |l| == |m| && forall i :: 0 <= i < |l| ==> l[i].addr == m[i].addr && l[i].provider == m[i].provider
    ensures Zones(l, kernelStack) == Zones(m, kernelStack)
  {
    if l != [] {
      SameZones(l[..|l| - 1], m[..|m| - 1], kernelStack);
    }
  }

  lemma ZonesCreated(l: seq<T.Task>, t: T.Task, kernelStack: P.Zone)
    requires |l| > 0
    ensures Zones(l + [t], kernelStack) == Zones(l, kernelStack)[t.addr := P.Zone(t.provider, t.provider + PAGE_SIZE)]
  {
    assert (l + [t])[..|l|] == l;
  }

  /** Leaving record k out of a list. */
  function Without(l: seq<T.Task>, k: nat): (m: seq<T.Task>)
    requires k < |l|
    ensures |m| == |l| - 1
  {
    l[..k] + l[k + 1..]
  }

  lemma ZonesRemoved(l: seq<T.Task>, k: nat, kernelStack: P.Zone)
    requires 0 < k < |l| && forall i, j :: 0 <= i < j < |l| ==> l[i].addr != l[j].addr
    ensures Zones(Without(l, k), kernelStack) == Zones(l, kernelStack) - {l[k].addr}
    decreases |l|
  {
    hide Zones;
    var m := Without(l, k);
    if k == |l| - 1 {
      assert m == l[..k];
      ZonesLast(l, kernelStack);
      LastIsNew(l, kernelStack);
    } else {
      var n := |l| - 1;
      assert m[..|m| - 1] == Without(l[..n], k) && m[|m| - 1] == l[n];
      ZonesRemoved(l[..n], k, kernelStack);
      ZonesLast(l, kernelStack);
      ZonesLast(m, kernelStack);
    }
  }

  lemma ZonesLast(l: seq<T.Task>, kernelStack: P.Zone)
    requires |l| > 0
    ensures var n := |l| - 1; Zones(l, kernelStack) == Zones(l[..n], kernelStack)[l[n].addr := ZoneOf(l, kernelStack, n)]
  {
  }

  lemma LastIsNew(l: seq<T.Task>, kernelStack: P.Zone)
    requires |l| > 0 && forall i, j :: 0 <= i < j < |l| ==> l[i].addr != l[j].addr
    ensures l[|l| - 1].addr !in Zones(l[..|l| - 1], kernelStack)
  {
    hide Zones;
    ZonesAt(l[..|l| - 1], kernelStack);
  }

  // ---------------------------------------------------------------- each action refines its event

  /** The action is a step the machine may take, and the computer afterwards is the machine after that step. */
  ghost predicate Refines(c: Computer, ledger: map<nat, Regs>, x: Action)
    requires Proper(c, x)
  {
    var s, e := View(c, ledger), EventOf(c, x);
    && P.May(s, e) && (e.Handled? || e.Preempt? ==> s.regs.rsp >= FRAME + 16)
    && After(c, x).kernel.ring.cur < |After(c, x).kernel.ring.list|
    && View(After(c, x), P.Next(s, e).ledger) == P.Next(s, e)
  }

  lemma PlainRefines(c: Computer, ledger: map<nat, Regs>, x: Action)
    requires Good(c, ledger) && Proper(c, x) && (x.Run? || x.Exit? || x.Call? || x.Interrupt?)
    ensures Refines(c, ledger, x)
  {
    hide KernelInv, Zones, P.Waiting, Respects, P.KeepsOthers, P.HandlerLeaves, P.CanInterrupt, Step, Interrupted,
      RestoredByPop;
    var mem := x.mem;
    SameMay(View(c, map[]), ledger, mem, if x.Interrupt? && c.regs.rsp >= FRAME + 16 then
      Interrupted(c.mem, c.regs, x.irq, x.vector, x.ctl) else mem);
    SameZones(c.kernel.ring.list, KernelAfter(c, x).ring.list, c.kernelStack);
    RoomForFrame(View(c, map[]));
  }

  lemma RoomForFrame(s: P.Machine)
    ensures P.CanInterrupt(s) ==> s.regs.rsp >= FRAME + 16
  {
  }

  /** A tick that does not switch is an interrupt that returns. */
  lemma CountingRefines(c: Computer, ledger: map<nat, Regs>, x: Action)
    requires Good(c, ledger) && Proper(c, x) && x.TimerTick? && T.Skips(T.Tick(c.kernel.ring).time)
    ensures Refines(c, ledger, x)
  {
    hide KernelInv, Zones, P.Waiting, DescriptorAt, P.KeepsOthers, P.HandlerLeaves, P.CanInterrupt, Interrupted,
      RestoredByPop, ReapMemory;
    RoomForFrame(View(c, map[]));
    SameMay(View(c, map[]), ledger, x.mem, Interrupted(c.mem, c.regs, x.irq, x.vector, x.ctl));
  }

  lemma SwitchingAfter(c: Computer, x: Action)
    requires Proper(c, x) && x.TimerTick? && !T.Skips(T.Tick(c.kernel.ring).time)
    requires c.kernel.ring.list[c.kernel.ring.cur].running
    ensures var r, d := c.kernel.ring, After(c, x);
      var next := if r.cur + 1 < |r.list| then r.cur + 1 else 0;
      var to := r.list[next].addr;
      && c.regs.rsp >= FRAME + 16
      && d.kernel.ring.list == r.list && d.kernel.ring.cur == next && d.mem == x.mem && d.kernelStack == c.kernelStack
      && d.saved == c.saved[r.list[r.cur].addr := FrameBase(c.regs.rsp)]
      && d.regs == RestoredBySwitch(x.mem, if to in d.saved then d.saved[to] else 0)
      && EventOf(c, x) == P.Preempt(x.irq, x.vector, x.ctl, x.mem, to)
  {
    hide DescriptorAt, P.KeepsOthers, P.HandlerLeaves, Interrupted, RestoredBySwitch, ReapMemory, Zones;
  }

  /** A tick that switches away from a running task is a preemption, to the task `switch_task` chooses. */
  lemma SwitchingRefines(c: Computer, ledger: map<nat, Regs>, x: Action)
    requires Good(c, ledger) && Proper(c, x) && x.TimerTick? && !T.Skips(T.Tick(c.kernel.ring).time)
    requires c.kernel.ring.list[c.kernel.ring.cur].running
    ensures Refines(c, ledger, x)
  {
    hide KernelInv, Zones, P.Waiting, DescriptorAt, P.KeepsOthers, P.HandlerLeaves, P.CanInterrupt, Interrupted,
      RestoredBySwitch, After, EventOf, T.Tick, T.Skips, T.Sound;
    SameMay(View(c, map[]), ledger, x.mem, Interrupted(c.mem, c.regs, x.irq, x.vector, x.ctl)) by {
      RoomForFrame(View(c, map[]));
    }
    SwitchingAfter(c, x);
    KernelIsSound(c.kernel);
    DistinctAddresses(c.kernel.ring);
    ZonesAt(c.kernel.ring.list, c.kernelStack);
  }

  lemma ReapingAfter(c: Computer, x: Action)
    requires Proper(c, x) && x.TimerTick? && !T.Skips(T.Tick(c.kernel.ring).time)
    requires !c.kernel.ring.list[c.kernel.ring.cur].running && T.Sound(c.kernel.ring)
    ensures var r, d := c.kernel.ring, After(c, x);
      var next := if r.cur + 1 < |r.list| then r.cur + 1 else 0;
      var to := r.list[next].addr;
      && 0 < r.cur && r.cur != next && d.kernel.ring.list == Without(r.list, r.cur) && d.mem == x.mem && d.kernelStack == c.kernelStack
      && d.kernel.ring.cur < |r.list| - 1 && d.kernel.ring.list[d.kernel.ring.cur] == r.list[next]
      && d.saved == c.saved && d.regs == RestoredBySwitch(x.mem, if to in d.saved then d.saved[to] else 0)
      && EventOf(c, x) == P.Reap(x.mem, to)
  {
    hide DescriptorAt, P.KeepsOthers, P.HandlerLeaves, Interrupted, RestoredBySwitch, ReapMemory, Zones, T.Sound;
    var r := c.kernel.ring;
    ReapedRing(r);
  }

  lemma ReapedRing(r: T.Ring)
    requires T.Sound(r) && !r.list[r.cur].running
    ensures var m, next := T.Remove(r), if r.cur + 1 < |r.list| then r.cur + 1 else 0;
      0 < r.cur && r.cur != next && m.list == Without(r.list, r.cur) && m.cur < |r.list| - 1 && m.list[m.cur] == r.list[next]
  {
  }

  /** A tick that finds the current task exited is a reaping, and goes on with another task. */
  lemma ReapingRefines(c: Computer, ledger: map<nat, Regs>, x: Action)
    requires Good(c, ledger) && Proper(c, x) && x.TimerTick? && !T.Skips(T.Tick(c.kernel.ring).time)
    requires !c.kernel.ring.list[c.kernel.ring.cur].running
    ensures Refines(c, ledger, x)
  {
    hide KernelInv, Zones, P.Waiting, DescriptorAt, P.KeepsOthers, P.HandlerLeaves, P.CanInterrupt, Interrupted,
      RestoredBySwitch, T.Sound, P.Orderly, After, EventOf, T.Tick, T.Skips, Without;
    var s, r := View(c, ledger), c.kernel.ring;
    SameMay(View(c, map[]), ledger, x.mem, Interrupted(c.mem, c.regs, x.irq, x.vector, x.ctl)) by {
      RoomForFrame(View(c, map[]));
    }
    GoodIsOrderly(c, ledger);
    HandlerKeeps(s, x);
    KernelIsSound(c.kernel);
    ReapingAfter(c, x);
    DistinctAddresses(r);
    ZonesAt(r.list, c.kernelStack);
    ZonesRemoved(r.list, r.cur, c.kernelStack);
  }

  /** A handler that keeps to itself leaves other tasks' stacks as they were before the interrupt. */
  lemma HandlerKeeps(s: P.Machine, x: Action)
    requires s.regs.rsp >= FRAME + 16 && P.Orderly(s) && P.CanInterrupt(s) && x.TimerTick?
    requires P.HandlerLeaves(s, Interrupted(s.mem, s.regs, x.irq, x.vector, x.ctl), x.mem)
    ensures P.KeepsOthers(s, x.mem)
  {
    hide P.KeepsOthers, Interrupted, P.Orderly;
    P.InterruptStaysHome(s, x.irq, x.vector, x.ctl);
    P.KeepsTwice(s, Interrupted(s.mem, s.regs, x.irq, x.vector, x.ctl), x.mem);
  }

  /** Creation spawns a task on a page of its own, whose frame restores to the entry registers. */
  lemma CreateRefines(c: Computer, ledger: map<nat, Regs>, x: Action)
    requires Good(c, ledger) && Proper(c, x) && x.Create?
    ensures Refines(c, ledger, x)
  {
    hide KernelInv, Zones, P.Waiting, P.KeepsOthers, CanCreate, PushAll, RestoredBySwitch, CreateMemory, NewStack, AllocPtr,
      Satisfiable, NewFrameWords, EntryRegs;
    var k := c.kernel;
    CanCreateFits(k);
    var addr, top := AllocPtr(k.sys.heap, TASK_SIZE), NewTop(k);
    SameMay(View(c, map[]), ledger, x.mem, x.mem);
    NewZone(c, ledger);
    NewFrameEnters(x.mem, top, x.entry, x.cs, x.ss, x.args);
    FrameStaysHome(View(c, ledger), x.mem, P.Zone(NewStack(k.sys), top), top, NewFrameWords(top, x.entry, x.cs, x.ss, x.args));
  }

  /** The new task's address is not on the list, and its page is apart from every stack. */
  lemma NewZone(c: Computer, ledger: map<nat, Regs>)
    requires Good(c, ledger) && CanCreate(c.kernel)
    ensures var k, l := c.kernel, c.kernel.ring.list;
      var addr, zone := AllocPtr(k.sys.heap, TASK_SIZE), P.Zone(NewStack(k.sys), NewTop(k));
      && addr !in Zones(l, c.kernelStack)
      && Zones(CreateTask(k).ring.list, c.kernelStack) == Zones(l, c.kernelStack)[addr := zone]
      && forall u :: u in Zones(l, c.kernelStack) ==> P.Apart(Zones(l, c.kernelStack)[u], zone)
  {
    hide KernelInv, Zones, P.Waiting, CanCreate, CreateMemory, NewStack, AllocPtr, Satisfiable, T.Sound;
    var k, l := c.kernel, c.kernel.ring.list;
    CanCreateFits(k);
    var addr := AllocPtr(k.sys.heap, TASK_SIZE);
    CreateKernelInv(k);
    KernelIsSound(k);
    DistinctAddresses(k.ring);
    ZonesAt(l, c.kernelStack);
    NewAddress(k);
    ZonesCreated(l, T.Task(addr, k.ring.nextId, NewStack(k.sys), true), c.kernelStack);
    forall u | u in Zones(l, c.kernelStack) ensures P.Apart(Zones(l, c.kernelStack)[u], P.Zone(NewStack(k.sys), NewTop(k))) {
      StacksApart(CreateTask(k), c.kernelStack, u, addr);
    }
  }

  lemma CanCreateFits(k: Kernel)
    requires CanCreate(k)
    ensures Satisfiable(k.sys.heap, TASK_SIZE + HEADER)
  {
    hide Satisfiable;
  }

  lemma NewAddress(k: Kernel)
    requires KernelInv(k) && CanCreate(k)
    ensures forall i :: 0 <= i < |k.ring.list| ==> k.ring.list[i].addr != AllocPtr(k.sys.heap, TASK_SIZE)
    ensures AllocPtr(k.sys.heap, TASK_SIZE) > 0 && k.ring.nextId + 1 < DWORD_LIMIT
  {
    hide Inv, LeafEntry, FreeCount, Missing, NewAlloc, HeapAbove, Grown, LowIsIdentity, AllocPtr, StacksOwned, T.Sound;
    AllocKeepsBlocks(k.sys.heap, TASK_SIZE);
    DescriptorIsNew(k);
  }

  /** Pushing the first frame writes only in the new task's page. */
  lemma FrameStaysHome(s: P.Machine, m: Memory, zone: P.Zone, top: nat, ws: seq<nat>)
    requires P.KeepsOthers(s, m) && |ws| == 27 && top >= FRAME && zone.lo <= top - FRAME && top <= zone.hi
    requires forall u :: u in s.zones ==> P.Apart(s.zones[u], zone)
    ensures P.KeepsOthers(s, PushAll(m, top, ws))
  {
    hide PushAll, Read;
    forall t, a | t in s.zones && t != s.cur && P.Within(s.zones[t], a) ensures Read(PushAll(m, top, ws), a) == Read(s.mem, a) {
      PushAllRead(m, top, ws, a);
    }
  }

  /** Whatever happens, the computer takes a step of the machine. */
  lemma ActionRefines(c: Computer, ledger: map<nat, Regs>, x: Action)
    requires Good(c, ledger) && Proper(c, x)
    ensures Refines(c, ledger, x)
  {
    hide Good, Proper, Refines, T.Tick;
    if x.Create? {
      CreateRefines(c, ledger, x);
    } else if x.TimerTick? {
      GoodCurrent(c, ledger);
      if T.Skips(T.Tick(c.kernel.ring).time) {
        CountingRefines(c, ledger, x);
      } else if c.kernel.ring.list[c.kernel.ring.cur].running {
        SwitchingRefines(c, ledger, x);
      } else {
        ReapingRefines(c, ledger, x);
      }
    } else {
      PlainRefines(c, ledger, x);
    }
  }

  lemma GoodCurrent(c: Computer, ledger: map<nat, Regs>)
    requires Good(c, ledger)
    ensures c.kernel.ring.cur < |c.kernel.ring.list|
  {
    hide KernelInv, Zones, P.Waiting;
  }

  // ---------------------------------------------------------------- runs

  /** The ledger after an action: a task preempted or created is entered with the registers it is to find. */
  ghost function LedgerAfter(c: Computer, ledger: map<nat, Regs>, x: Action): map<nat, Regs>
    requires Proper(c, x) && Refines(c, ledger, x)
  {
    P.Next(View(c, ledger), EventOf(c, x)).ledger
  }

  lemma AfterGood(c: Computer, ledger: map<nat, Regs>, x: Action)
    requires Good(c, ledger) && Proper(c, x)
    ensures Refines(c, ledger, x) && Good(After(c, x), LedgerAfter(c, ledger, x))
  {
    ActionRefines(c, ledger, x);
    GoodIsOrderly(c, ledger);
    GoodKernel(c, ledger);
    KernelKept(c, x);
    AfterParts(c, x);
    AfterOrderly(c, ledger, x);
    OrderlyIsGood(After(c, x), LedgerAfter(c, ledger, x));
  }

  lemma AfterOrderly(c: Computer, ledger: map<nat, Regs>, x: Action)
    requires c.kernel.ring.cur < |c.kernel.ring.list| && Proper(c, x) && Refines(c, ledger, x) && P.Orderly(View(c, ledger))
    ensures P.Orderly(View(After(c, x), LedgerAfter(c, ledger, x)))
  {
    hide Proper, EventOf, After, P.Orderly, P.May, P.Next, Zones;
    P.NextOrderly(View(c, ledger), EventOf(c, x));
  }

  lemma GoodKernel(c: Computer, ledger: map<nat, Regs>)
    requires Good(c, ledger)
    ensures KernelInv(c.kernel) && StackAbove(c.kernelStack)
  {
    hide KernelInv, Zones, P.Waiting;
  }

  lemma AfterParts(c: Computer, x: Action)
    requires Proper(c, x)
    ensures After(c, x).kernel == KernelAfter(c, x) && After(c, x).kernelStack == c.kernelStack
  {
    hide Proper, KernelAfter, Interrupted, RestoredByPop, RestoredBySwitch, PushAll;
  }

  /** A waiting task keeps its entry in the ledger until it becomes current, and then has those registers. */
  lemma WaitsOrResumes(c: Computer, ledger: map<nat, Regs>, x: Action, a: nat)
    requires Waits(c, a) && Good(c, ledger) && Proper(c, x)
    ensures Refines(c, ledger, x) && Good(After(c, x), LedgerAfter(c, ledger, x))
    ensures a in ledger && After(c, x).kernel.ring.cur < |After(c, x).kernel.ring.list|
    ensures if Current(After(c, x)) == a then After(c, x).regs == ledger[a]
            else Waits(After(c, x), a) && a in LedgerAfter(c, ledger, x) && LedgerAfter(c, ledger, x)[a] == ledger[a]
  {
    hide Good, Proper, After, EventOf, P.Orderly, P.May, P.Next, Zones, T.Tick;
    GoodCurrent(c, ledger);
    GoodIsOrderly(c, ledger);
    AfterGood(c, ledger, x);
    AfterParts(c, x);
    P.WaitsOrResumes(View(c, ledger), EventOf(c, x), a);
  }

  /** The task whose record is at `a` waits: it is listed and not current. */
  predicate Waits(c: Computer, a: nat) {
    c.kernel.ring.cur < |c.kernel.ring.list| && a in Zones(c.kernel.ring.list, c.kernelStack) && a != Current(c)
  }

  ghost predicate ProperRun(c: Computer, xs: seq<Action>)
    decreases |xs|
  {
    xs == [] || (Proper(c, xs[0]) && ProperRun(After(c, xs[0]), xs[1..]))
  }

  ghost function RunTo(c: Computer, xs: seq<Action>): Computer
    requires ProperRun(c, xs)
    decreases |xs|
  {
    if xs == [] then c else RunTo(After(c, xs[0]), xs[1..])
  }

  /** The kernel invariant and the frames of all waiting tasks survive every run. */
  lemma {:induction false} RunGood(c: Computer, ledger: map<nat, Regs>, xs: seq<Action>) returns (after: map<nat, Regs>)
    requires Good(c, ledger) && ProperRun(c, xs)
    ensures Good(RunTo(c, xs), after)
    decreases |xs|
  {
    hide Good, Proper, After;
    after := ledger;
    if xs != [] {
      AfterGood(c, ledger, xs[0]);
      after := RunGood(After(c, xs[0]), LedgerAfter(c, ledger, xs[0]), xs[1..]);
    }
  }

  /** After `task_init` nobody waits, so any registers and stack contents will do. */
  lemma StartGood(c: Computer, kernel: nat, stack: nat)
    requires KernelInv(c.kernel) && c.kernel.ring == T.InitRing(kernel, stack) && StackAbove(c.kernelStack)
    ensures Good(c, map[])
  {
    hide KernelInv, P.Waiting, Zones;
    ZonesAt(c.kernel.ring.list, c.kernelStack);
  }

  /** At some point of the run the task at `a` is current, and the first time it is, its registers are `r`. */
  ghost predicate ResumesWith(c: Computer, xs: seq<Action>, a: nat, r: Regs)
    requires ProperRun(c, xs)
    decreases |xs|
  {
    c.kernel.ring.cur < |c.kernel.ring.list|
    && if Current(c) == a then c.regs == r else xs != [] && ResumesWith(After(c, xs[0]), xs[1..], a, r)
  }

  function Ticks(xs: seq<Action>): nat {
    if xs == [] then 0 else (if xs[0].TimerTick? then 1 else 0) + Ticks(xs[1..])
  }

  function Creations(xs: seq<Action>): nat {
    if xs == [] then 0 else (if xs[0].Create? then 1 else 0) + Creations(xs[1..])
  }

  /** The run has n + ceil(n / 999) ticks, fewer than the counter's range. */
  predicate EnoughTicks(n: nat, xs: seq<Action>) {
    n + (n + 998) / 999 <= Ticks(xs) && n + (n + 998) / 999 < DWORD_LIMIT
  }

  /** What an action does to the task list. */
  ghost function RingOp(c: Computer, x: Action): seq<T.TaskOp>
    requires Proper(c, x)
  {
    match x
    case TimerTick(_, _, _, _, _) => [T.TimerTick]
    case Create(_, _, _, _, _) => [T.CreateTask(AllocPtr(c.kernel.sys.heap, TASK_SIZE), NewStack(c.kernel.sys))]
    case Exit(_, _) => [T.ExitTask]
    case _ => []
  }

  ghost function RingOps(c: Computer, xs: seq<Action>): seq<T.TaskOp>
    requires ProperRun(c, xs)
    decreases |xs|
  {
    if xs == [] then [] else RingOp(c, xs[0]) + RingOps(After(c, xs[0]), xs[1..])
  }

  lemma RingStep(c: Computer, x: Action)
    requires KernelInv(c.kernel) && Proper(c, x)
    ensures RingOp(c, x) == [] ==> After(c, x).kernel.ring == c.kernel.ring
    ensures |RingOp(c, x)| <= 1
    ensures RingOp(c, x) != [] ==>
      T.Allowed(c.kernel.ring, RingOp(c, x)[0]) && After(c, x).kernel.ring == T.Do(c.kernel.ring, RingOp(c, x)[0])
  {
    hide KernelInv, CanCreate, Respects, DescriptorAt, P.KeepsOthers, P.CanInterrupt, P.HandlerLeaves, View, Interrupted,
      RestoredByPop, RestoredBySwitch, PushAll, ReapMemory, CreateMemory, AllocPtr, NewStack, Satisfiable, Step, SavedAfterTick,
      ResumeFrom;
    AfterParts(c, x);
    if x.Create? {
      NewAddress(c.kernel);
    }
  }

  lemma {:induction false} RingOpsAllowed(c: Computer, xs: seq<Action>)
    requires KernelInv(c.kernel) && ProperRun(c, xs)
    ensures T.AllowedRun(c.kernel.ring, RingOps(c, xs))
    ensures T.Ticks(RingOps(c, xs)) == Ticks(xs) && T.Creations(RingOps(c, xs)) == Creations(xs)
    decreases |xs|
  {
    hide KernelInv, Proper, After, T.Do, T.Allowed;
    if xs != [] {
      KernelCurrent(c.kernel);
      KernelKept(c, xs[0]);
      AfterParts(c, xs[0]);
      RingStep(c, xs[0]);
      RingOpsAllowed(After(c, xs[0]), xs[1..]);
      var op, rest := RingOp(c, xs[0]), RingOps(After(c, xs[0]), xs[1..]);
      if op == [] {
        assert op + rest == rest;
      } else {
        assert (op + rest)[1..] == rest;
      }
    }
  }

  lemma {:induction false} ResumesWhenCurrent(c: Computer, ledger: map<nat, Regs>, xs: seq<Action>, a: nat)
    requires Waits(c, a) && Good(c, ledger) && ProperRun(c, xs)
    requires T.AllowedRun(c.kernel.ring, RingOps(c, xs)) && T.BecomesCurrent(c.kernel.ring, RingOps(c, xs), a)
    ensures a in ledger && ResumesWith(c, xs, a, ledger[a])
    decreases |xs|
  {
    hide Good, Proper, After, RingOp, T.Do, T.Allowed, Zones, LedgerAfter, Refines;
    GoodCurrent(c, ledger);
    GoodKernel(c, ledger);
    if xs != [] {
      var d := After(c, xs[0]);
      WaitsOrResumes(c, ledger, xs[0], a);
      GoodCurrent(d, LedgerAfter(c, ledger, xs[0]));
      AfterParts(c, xs[0]);
      RingStep(c, xs[0]);
      var op, rest := RingOp(c, xs[0]), RingOps(d, xs[1..]);
      if op == [] {
        assert op + rest == rest;
      } else {
        assert (op + rest)[1..] == rest && (op + rest)[0] == op[0];
      }
      if Current(d) != a {
        ResumesWhenCurrent(d, LedgerAfter(c, ledger, xs[0]), xs[1..], a);
      }
    }
  }

  /** Every waiting task comes back within N + ceil(N / 999) ticks, N counting tasks and creations, and when it does it
      has exactly the registers it stopped with. */
  lemma {:induction false} WaitingResumesInTime(c: Computer, ledger: map<nat, Regs>, xs: seq<Action>, a: nat)
    requires Waits(c, a) && Good(c, ledger) && ProperRun(c, xs)
    requires EnoughTicks(|c.kernel.ring.list| + Creations(xs), xs)
    ensures a in ledger && ResumesWith(c, xs, a, ledger[a])
  {
    hide Good, ProperRun, RingOps, Zones, KernelInv, T.BecomesCurrent, T.AllowedRun, Ticks, Creations, ResumesWith, T.Ticks,
      T.Creations, T.Sound;
    GoodKernel(c, ledger);
    KernelIsSound(c.kernel);
    RingOpsAllowed(c, xs);
    var i := PlaceOf(c.kernel, c.kernelStack, a);
    T.BoundedWaiting(c.kernel.ring, RingOps(c, xs), a, i);
    ResumesWhenCurrent(c, ledger, xs, a);
  }

  /** A task interrupted by a tick that switches away from it runs again within N + ceil(N / 999) ticks, whatever runs,
      exits, is created and is reaped meanwhile, and then has every register it was interrupted with. */
  lemma {:induction false} PreemptedResumesInTime(c: Computer, ledger: map<nat, Regs>, x: Action, xs: seq<Action>)
    requires Good(c, ledger) && Proper(c, x) && x.TimerTick?
    requires !T.Skips(T.Tick(c.kernel.ring).time) && c.kernel.ring.list[c.kernel.ring.cur].running
    requires ProperRun(After(c, x), xs)
    requires EnoughTicks(|c.kernel.ring.list| + Creations(xs), xs)
    ensures ResumesWith(After(c, x), xs, Current(c), c.regs)
  {
    hide Good, Proper, Zones, KernelInv, EnoughTicks, Creations, T.Sound, After, LedgerAfter, Refines, T.Tick, T.Skips, ProperRun;
    var d := After(c, x);
    GoodCurrent(c, ledger);
    AfterGood(c, ledger, x);
    GoodCurrent(d, LedgerAfter(c, ledger, x));
    PreemptedEntry(c, ledger, x);
    if Current(d) != Current(c) {
      WaitingResumesInTime(d, LedgerAfter(c, ledger, x), xs, Current(c));
    }
  }

  /** The tick enters the task it leaves in the ledger with the registers it interrupted. */
  lemma PreemptedEntry(c: Computer, ledger: map<nat, Regs>, x: Action)
    requires Good(c, ledger) && Proper(c, x) && x.TimerTick? && Refines(c, ledger, x)
    requires !T.Skips(T.Tick(c.kernel.ring).time) && c.kernel.ring.list[c.kernel.ring.cur].running
    ensures var d := After(c, x);
      && |d.kernel.ring.list| == |c.kernel.ring.list| && d.kernel.ring.cur < |d.kernel.ring.list|
      && (if Current(d) == Current(c) then d.regs == c.regs else Waits(d, Current(c)))
      && Current(c) in LedgerAfter(c, ledger, x) && LedgerAfter(c, ledger, x)[Current(c)] == c.regs
  {
    hide KernelInv, Zones, T.Sound, P.May, P.Orderly, P.Waiting, Interrupted, RestoredBySwitch, RestoredByPop, ReapMemory,
      DescriptorAt, P.KeepsOthers, P.CanInterrupt, P.HandlerLeaves;
    GoodIsOrderly(c, ledger);
    KernelIsSound(c.kernel);
    DistinctAddresses(c.kernel.ring);
    ZonesAt(c.kernel.ring.list, c.kernelStack);
    P.SwitchResumes(View(c, ledger), EventOf(c, x));
  }

  /** A new task runs within N + ceil(N / 999) ticks of its creation, and starts at its entry address, on its own page. */
  lemma {:induction false} CreatedStartsInTime(c: Computer, ledger: map<nat, Regs>, x: Action, xs: seq<Action>)
    requires Good(c, ledger) && Proper(c, x) && x.Create? && ProperRun(After(c, x), xs)
    requires EnoughTicks(|c.kernel.ring.list| + 1 + Creations(xs), xs)
    ensures ResumesWith(After(c, x), xs, AllocPtr(c.kernel.sys.heap, TASK_SIZE),
                        EntryRegs(NewTop(c.kernel), x.entry, x.cs, x.ss, x.args))
  {
    hide Good, Proper, Zones, KernelInv, EnoughTicks, Creations, ProperRun, ResumesWith, AllocPtr, EntryRegs, NewTop, After,
      LedgerAfter, Refines, Waits, Satisfiable;
    AfterGood(c, ledger, x);
    ProperCreate(c, x);
    CreatedEntry(c, ledger, x);
    WaitingResumesInTime(After(c, x), LedgerAfter(c, ledger, x), xs, AllocPtr(c.kernel.sys.heap, TASK_SIZE));
  }

  lemma ProperCreate(c: Computer, x: Action)
    requires Proper(c, x) && x.Create?
    ensures Satisfiable(c.kernel.sys.heap, TASK_SIZE + HEADER)
  {
    hide CanCreate, Satisfiable;
    CanCreateFits(c.kernel);
  }

  lemma CreatedEntry(c: Computer, ledger: map<nat, Regs>, x: Action)
    requires Good(c, ledger) && Proper(c, x) && x.Create? && Refines(c, ledger, x)
    ensures var d, a := After(c, x), AllocPtr(c.kernel.sys.heap, TASK_SIZE);
      && |d.kernel.ring.list| == |c.kernel.ring.list| + 1 && d.kernel.ring.cur < |d.kernel.ring.list|
      && Waits(d, a) && a in LedgerAfter(c, ledger, x)
      && LedgerAfter(c, ledger, x)[a] == EntryRegs(NewTop(c.kernel), x.entry, x.cs, x.ss, x.args)
  {
    hide KernelInv, Zones, P.May, P.Waiting, CanCreate, PushAll, CreateMemory, NewStack, AllocPtr, Satisfiable, NewFrameWords,
      EntryRegs, P.KeepsOthers;
    CanCreateFits(c.kernel);
    NewZone(c, ledger);
    NewAddress(c.kernel);
  }
}

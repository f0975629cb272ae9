/** Tasks running in turn on one processor: between a task's preemption and its resumption its frame survives
    everything the other tasks, the handlers and the reaper do. */
module Preemption {
  import opened Words
  import opened Registers

  /** The stack area of a task, [lo, hi). */
  datatype Zone = Zone(lo: nat, hi: nat)

  /** Memory, processor, current task, and for each task its stack area, the stack pointer in its record, and
      (for the proofs only) the registers it was preempted with. `TaskSwitching` shows that the kernel's own
      steps are steps of this machine. */
  datatype Machine = Machine(mem: Memory, regs: Regs, cur: nat, zones: map<nat, Zone>, saved: map<nat, nat>, ledger: map<nat, Regs>)

  predicate Within(z: Zone, a: nat) {
    z.lo <= a < z.hi
  }

  predicate Apart(y: Zone, z: Zone) {
    y.hi <= z.lo || z.hi <= y.lo
  }

  /** Only the current task's own area and memory outside all areas may have changed. */
  ghost predicate KeepsOthers(s: Machine, m: Memory) {
    forall t, a {:trigger s.zones[t], Read(m, a)} :: t in s.zones && t != s.cur && Within(s.zones[t], a) ==>
      Read(m, a) == Read(s.mem, a)
  }

  /** A waiting task's frame lies in its area and restores to the registers in the ledger. */
  ghost predicate Waiting(s: Machine, t: nat) {
    && t in s.saved && t in s.ledger && t in s.zones
    && s.zones[t].lo <= s.saved[t] && s.saved[t] + FRAME <= s.zones[t].hi
    && RestoredBySwitch(s.mem, s.saved[t]) == s.ledger[t]
  }

  ghost predicate Orderly(s: Machine) {
    && s.cur in s.zones
    && (forall t, u :: t in s.zones && u in s.zones && t != u ==> Apart(s.zones[t], s.zones[u]))
    && (forall t :: t in s.zones && t != s.cur ==> Waiting(s, t))
  }

  /** An interrupt taken on the current task's stack with room for the frame. */
  predicate CanInterrupt(s: Machine) {
    s.cur in s.zones && s.regs.rsp >= FRAME + 16 && s.zones[s.cur].lo <= FrameBase(s.regs.rsp) && s.regs.rsp <= s.zones[s.cur].hi
  }

  datatype Event =
    | Work(mem: Memory, regs: Regs)                               // the current task runs
    | Handled(irq: nat, vector: nat, ctl: Control, mem: Memory)   // an interrupt that returns to the same task
    | Preempt(irq: nat, vector: nat, ctl: Control, mem: Memory, to: nat)  // a tick that switches
    | Reap(mem: Memory, to: nat)                                  // the exited current task is removed
    | Spawn(t: nat, zone: Zone, mem: Memory, sp: nat, regs: Regs) // a task is created

  /** Memory a handler may leave: the frame untouched, other tasks' areas untouched. */
  ghost predicate HandlerLeaves(s: Machine, framed: Memory, m: Memory) {
    && KeepsOthers(s.(mem := framed), m)
    && (CanInterrupt(s) ==> forall a :: FrameBase(s.regs.rsp) <= a < FrameBase(s.regs.rsp) + FRAME ==> Read(m, a) == Read(framed, a))
  }

  ghost predicate May(s: Machine, e: Event) {
    match e
    case Work(mem, regs) => KeepsOthers(s, mem)
    case Handled(irq, vector, ctl, mem) => CanInterrupt(s) && HandlerLeaves(s, Interrupted(s.mem, s.regs, irq, vector, ctl), mem)
    case Preempt(irq, vector, ctl, mem, to) =>
      CanInterrupt(s) && HandlerLeaves(s, Interrupted(s.mem, s.regs, irq, vector, ctl), mem) && to in s.zones
    case Reap(mem, to) => KeepsOthers(s, mem) && to in s.zones && to != s.cur
    case Spawn(t, zone, mem, sp, regs) =>
      && t !in s.zones && KeepsOthers(s, mem) && (forall u :: u in s.zones ==> Apart(s.zones[u], zone))
      && zone.lo <= sp && sp + FRAME <= zone.hi && RestoredBySwitch(mem, sp) == regs
  }

  function Next(s: Machine, e: Event): Machine
    requires e.Handled? || e.Preempt? ==> s.regs.rsp >= FRAME + 16
  {
    match e
    case Work(mem, regs) => s.(mem := mem, regs := regs)
    case Handled(irq, vector, ctl, mem) => s.(mem := mem, regs := RestoredByPop(mem, FrameBase(s.regs.rsp)))
    case Preempt(irq, vector, ctl, mem, to) =>
      var saved := s.saved[s.cur := FrameBase(s.regs.rsp)];
      Machine(mem, RestoredBySwitch(mem, if to in saved then saved[to] else 0), to, s.zones, saved, s.ledger[s.cur := s.regs])
    case Reap(mem, to) =>
      Machine(mem, RestoredBySwitch(mem, if to in s.saved then s.saved[to] else 0), to, s.zones - {s.cur}, s.saved, s.ledger)
    case Spawn(t, zone, mem, sp, regs) =>
      s.(mem := mem, zones := s.zones[t := zone], saved := s.saved[t := sp], ledger := s.ledger[t := regs])
  }

  /** A frame whose words are unchanged restores the same registers. */
  lemma SameFrame(m: Memory, n: Memory, s: nat)
    requires forall a :: s <= a < s + FRAME ==> Read(n, a) == Read(m, a)
    ensures RestoredBySwitch(n, s) == RestoredBySwitch(m, s)
  {
    hide Read;
  }

  /** Pushing the interrupt frame writes only in the current task's area. */
  lemma InterruptStaysHome(s: Machine, irq: nat, vector: nat, c: Control)
    requires Orderly(s) && CanInterrupt(s)
    ensures KeepsOthers(s, Interrupted(s.mem, s.regs, irq, vector, c))
  {
    hide PushAll, Read, RestoredBySwitch, Waiting;
    var m := Interrupted(s.mem, s.regs, irq, vector, c);
    forall t, a | t in s.zones && t != s.cur && Within(s.zones[t], a) ensures Read(m, a) == Read(s.mem, a) {
      assert Apart(s.zones[t], s.zones[s.cur]);
      PushAllRead(s.mem, AlignedTop(s.regs.rsp), FrameWords(s.regs, irq, vector, c), a);
    }
  }

  lemma StillWaiting(s: Machine, m: Memory, t: nat)
    requires Waiting(s, t) && t != s.cur && KeepsOthers(s, m)
    ensures RestoredBySwitch(m, s.saved[t]) == s.ledger[t]
  {
    hide Read, RestoredBySwitch;
    forall a | s.saved[t] <= a < s.saved[t] + FRAME ensures Read(m, a) == Read(s.mem, a) {
      assert Within(s.zones[t], a);
    }
    SameFrame(s.mem, m, s.saved[t]);
  }

  lemma KeepsTwice(s: Machine, m: Memory, n: Memory)
    requires KeepsOthers(s, m) && KeepsOthers(s.(mem := m), n)
    ensures KeepsOthers(s, n)
  {
    hide Read;
  }

  /** An interrupt that returns to the same task leaves its registers as they were, every one of them. */
  lemma HandledResumes(s: Machine, e: Event)
    requires Orderly(s) && May(s, e) && e.Handled?
    ensures Next(s, e).regs == s.regs
  {
    hide Read, RestoredBySwitch, RestoredByPop, Waiting, KeepsOthers;
    var b := FrameBase(s.regs.rsp);
    var framed := Interrupted(s.mem, s.regs, e.irq, e.vector, e.ctl);
    InterruptSaves(s.mem, s.regs, e.irq, e.vector, e.ctl);
    SameFrame(framed, e.mem, b);
    assert Read(e.mem, b + 0x40) == Read(framed, b + 0x40);
    PathsAgree(e.mem, b);
  }

  lemma InterruptedStep(s: Machine, e: Event)
    requires Orderly(s) && May(s, e) && (e.Handled? || e.Preempt?)
    ensures KeepsOthers(s, e.mem)
    ensures RestoredBySwitch(e.mem, FrameBase(s.regs.rsp)) == s.regs
  {
    hide Read, RestoredBySwitch, Waiting, KeepsOthers;
    InterruptSaves(s.mem, s.regs, e.irq, e.vector, e.ctl);
    InterruptStaysHome(s, e.irq, e.vector, e.ctl);
    KeepsTwice(s, Interrupted(s.mem, s.regs, e.irq, e.vector, e.ctl), e.mem);
    SameFrame(Interrupted(s.mem, s.regs, e.irq, e.vector, e.ctl), e.mem, FrameBase(s.regs.rsp));
  }

  /** Every event keeps all waiting frames intact. */
  lemma NextOrderly(s: Machine, e: Event)
    requires Orderly(s) && May(s, e)
    ensures Orderly(Next(s, e))
  {
    hide Read, RestoredBySwitch, RestoredByPop, KeepsOthers, HandlerLeaves, Interrupted, Waiting;
    var n := Next(s, e);
    match e
    case Work(mem, regs) => OthersWait(s, n);
    case Handled(irq, vector, ctl, mem) =>
      InterruptedStep(s, e);
      OthersWait(s, n);
    case Preempt(irq, vector, ctl, mem, to) =>
      InterruptedStep(s, e);
      forall t | t in n.zones && t != n.cur ensures Waiting(n, t) {
        PreemptedWaits(s, e, t);
      }
    case Reap(mem, to) =>
      forall t | t in n.zones && t != n.cur ensures Waiting(n, t) {
        StillWaiting(s, mem, t);
        ReapedOthers(s, e, t);
      }
    case Spawn(t, zone, mem, sp, regs) =>
      forall u | u in n.zones && u != n.cur ensures Waiting(n, u) {
        SpawnedOthers(s, e, u);
      }
  }

  lemma OthersWait(s: Machine, n: Machine)
    requires Orderly(s) && KeepsOthers(s, n.mem) && n.zones == s.zones && n.saved == s.saved && n.ledger == s.ledger && n.cur == s.cur
    ensures forall t :: t in n.zones && t != n.cur ==> Waiting(n, t)
  {
    hide Read, RestoredBySwitch, KeepsOthers;
    forall t | t in n.zones && t != n.cur ensures Waiting(n, t) {
      StillWaiting(s, n.mem, t);
    }
  }

  lemma PreemptedWaits(s: Machine, e: Event, t: nat)
    requires Orderly(s) && May(s, e) && e.Preempt? && t in s.zones
    requires KeepsOthers(s, e.mem) && RestoredBySwitch(e.mem, FrameBase(s.regs.rsp)) == s.regs
    ensures Waiting(Next(s, e), t)
  {
    hide Read, RestoredBySwitch, KeepsOthers, HandlerLeaves, Interrupted;
    if t != s.cur {
      StillWaiting(s, e.mem, t);
    }
  }

  lemma ReapedOthers(s: Machine, e: Event, t: nat)
    requires Orderly(s) && May(s, e) && e.Reap? && t in s.zones && t != s.cur
    requires RestoredBySwitch(e.mem, s.saved[t]) == s.ledger[t]
    ensures Waiting(Next(s, e), t)
  {
    hide Read, RestoredBySwitch, KeepsOthers;
  }

  lemma SpawnedOthers(s: Machine, e: Event, u: nat)
    requires Orderly(s) && May(s, e) && e.Spawn? && u in Next(s, e).zones && u != s.cur
    ensures Waiting(Next(s, e), u)
  {
    hide Read, RestoredBySwitch, KeepsOthers;
    if u != e.t {
      StillWaiting(s, e.mem, u);
    }
  }

  /** A switch, whether by a tick or by the reaper, resumes the chosen task with the registers in the ledger. */
  lemma SwitchResumes(s: Machine, e: Event)
    requires Orderly(s) && May(s, e) && (e.Preempt? || e.Reap?)
    ensures e.to in s.zones
    ensures Next(s, e).cur == e.to
    ensures Next(s, e).regs == if e.to == s.cur then s.regs else if e.to in s.ledger then s.ledger[e.to] else s.regs
    ensures e.to != s.cur ==> e.to in s.ledger
  {
    hide Read, RestoredBySwitch, KeepsOthers, HandlerLeaves, Interrupted;
    if e.Preempt? {
      InterruptedStep(s, e);
    }
    if e.to != s.cur {
      assert Waiting(s, e.to);
      StillWaiting(s, e.mem, e.to);
    }
  }

  /** A waiting task stays in the ledger until the step that makes it current, and that step gives it those registers. */
  lemma WaitsOrResumes(s: Machine, e: Event, t: nat)
    requires Orderly(s) && May(s, e) && t in s.zones && t != s.cur
    ensures t in s.ledger && Orderly(Next(s, e)) && t in Next(s, e).zones
    ensures if Next(s, e).cur == t then Next(s, e).regs == s.ledger[t]
            else t in Next(s, e).ledger && Next(s, e).ledger[t] == s.ledger[t]
  {
    hide Waiting, KeepsOthers, HandlerLeaves, RestoredBySwitch, RestoredByPop, Interrupted;
    InLedger(s, t);
    NextOrderly(s, e);
    if e.Preempt? || e.Reap? {
      SwitchResumes(s, e);
    }
  }

  // ---------------------------------------------------------------- runs

  ghost predicate MayRun(s: Machine, es: seq<Event>)
    decreases |es|
  {
    es == [] || (May(s, es[0]) && MayRun(Next(s, es[0]), es[1..]))
  }

  ghost function RunAll(s: Machine, es: seq<Event>): Machine
    requires MayRun(s, es)
    decreases |es|
  {
    if es == [] then s else RunAll(Next(s, es[0]), es[1..])
  }

  /** No event of the run makes `t` current. */
  ghost predicate NeverRuns(es: seq<Event>, t: nat) {
    forall i :: 0 <= i < |es| && (es[i].Preempt? || es[i].Reap?) ==> es[i].to != t
  }

  lemma {:induction false} RunOrderly(s: Machine, es: seq<Event>)
    requires Orderly(s) && MayRun(s, es)
    ensures Orderly(RunAll(s, es))
    decreases |es|
  {
    hide Orderly, May, Next;
    if es != [] {
      StepSafe(s, es[0]);
      NextOrderly(s, es[0]);
      RunOrderly(Next(s, es[0]), es[1..]);
    }
  }

  lemma StepSafe(s: Machine, e: Event)
    requires May(s, e)
    ensures e.Handled? || e.Preempt? ==> s.regs.rsp >= FRAME + 16
  {
  }

  /** While it does not run, a task's ledger entry does not change. */
  lemma {:induction false} LedgerKept(s: Machine, es: seq<Event>, t: nat)
    requires Orderly(s) && MayRun(s, es) && t in s.zones && t != s.cur && NeverRuns(es, t)
    ensures var n := RunAll(s, es);
      t in n.zones && t != n.cur && t in s.ledger && t in n.ledger && n.ledger[t] == s.ledger[t]
    decreases |es|
  {
    hide Waiting, KeepsOthers, HandlerLeaves, RestoredBySwitch, RestoredByPop, Interrupted;
    InLedger(s, t);
    if es != [] {
      NextOrderly(s, es[0]);
      LedgerKept(Next(s, es[0]), es[1..], t);
    }
  }

  lemma InLedger(s: Machine, t: nat)
    requires Orderly(s) && t in s.zones && t != s.cur
    ensures t in s.ledger
  {
    hide RestoredBySwitch;
    assert Waiting(s, t);
  }

  /** Preempted by a tick and resumed after any run in which it did not itself run, a task has exactly the general
      registers, instruction pointer, stack pointer and flags it was interrupted with. */
  lemma PreemptedTaskResumes(s: Machine, first: Event, es: seq<Event>, last: Event)
    requires Orderly(s) && May(s, first) && first.Preempt? && first.to != s.cur
    requires MayRun(Next(s, first), es) && NeverRuns(es, s.cur)
    requires var n := RunAll(Next(s, first), es); May(n, last) && (last.Preempt? || last.Reap?) && last.to == s.cur
    ensures var n := Next(RunAll(Next(s, first), es), last); n.cur == s.cur && n.regs == s.regs
  {
    hide Waiting, KeepsOthers, HandlerLeaves, RestoredBySwitch, Interrupted;
    NextOrderly(s, first);
    RunOrderly(Next(s, first), es);
    LedgerKept(Next(s, first), es, s.cur);
    SwitchResumes(RunAll(Next(s, first), es), last);
  }
}

/** The scheduler's task list and its steps: create, exit, timer tick. */
module TaskRing {
  import opened Words

  /** What the scheduler reads of a task_info_t: its address, id, stack page and RUNNING flag. */
  datatype Task = Task(addr: nat, id: nat, provider: nat, running: bool)

  /** The list from kernel_task in link order, the index of task_current, the tick counter and the next id. */
  datatype Ring = Ring(list: seq<Task>, cur: nat, time: nat, nextId: nat)

  /** Distinct addresses (so following links never revisits a task), ids increasing along the list, the kernel
      task first with id 0, and every task but the current one still RUNNING. */
  ghost predicate Sound(r: Ring) {
    && r.cur < |r.list| && r.list[0].id == 0 && r.list[0].running
    && (forall i, j :: 0 <= i < j < |r.list| ==> r.list[i].id < r.list[j].id)
    && (forall i, j :: 0 <= i < j < |r.list| ==> r.list[i].addr != r.list[j].addr)
    && (forall i :: 0 <= i < |r.list| ==> r.list[i].addr > 0 && r.list[i].id < r.nextId)
    && (forall i :: 0 <= i < |r.list| && i != r.cur ==> r.list[i].running)
    && 0 < r.nextId && r.time < DWORD_LIMIT
  }

  /** `task_init`. */
  function InitRing(kernel: nat, stack: nat): Ring {
    Ring([Task(kernel, 0, stack, true)], 0, 0, 1)
  }

  /** The list part of `task_create_impl`: the new task goes to the end. Ids are 32-bit. */
  function Create(r: Ring, addr: nat, provider: nat): Ring {
    r.(list := r.list + [Task(addr, r.nextId, provider, true)], nextId := (r.nextId + 1) % DWORD_LIMIT)
  }

  /** `task_exit` by the current task: the kernel task returns, any other loses its RUNNING flag. */
  function Exit(r: Ring): Ring
    requires r.cur < |r.list|
  {
    if r.list[r.cur].id == 0 then r
    else r.(list := r.list[r.cur := r.list[r.cur].(running := false)])
  }

  /** `switch_task`: on to the next link, or back to the kernel task. */
  function Switch(r: Ring): Ring {
    r.(cur := if r.cur + 1 < |r.list| then r.cur + 1 else 0)
  }

  /** `task_remove`: unlink the current task and go on to its successor, or back to the kernel task. */
  function Remove(r: Ring): Ring
    requires r.cur < |r.list|
  {
    r.(list := r.list[..r.cur] + r.list[r.cur + 1..], cur := if r.cur + 1 < |r.list| then r.cur else 0)
  }

  /** A tick at a multiple of 1000 only counts. */
  predicate Skips(time: nat) {
    time % 1000 == 0
  }

  /** `irq_time_handle`. The counter is 32 bits wide. */
  function Tick(r: Ring): Ring
    requires r.cur < |r.list|
  {
    var t := r.(time := (r.time + 1) % DWORD_LIMIT);
    if Skips(t.time) then t
    else if !r.list[r.cur].running then Remove(t)
    else Switch(t)
  }

  // ---------------------------------------------------------------- invariants

  lemma InitSound(kernel: nat, stack: nat)
    requires kernel > 0
    ensures Sound(InitRing(kernel, stack))
  {
  }

  lemma CreateSound(r: Ring, addr: nat, provider: nat)
    requires Sound(r) && addr > 0 && r.nextId + 1 < DWORD_LIMIT
    requires forall i :: 0 <= i < |r.list| ==> r.list[i].addr != addr
    ensures Sound(Create(r, addr, provider))
  {
  }

  lemma ExitSound(r: Ring)
    requires Sound(r)
    ensures Sound(Exit(r))
  {
  }

  lemma RemoveSound(r: Ring)
    requires Sound(r) && r.cur > 0 && !r.list[r.cur].running
    ensures Sound(Remove(r))
  {
    var m, l := Remove(r), r.list;
    forall i | 0 <= i < |m.list| ensures m.list[i] == l[if i < r.cur then i else i + 1] {
    }
    SoundParts(r, m);
  }

  /** Dropping one record other than the first from a sound list. */
  lemma SoundParts(r: Ring, m: Ring)
    requires Sound(r) && r.cur > 0 && |m.list| == |r.list| - 1 && m.cur < |m.list|
    requires forall i :: 0 <= i < |m.list| ==> m.list[i] == r.list[if i < r.cur then i else i + 1]
    requires m.nextId == r.nextId && m.time == r.time
    ensures Sound(m)
  {
    var l := r.list;
    forall i, j | 0 <= i < j < |m.list| ensures m.list[i].id < m.list[j].id && m.list[i].addr != m.list[j].addr {
      var i', j' := if i < r.cur then i else i + 1, if j < r.cur then j else j + 1;
      assert m.list[i] == l[i'] && m.list[j] == l[j'] && i' < j';
    }
    assert m.list[0] == l[0];
  }

  lemma CounterSound(r: Ring, time: nat)
    requires Sound(r) && time < DWORD_LIMIT
    ensures Sound(r.(time := time)) && (!r.list[r.cur].running ==> r.cur > 0)
  {
  }

  lemma SwitchSound(r: Ring)
    requires Sound(r) && r.list[r.cur].running
    ensures Sound(Switch(r))
  {
  }

  /** The kernel task never loses RUNNING, so the task a tick removes is another one. */
  lemma TickSound(r: Ring)
    requires Sound(r)
    ensures Sound(Tick(r)) && Tick(r).list[0] == r.list[0]
    ensures !r.list[r.cur].running ==> r.cur > 0
  {
    hide Sound;
    var t := r.(time := (r.time + 1) % DWORD_LIMIT);
    CounterSound(r, t.time);
    if !r.list[r.cur].running {
      RemoveSound(t);
    } else {
      SwitchSound(t);
    }
  }

  datatype TaskOp = CreateTask(addr: nat, provider: nat) | ExitTask | TimerTick

  function Do(r: Ring, op: TaskOp): Ring
    requires r.cur < |r.list|
  {
    match op
    case CreateTask(addr, provider) => Create(r, addr, provider)
    case ExitTask => Exit(r)
    case TimerTick => Tick(r)
  }

  /** A task block at a fresh address, and fewer than 2^32 tasks created so far. */
  ghost predicate Allowed(r: Ring, op: TaskOp) {
    op.CreateTask? ==>
      op.addr > 0 && r.nextId + 1 < DWORD_LIMIT && forall i :: 0 <= i < |r.list| ==> r.list[i].addr != op.addr
  }

  ghost predicate AllowedRun(r: Ring, ops: seq<TaskOp>)
    decreases |ops|
  {
    ops == [] || (r.cur < |r.list| && Allowed(r, ops[0]) && AllowedRun(Do(r, ops[0]), ops[1..]))
  }

  function Run(r: Ring, ops: seq<TaskOp>): Ring
    requires AllowedRun(r, ops)
    decreases |ops|
  {
    if ops == [] then r else Run(Do(r, ops[0]), ops[1..])
  }

  lemma DoSound(r: Ring, op: TaskOp)
    requires Sound(r) && Allowed(r, op)
    ensures Sound(Do(r, op)) && Do(r, op).list[0].addr == r.list[0].addr
  {
    match op
    case CreateTask(addr, provider) => CreateSound(r, addr, provider);
    case ExitTask => ExitSound(r);
    case TimerTick => TickSound(r);
  }

  /** Every reachable list is sound and still headed by the kernel task. */
  lemma {:induction false} RunSound(r: Ring, ops: seq<TaskOp>)
    requires Sound(r) && AllowedRun(r, ops)
    ensures Sound(Run(r, ops)) && Run(r, ops).list[0].addr == r.list[0].addr
    decreases |ops|
  {
    hide Allowed, Do;
    if ops != [] {
      DoSound(r, ops[0]);
      RunSound(Do(r, ops[0]), ops[1..]);
    }
  }

  // ---------------------------------------------------------------- bounded waiting

  /** How many switching ticks bring the task at index p round to be current. */
  function Dist(r: Ring, p: nat): nat
    requires r.cur < |r.list| && p < |r.list|
  {
    if p > r.cur then p - r.cur else |r.list| - r.cur + p
  }

  predicate Listed(r: Ring, a: nat, p: nat) {
    p < |r.list| && r.list[p].addr == a
  }

  /** The task at address `a` is current. */
  predicate IsCurrent(r: Ring, a: nat) {
    r.cur < |r.list| && r.list[r.cur].addr == a
  }

  /** A tick that switches brings every other task exactly one step nearer, whether or not the current one is
      reaped by it; a tick that does not switch changes nothing. */
  lemma TickDistance(r: Ring, a: nat, p: nat) returns (q: nat)
    requires Sound(r) && Listed(r, a, p) && p != r.cur
    ensures Sound(Tick(r)) && Listed(Tick(r), a, q)
    ensures Skips(Tick(r).time) ==> q != Tick(r).cur && Dist(Tick(r), q) == Dist(r, p)
    ensures !Skips(Tick(r).time) ==>
      if Dist(r, p) == 1 then q == Tick(r).cur else q != Tick(r).cur && Dist(Tick(r), q) == Dist(r, p) - 1
  {
    TickSound(r);
    q := if !Skips(Tick(r).time) && !r.list[r.cur].running && p > r.cur then p - 1 else p;
  }

  lemma ExitDistance(r: Ring, a: nat, p: nat)
    requires Sound(r) && Listed(r, a, p) && p != r.cur
    ensures Sound(Exit(r)) && Listed(Exit(r), a, p) && Exit(r).cur == r.cur && Dist(Exit(r), p) == Dist(r, p)
  {
  }

  lemma CreateDistance(r: Ring, op: TaskOp, a: nat, p: nat)
    requires Sound(r) && Allowed(r, op) && op.CreateTask? && Listed(r, a, p) && p != r.cur
    ensures Listed(Do(r, op), a, p) && Do(r, op).cur == r.cur
    ensures Dist(r, p) <= Dist(Do(r, op), p) <= Dist(r, p) + 1
  {
  }

  /** Switching ticks and creations of a run. */
  function SwitchTicks(r: Ring, ops: seq<TaskOp>): nat
    requires AllowedRun(r, ops)
    decreases |ops|
  {
    if ops == [] then 0 else
      (if ops[0].TimerTick? && !Skips((r.time + 1) % DWORD_LIMIT) then 1 else 0) + SwitchTicks(Do(r, ops[0]), ops[1..])
  }

  function Creations(ops: seq<TaskOp>): nat {
    if ops == [] then 0 else (if ops[0].CreateTask? then 1 else 0) + Creations(ops[1..])
  }

  /** Some state along the run has the task at `a` current. */
  ghost predicate BecomesCurrent(r: Ring, ops: seq<TaskOp>, a: nat)
    requires AllowedRun(r, ops)
    decreases |ops|
  {
    IsCurrent(r, a) || (ops != [] && BecomesCurrent(Do(r, ops[0]), ops[1..], a))
  }

  /** Whatever tasks are created, exit and are reaped meanwhile, a waiting task runs after as many switching ticks
      as its distance round the list plus the number of creations. */
  lemma {:induction false} EventuallyCurrent(r: Ring, ops: seq<TaskOp>, a: nat, p: nat)
    requires Sound(r) && AllowedRun(r, ops) && Listed(r, a, p)
    requires p != r.cur ==> SwitchTicks(r, ops) >= Dist(r, p) + Creations(ops)
    ensures BecomesCurrent(r, ops, a)
    decreases |ops|
  {
    hide Sound, Allowed, Do, Dist, Skips;
    if p != r.cur {
      DistPositive(r, p);
      DoSound(r, ops[0]);
      var q := StepDistance(r, ops[0], a, p);
      EventuallyCurrent(Do(r, ops[0]), ops[1..], a, q);
    }
  }

  lemma DistPositive(r: Ring, p: nat)
    requires Sound(r) && p < |r.list|
    ensures r.cur < |r.list| && Dist(r, p) >= 1
  {
  }

  lemma StepDistance(r: Ring, op: TaskOp, a: nat, p: nat) returns (q: nat)
    requires Sound(r) && Allowed(r, op) && Listed(r, a, p) && p != r.cur
    ensures Sound(Do(r, op)) && Listed(Do(r, op), a, q)
    ensures q != Do(r, op).cur ==>
      Dist(Do(r, op), q) + (if op.TimerTick? && !Skips((r.time + 1) % DWORD_LIMIT) then 1 else 0)
        <= Dist(r, p) + (if op.CreateTask? then 1 else 0)
  {
    DoSound(r, op);
    match op
    case CreateTask(addr, provider) =>
      CreateDistance(r, op, a, p);
      q := p;
    case ExitTask =>
      ExitDistance(r, a, p);
      q := p;
    case TimerTick =>
      TickTime(r);
      q := TickDistance(r, a, p);
  }

  lemma TickTime(r: Ring)
    requires r.cur < |r.list|
    ensures Tick(r).time == (r.time + 1) % DWORD_LIMIT
  {
  }

  // ---------------------------------------------------------------- how many ticks do not switch

  /** Ticks among the next n that do not switch, starting from counter value `time`. */
  function SkippedTicks(time: nat, n: nat): nat {
    if n == 0 then 0 else SkippedTicks(time, n - 1) + (if Skips((time + n) % DWORD_LIMIT) then 1 else 0)
  }

  /** Closed form: multiples of 1000 passed, with the wrap at 2^32 counting as one more. */
  function SkippedFormula(time: nat, n: nat): int {
    if time + n < DWORD_LIMIT then (time + n) / 1000 - time / 1000
    else (DWORD_LIMIT - 1) / 1000 - time / 1000 + 1 + (time + n - DWORD_LIMIT) / 1000
  }

  lemma {:induction false} SkippedClosed(time: nat, n: nat)
    requires time < DWORD_LIMIT && n < DWORD_LIMIT
    ensures SkippedTicks(time, n) == SkippedFormula(time, n)
  {
    hide SkippedFormula, Skips;
    if n > 0 {
      SkippedClosed(time, n - 1);
      FormulaStep(time, n);
    } else {
      FormulaStart(time);
    }
  }

  lemma FormulaStart(time: nat)
    requires time < DWORD_LIMIT
    ensures SkippedFormula(time, 0) == 0
  {
  }

  lemma FormulaStep(time: nat, n: nat)
    requires time < DWORD_LIMIT && 0 < n < DWORD_LIMIT
    ensures SkippedFormula(time, n)
         == SkippedFormula(time, n - 1) + (if Skips((time + n) % DWORD_LIMIT) then 1 else 0)
  {
    var t := time + n;
    if t < DWORD_LIMIT {
      MultipleStep(t);
    } else if t > DWORD_LIMIT {
      WrapsOnce(t);
      MultipleStep(t - DWORD_LIMIT);
    } else {
      WrapsOnce(t);
    }
  }

  lemma WrapsOnce(t: nat)
    requires DWORD_LIMIT <= t < 2 * DWORD_LIMIT
    ensures t % DWORD_LIMIT == t - DWORD_LIMIT
  {
  }

  lemma MultipleStep(t: nat)
    requires t > 0
    ensures t / 1000 == (t - 1) / 1000 + (if t % 1000 == 0 then 1 else 0)
  {
  }

  /** Among d + ceil(d / 999) ticks at least d switch, unless the counter wraps among them;
      one more tick is enough even then. */
  lemma EnoughTicks(time: nat, d: nat)
    requires time < DWORD_LIMIT && d + (d + 998) / 999 + 1 < DWORD_LIMIT
    ensures var m := d + (d + 998) / 999;
      time + m < DWORD_LIMIT ==> m - SkippedTicks(time, m) >= d
    ensures var m := d + (d + 998) / 999 + 1;
      m - SkippedTicks(time, m) >= d
  {
    var m := d + (d + 998) / 999;
    SkippedClosed(time, m);
    SkippedClosed(time, m + 1);
    CeilBound(d);
    if time + m < DWORD_LIMIT {
      SpanBound(time, m);
    }
    if time + m + 1 < DWORD_LIMIT {
      SpanBound(time, m + 1);
    } else {
      WrapBound(time, m + 1);
    }
  }

  /** ceil(m / 1000) for m = d + ceil(d / 999) is ceil(d / 999). */
  lemma CeilBound(d: nat)
    ensures (d + (d + 998) / 999 + 999) / 1000 <= (d + 998) / 999
    ensures (d + (d + 998) / 999 + 1 + 998) / 1000 <= (d + 998) / 999
  {
    var q := (d + 998) / 999;
    assert d <= 999 * q;
    assert d + q + 999 <= 1000 * q + 999;
  }

  lemma SpanBound(t: nat, m: nat)
    ensures (t + m) / 1000 - t / 1000 <= (m + 999) / 1000
  {
    var a, b := t / 1000, t % 1000;
    assert (t + m) / 1000 == a + (b + m) / 1000;
  }

  lemma WrapBound(time: nat, m: nat)
    requires time < DWORD_LIMIT <= time + m
    ensures (DWORD_LIMIT - 1) / 1000 - time / 1000 + 1 + (time + m - DWORD_LIMIT) / 1000 <= (m + 998) / 1000 + 1
  {
    var rest := time + m - DWORD_LIMIT;
    var a, b := time / 1000, time % 1000;
    var c, e := rest / 1000, rest % 1000;
    assert DWORD_LIMIT == 4294967 * 1000 + 296;
    assert m == (4294967 - a + c) * 1000 + 296 - b + e;
    assert 4294967 - a + c <= (m + 998) / 1000;
  }

  /** The wrap really can cost the extra tick: from just before the last multiple of 1000 below 2^32,
      297 ticks switch only 295 times. */
  lemma WrapCostsATick()
    ensures 296 + (296 + 998) / 999 == 297
    ensures 297 - SkippedTicks(4294966999, 297) == 295
  {
    SkippedClosed(4294966999, 297);
  }

  function Ticks(ops: seq<TaskOp>): nat {
    if ops == [] then 0 else (if ops[0].TimerTick? then 1 else 0) + Ticks(ops[1..])
  }

  lemma {:induction false} SkippedFirst(time: nat, n: nat)
    requires time < DWORD_LIMIT
    ensures SkippedTicks(time, n + 1)
         == (if Skips((time + 1) % DWORD_LIMIT) then 1 else 0) + SkippedTicks((time + 1) % DWORD_LIMIT, n)
  {
    hide Skips;
    if n > 0 {
      SkippedFirst(time, n - 1);
      SameResidue(time, n);
    } else {
      assert SkippedTicks(time, 0) == 0 && SkippedTicks((time + 1) % DWORD_LIMIT, 0) == 0;
    }
  }

  lemma SameResidue(time: nat, n: nat)
    requires time < DWORD_LIMIT
    ensures ((time + 1) % DWORD_LIMIT + n) % DWORD_LIMIT == (time + (n + 1)) % DWORD_LIMIT
  {
    if time + 1 == DWORD_LIMIT {
      assert (time + (n + 1)) % DWORD_LIMIT == n % DWORD_LIMIT;
    }
  }

  /** The ticks of a run that switch are those that do not fall on a multiple of 1000. */
  lemma {:induction false} SwitchTicksOfRun(r: Ring, ops: seq<TaskOp>)
    requires Sound(r) && AllowedRun(r, ops)
    ensures SwitchTicks(r, ops) == Ticks(ops) - SkippedTicks(r.time, Ticks(ops))
    decreases |ops|
  {
    hide Sound, Allowed, Skips, Tick, Exit;
    if ops != [] {
      DoSound(r, ops[0]);
      SwitchTicksOfRun(Do(r, ops[0]), ops[1..]);
      SoundTime(r);
      if ops[0].TimerTick? {
        TickTime(r);
        SkippedFirst(r.time, Ticks(ops[1..]));
      } else {
        SameTime(r, ops[0]);
      }
    }
  }

  lemma SoundTime(r: Ring)
    requires Sound(r)
    ensures r.time < DWORD_LIMIT && r.cur < |r.list|
  {
  }

  lemma SameTime(r: Ring, op: TaskOp)
    requires r.cur < |r.list| && !op.TimerTick?
    ensures Do(r, op).time == r.time
  {
  }

  lemma {:induction false} SwitchesMonotone(time: nat, m: nat, n: nat)
    requires m <= n
    ensures m - SkippedTicks(time, m) <= n - SkippedTicks(time, n)
    decreases n - m
  {
    if m < n {
      SwitchesMonotone(time, m, n - 1);
    }
  }

  /** Bounded waiting: with n tasks and c creations, every waiting task runs within N + ceil(N / 999) ticks for
      N = n + c, whatever exits and reaping happen meanwhile and wherever the tick counter stands. */
  lemma BoundedWaiting(r: Ring, ops: seq<TaskOp>, a: nat, p: nat)
    requires Sound(r) && AllowedRun(r, ops) && Listed(r, a, p)
    requires var n := |r.list| + Creations(ops);
      n + (n + 998) / 999 <= Ticks(ops) && n + (n + 998) / 999 < DWORD_LIMIT
    ensures BecomesCurrent(r, ops, a)
  {
    hide Allowed, SkippedTicks, SwitchTicks, AllowedRun, BecomesCurrent;
    if p != r.cur {
      var n := |r.list| + Creations(ops);
      assert Dist(r, p) <= |r.list| - 1;
      var d := n - 1;
      assert (d + 998) / 999 <= (n + 998) / 999;
      EnoughTicks(r.time, d);
      SwitchesMonotone(r.time, d + (d + 998) / 999 + 1, Ticks(ops));
      SwitchTicksOfRun(r, ops);
    }
    EventuallyCurrent(r, ops, a, p);
  }
}

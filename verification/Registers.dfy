/** The register frame an interrupt leaves on a stack, the two ways of restoring from it, and what a preempted
    task finds when it runs again (`kernel/cpu/idt.asm`, `kernel/process/task.S`). */
module Registers {
  import opened Words

  /** Stack memory as 64-bit words by byte address. */
  type Memory = map<nat, nat>

  /** General registers, and what the processor itself saves on an interrupt. */
  datatype Regs = Regs(rax: nat, rcx: nat, rdx: nat, rbx: nat, rsp: nat, rbp: nat, rdi: nat, rsi: nat,
                       r8: nat, r9: nat, r10: nat, r11: nat, r12: nat, r13: nat, r14: nat, r15: nat,
                       rip: nat, cs: nat, rflags: nat, ss: nat)

  datatype Control = Control(cr0: nat, cr2: nat, cr3: nat, cr4: nat)

  const FRAME: nat := 0xD8        // 27 words

  function Read(m: Memory, a: nat): nat {
    if a in m then m[a] else 0
  }

  /** Pushing a list of words in order, the last one lowest. */
  function PushAll(m: Memory, sp: nat, ws: seq<nat>): Memory
    requires sp >= 8 * |ws|
    decreases |ws|
  {
    if ws == [] then m else PushAll(m[sp - 8 := ws[0]], sp - 8, ws[1..])
  }

  lemma {:induction false} PushAllRead(m: Memory, sp: nat, ws: seq<nat>, a: nat)
    requires sp >= 8 * |ws|
    ensures a >= sp || a < sp - 8 * |ws| ==> Read(PushAll(m, sp, ws), a) == Read(m, a)
    ensures a < sp && sp - 8 * |ws| <= a && (sp - a) % 8 == 0 ==>
      Read(PushAll(m, sp, ws), a) == ws[(sp - a) / 8 - 1]
    decreases |ws|
  {
    if ws != [] {
      PushAllRead(m[sp - 8 := ws[0]], sp - 8, ws[1..], a);
    }
  }

  /** Where an interrupt at this stack pointer starts pushing: aligned down to 16 bytes. */
  function AlignedTop(rsp: nat): nat {
    rsp - rsp % 16
  }

  /** The stack pointer the handler is given: the base of the whole frame. */
  function FrameBase(rsp: nat): nat
    requires rsp >= FRAME + 16
  {
    AlignedTop(rsp) - FRAME
  }

  /** Everything pushed between the interrupted instruction and the handler, in order: by the processor, by the
      vector's stub (its two numbers), and by PUSHX64. The word pushed for rsp is its value at that moment. */
  function FrameWords(r: Regs, irq: nat, vector: nat, c: Control): (ws: seq<nat>)
    ensures |ws| == 27
  {
    [r.ss, r.rsp, r.rflags, r.cs, r.rip, irq, vector]
    + [r.r15, r.r14, r.r13, r.r12, r.r11, r.r10, r.r9, r.r8,
       r.rsi, r.rdi, r.rbp, SavedRsp(r.rsp), r.rbx, r.rdx, r.rcx, r.rax]
    + [c.cr0, c.cr2, c.cr3, c.cr4]
  }

  /** The value PUSHX64 stores in the rsp slot: the address just above that slot. */
  function SavedRsp(rsp: nat): nat {
    if rsp >= FRAME + 16 then FrameBase(rsp) + 0x48 else 0
  }

  /** Memory after an interrupt of a task with these registers. */
  function Interrupted(m: Memory, r: Regs, irq: nat, vector: nat, c: Control): Memory
    requires r.rsp >= FRAME + 16
  {
    PushAll(m, AlignedTop(r.rsp), FrameWords(r, irq, vector, c))
  }

  /** The restore of `switch_task` and `switch_next_task_imme` from frame base `s`: pop the general registers,
      skipping the rsp slot, drop the two numbers, and return from the interrupt. */
  function RestoredBySwitch(m: Memory, s: nat): Regs {
    Regs(Read(m, s + 0x20), Read(m, s + 0x28), Read(m, s + 0x30), Read(m, s + 0x38), Read(m, s + 0xC8),
         Read(m, s + 0x48), Read(m, s + 0x50), Read(m, s + 0x58),
         Read(m, s + 0x60), Read(m, s + 0x68), Read(m, s + 0x70), Read(m, s + 0x78),
         Read(m, s + 0x80), Read(m, s + 0x88), Read(m, s + 0x90), Read(m, s + 0x98),
         Read(m, s + 0xB0), Read(m, s + 0xB8), Read(m, s + 0xC0), Read(m, s + 0xD0))
  }

  /** The restore of POPX64 in `irq_stub`: `pop rsp` moves the stack pointer to whatever the rsp slot holds,
      and the remaining pops go on from there. */
  function RestoredByPop(m: Memory, s: nat): Regs {
    var t := Read(m, s + 0x40);
    Regs(Read(m, s + 0x20), Read(m, s + 0x28), Read(m, s + 0x30), Read(m, s + 0x38), Read(m, t + 0x80),
         Read(m, t), Read(m, t + 0x8), Read(m, t + 0x10),
         Read(m, t + 0x18), Read(m, t + 0x20), Read(m, t + 0x28), Read(m, t + 0x30),
         Read(m, t + 0x38), Read(m, t + 0x40), Read(m, t + 0x48), Read(m, t + 0x50),
         Read(m, t + 0x68), Read(m, t + 0x70), Read(m, t + 0x78), Read(m, t + 0x88))
  }

  /** An interrupt leaves a frame that restores to the interrupted registers. */
  lemma InterruptSaves(m: Memory, r: Regs, irq: nat, vector: nat, c: Control)
    requires r.rsp >= FRAME + 16
    ensures RestoredBySwitch(Interrupted(m, r, irq, vector, c), FrameBase(r.rsp)) == r
    ensures RestoredByPop(Interrupted(m, r, irq, vector, c), FrameBase(r.rsp)) == r
    ensures Read(Interrupted(m, r, irq, vector, c), FrameBase(r.rsp) + 0x40) == FrameBase(r.rsp) + 0x48
  {
    hide PushAll, Read;
    var top, ws, s := AlignedTop(r.rsp), FrameWords(r, irq, vector, c), FrameBase(r.rsp);
    FourSlots(m, top, ws, 4);
    FourSlots(m, top, ws, 8);
    FourSlots(m, top, ws, 12);
    FourSlots(m, top, ws, 16);
    FourSlots(m, top, ws, 22);
    FourSlots(m, top, ws, 23);
    PathsAgree(Interrupted(m, r, irq, vector, c), s);
  }

  /** The frame is the structure the handlers are given, field by field, from the stack pointer rounded down to 16
      bytes: four control registers, the general registers, the two numbers, and the processor's five words. */
  lemma FrameLayout(m: Memory, r: Regs, irq: nat, vector: nat, c: Control)
    requires r.rsp >= 0xE8
    ensures FrameBase(r.rsp) == r.rsp - r.rsp % 16 - 0xD8
    ensures var n, s := Interrupted(m, r, irq, vector, c), r.rsp - r.rsp % 16 - 0xD8;
      && Read(n, s) == c.cr4 && Read(n, s + 0x08) == c.cr3 && Read(n, s + 0x10) == c.cr2 && Read(n, s + 0x18) == c.cr0
      && Read(n, s + 0x20) == r.rax && Read(n, s + 0x28) == r.rcx && Read(n, s + 0x30) == r.rdx && Read(n, s + 0x38) == r.rbx
      && Read(n, s + 0x40) == s + 0x48 && Read(n, s + 0x48) == r.rbp && Read(n, s + 0x50) == r.rdi && Read(n, s + 0x58) == r.rsi
      && Read(n, s + 0x60) == r.r8 && Read(n, s + 0x68) == r.r9 && Read(n, s + 0x70) == r.r10 && Read(n, s + 0x78) == r.r11
      && Read(n, s + 0x80) == r.r12 && Read(n, s + 0x88) == r.r13 && Read(n, s + 0x90) == r.r14 && Read(n, s + 0x98) == r.r15
      && Read(n, s + 0xA0) == vector && Read(n, s + 0xA8) == irq && Read(n, s + 0xB0) == r.rip && Read(n, s + 0xB8) == r.cs
      && Read(n, s + 0xC0) == r.rflags && Read(n, s + 0xC8) == r.rsp && Read(n, s + 0xD0) == r.ss
  {
    hide PushAll, Read;
    var top, ws := AlignedTop(r.rsp), FrameWords(r, irq, vector, c);
    FourSlots(m, top, ws, 0);
    FourSlots(m, top, ws, 4);
    FourSlots(m, top, ws, 8);
    FourSlots(m, top, ws, 12);
    FourSlots(m, top, ws, 16);
    FourSlots(m, top, ws, 20);
    FourSlots(m, top, ws, 23);
  }

  /** Word k of the frame, counting from its base, is the (26 - k)-th pushed. */
  lemma FourSlots(m: Memory, top: nat, ws: seq<nat>, k: nat)
    requires |ws| == 27 && top >= FRAME && k <= 23
    ensures var s, n := top - FRAME, PushAll(m, top, ws);
      && Read(n, s + 8 * k) == ws[26 - k] && Read(n, s + 8 * k + 8) == ws[25 - k]
      && Read(n, s + 8 * k + 16) == ws[24 - k] && Read(n, s + 8 * k + 24) == ws[23 - k]
  {
    hide PushAll, Read;
    var s := top - FRAME;
    PushAllRead(m, top, ws, s + 8 * k);
    PushAllRead(m, top, ws, s + 8 * k + 8);
    PushAllRead(m, top, ws, s + 8 * k + 16);
    PushAllRead(m, top, ws, s + 8 * k + 24);
  }

  /** For a frame built by PUSHX64 both restore paths give the same registers. */
  lemma PathsAgree(m: Memory, s: nat)
    requires Read(m, s + 0x40) == s + 0x48
    ensures RestoredByPop(m, s) == RestoredBySwitch(m, s)
  {
  }

  // ---------------------------------------------------------------- a new task's first frame

  /** What `task_create_impl` pushes below `top`: the return frame, two skipped words, the general registers with
      a zero rsp slot, and four skipped words. The page has just been cleared, so skipped words are zero. */
  function NewFrameWords(top: nat, entry: nat, cs: nat, ss: nat, args: seq<nat>): (ws: seq<nat>)
    requires top >= 8 && |args| == 6
    ensures |ws| == 27
  {
    [ss, top - 8, 0x202, cs, entry, 0, 0]
    + [0, 0, 0, 0, 0, 0, args[5], args[4], args[1], args[0], top, 0, 0, args[3], args[2], 0]
    + [0, 0, 0, 0]
  }

  /** The registers a new task starts with. */
  function EntryRegs(top: nat, entry: nat, cs: nat, ss: nat, args: seq<nat>): Regs
    requires top >= 8 && |args| == 6
  {
    Regs(0, args[2], args[3], 0, top - 8, top, args[0], args[1], args[4], args[5], 0, 0, 0, 0, 0, 0, entry, cs, 0x202, ss)
  }

  /** The first switch to a new task enters it at its address, with interrupts on and the stack pointer in its page. */
  lemma NewFrameEnters(m: Memory, top: nat, entry: nat, cs: nat, ss: nat, args: seq<nat>)
    requires top >= FRAME && |args| == 6
    ensures RestoredBySwitch(PushAll(m, top, NewFrameWords(top, entry, cs, ss, args)), top - FRAME)
         == EntryRegs(top, entry, cs, ss, args)
    ensures Read(PushAll(m, top, NewFrameWords(top, entry, cs, ss, args)), top - FRAME + 0x40) == 0
  {
    hide PushAll, Read;
    var ws := NewFrameWords(top, entry, cs, ss, args);
    FourSlots(m, top, ws, 4);
    FourSlots(m, top, ws, 8);
    FourSlots(m, top, ws, 12);
    FourSlots(m, top, ws, 16);
    FourSlots(m, top, ws, 22);
    FourSlots(m, top, ws, 23);
  }

  /** The first frame of a task, word by word. */
  lemma NewFrameLayout(m: Memory, top: nat, entry: nat, cs: nat, ss: nat, args: seq<nat>)
    requires top >= 0xD8 && |args| == 6
    ensures var n, s := PushAll(m, top, NewFrameWords(top, entry, cs, ss, args)), top - 0xD8;
      && Read(n, s + 0x20) == 0 && Read(n, s + 0x28) == args[2] && Read(n, s + 0x30) == args[3] && Read(n, s + 0x38) == 0
      && Read(n, s + 0x40) == 0 && Read(n, s + 0x48) == top && Read(n, s + 0x50) == args[0] && Read(n, s + 0x58) == args[1]
      && Read(n, s + 0x60) == args[4] && Read(n, s + 0x68) == args[5] && Read(n, s + 0x70) == 0 && Read(n, s + 0x78) == 0
      && Read(n, s + 0x80) == 0 && Read(n, s + 0x88) == 0 && Read(n, s + 0x90) == 0 && Read(n, s + 0x98) == 0
      && Read(n, s + 0xB0) == entry && Read(n, s + 0xB8) == cs && Read(n, s + 0xC0) == 0x202
      && Read(n, s + 0xC8) == top - 8 && Read(n, s + 0xD0) == ss
  {
    hide PushAll, Read;
    var ws := NewFrameWords(top, entry, cs, ss, args);
    FourSlots(m, top, ws, 4);
    FourSlots(m, top, ws, 8);
    FourSlots(m, top, ws, 12);
    FourSlots(m, top, ws, 16);
    FourSlots(m, top, ws, 20);
    FourSlots(m, top, ws, 23);
  }

  /** Left by the interrupt return instead, the same frame sends the popping path on from its zero rsp slot: the
      remaining registers come from the words at address 0, whatever the entry address is. */
  lemma NewFramePopped(m: Memory, top: nat, entry: nat, cs: nat, ss: nat, args: seq<nat>)
    requires top >= FRAME + 0x90 && |args| == 6
    ensures var r := RestoredByPop(PushAll(m, top, NewFrameWords(top, entry, cs, ss, args)), top - FRAME);
      && r.rip == Read(m, 0x68) && r.cs == Read(m, 0x70) && r.rflags == Read(m, 0x78)
      && r.rsp == Read(m, 0x80) && r.ss == Read(m, 0x88)
      && r.rbp == Read(m, 0) && r.rdi == Read(m, 8) && r.rsi == Read(m, 0x10)
  {
    hide PushAll, Read;
    var ws := NewFrameWords(top, entry, cs, ss, args);
    NewFrameEnters(m, top, entry, cs, ss, args);
    PushAllRead(m, top, ws, 0x68);
    PushAllRead(m, top, ws, 0x70);
    PushAllRead(m, top, ws, 0x78);
    PushAllRead(m, top, ws, 0x80);
    PushAllRead(m, top, ws, 0x88);
    PushAllRead(m, top, ws, 0);
    PushAllRead(m, top, ws, 8);
    PushAllRead(m, top, ws, 0x10);
  }

  /** A new task can be entered by the interrupt return exactly when low memory happens to hold its address. */
  lemma NewFrameNeedsSwitchIff(m: Memory, top: nat, entry: nat, cs: nat, ss: nat, args: seq<nat>)
    requires top >= FRAME + 0x90 && |args| == 6
    ensures var n := PushAll(m, top, NewFrameWords(top, entry, cs, ss, args));
      && RestoredBySwitch(n, top - FRAME).rip == entry
      && (RestoredByPop(n, top - FRAME).rip == entry <==> Read(m, 0x68) == entry)
  {
    hide PushAll, Read, RestoredByPop, RestoredBySwitch;
    NewFrameEnters(m, top, entry, cs, ss, args);
    NewFramePopped(m, top, entry, cs, ss, args);
  }

  // ---------------------------------------------------------------- the stubs, word by word

  lemma {:induction false} PushOneMore(m: Memory, sp: nat, ws: seq<nat>, k: nat)
    requires k < |ws| && sp >= 8 * |ws|
    ensures PushAll(m, sp, ws[..k + 1]) == PushAll(m, sp, ws[..k])[sp - 8 * (k + 1) := ws[k]]
    decreases |ws|
  {
    if k == 0 {
      assert ws[..1] == [ws[0]] && ws[..0] == [];
      assert ws[..1][1..] == [];
    } else {
      assert ws[..k + 1][1..] == ws[1..][..k] && ws[..k][1..] == ws[1..][..k - 1];
      PushOneMore(m[sp - 8 := ws[0]], sp - 8, ws[1..], k - 1);
    }
  }

  class Cpu {
    var regs: Regs
    var mem: Memory

    /** `push`, as the k-th word of a list being pushed. */
    method Push(v: nat, ghost m: Memory, ghost sp: nat, ghost ws: seq<nat>, ghost k: nat)
      requires k < |ws| && sp >= 8 * |ws| && v == ws[k] && regs.rsp == sp - 8 * k && mem == PushAll(m, sp, ws[..k])
      modifies this
      ensures regs == old(regs).(rsp := sp - 8 * (k + 1)) && mem == PushAll(m, sp, ws[..k + 1])
    {
      PushOneMore(m, sp, ws, k);
      regs := regs.(rsp := regs.rsp - 8);
      mem := mem[regs.rsp := v];
    }

    method Pop() returns (v: nat)
      modifies this`regs
      ensures v == Read(mem, old(regs.rsp)) && regs == old(regs).(rsp := old(regs.rsp) + 8)
    {
      v := Read(mem, regs.rsp);
      regs := regs.(rsp := regs.rsp + 8);
    }

    /** The processor's part of an interrupt and the vector's stub: seven words. */
    method EnterStub(irq: nat, vector: nat, ghost ws: seq<nat>)
      requires regs.rsp >= FRAME + 16 && |ws| == 27 && ws[..7] == [regs.ss, regs.rsp, regs.rflags, regs.cs, regs.rip, irq, vector]
      modifies this
      ensures regs == old(regs).(rsp := AlignedTop(old(regs.rsp)) - 56)
      ensures mem == PushAll(old(mem), AlignedTop(old(regs.rsp)), ws[..7])
    {
      hide PushAll;
      ghost var m, sp := mem, AlignedTop(regs.rsp);
      var rsp := regs.rsp;
      assert PushAll(m, sp, ws[..0]) == m by { PushNothing(m, sp, ws); }
      assert forall k :: 0 <= k < 7 ==> ws[k] == ws[..7][k];
      regs := regs.(rsp := regs.rsp - regs.rsp % 16);
      Push(regs.ss, m, sp, ws, 0);
      Push(rsp, m, sp, ws, 1);
      Push(regs.rflags, m, sp, ws, 2);
      Push(regs.cs, m, sp, ws, 3);
      Push(regs.rip, m, sp, ws, 4);
      Push(irq, m, sp, ws, 5);
      Push(vector, m, sp, ws, 6);
    }

    /** PUSHX64: sixteen general registers, then four control registers through rax. */
    method PushX64(c: Control, ghost m: Memory, ghost r: Regs, ghost ws: seq<nat>)
      requires r.rsp >= FRAME + 16 && |ws| == 27 && regs == r.(rsp := AlignedTop(r.rsp) - 56)
      requires mem == PushAll(m, AlignedTop(r.rsp), ws[..7])
      requires ws[7..15] == [r.r15, r.r14, r.r13, r.r12, r.r11, r.r10, r.r9, r.r8]
      requires ws[15..23] == [r.rsi, r.rdi, r.rbp, SavedRsp(r.rsp), r.rbx, r.rdx, r.rcx, r.rax]
      requires ws[23..] == [c.cr0, c.cr2, c.cr3, c.cr4]
      modifies this
      ensures mem == PushAll(m, AlignedTop(r.rsp), ws) && regs == r.(rsp := FrameBase(r.rsp), rax := c.cr4)
    {
      hide PushAll;
      ghost var sp := AlignedTop(r.rsp);
      PushNumbered(m, r, ws, sp);
      PushNamed(m, r, ws, sp);
      assert forall k :: 23 <= k < 27 ==> ws[k] == ws[23..][k - 23];
      regs := regs.(rax := c.cr0);
      Push(regs.rax, m, sp, ws, 23);
      regs := regs.(rax := c.cr2);
      Push(regs.rax, m, sp, ws, 24);
      regs := regs.(rax := c.cr3);
      Push(regs.rax, m, sp, ws, 25);
      regs := regs.(rax := c.cr4);
      Push(regs.rax, m, sp, ws, 26);
      assert ws[..27] == ws;
    }

    method PushNumbered(ghost m: Memory, ghost r: Regs, ghost ws: seq<nat>, ghost sp: nat)
      requires sp >= FRAME && |ws| == 27 && regs == r.(rsp := sp - 56) && mem == PushAll(m, sp, ws[..7])
      requires ws[7..15] == [r.r15, r.r14, r.r13, r.r12, r.r11, r.r10, r.r9, r.r8]
      modifies this
      ensures mem == PushAll(m, sp, ws[..15]) && regs == r.(rsp := sp - 120)
    {
      hide PushAll;
      assert forall k :: 7 <= k < 15 ==> ws[k] == ws[7..15][k - 7];
      Push(regs.r15, m, sp, ws, 7);
      Push(regs.r14, m, sp, ws, 8);
      Push(regs.r13, m, sp, ws, 9);
      Push(regs.r12, m, sp, ws, 10);
      Push(regs.r11, m, sp, ws, 11);
      Push(regs.r10, m, sp, ws, 12);
      Push(regs.r9, m, sp, ws, 13);
      Push(regs.r8, m, sp, ws, 14);
    }

    method PushNamed(ghost m: Memory, ghost r: Regs, ghost ws: seq<nat>, ghost sp: nat)
      requires sp >= FRAME && |ws| == 27 && regs == r.(rsp := sp - 120) && mem == PushAll(m, sp, ws[..15])
      requires ws[15..23] == [r.rsi, r.rdi, r.rbp, sp - 144, r.rbx, r.rdx, r.rcx, r.rax]
      modifies this
      ensures mem == PushAll(m, sp, ws[..23]) && regs == r.(rsp := sp - 184)
    {
      hide PushAll;
      assert forall k :: 15 <= k < 23 ==> ws[k] == ws[15..23][k - 15];
      Push(regs.rsi, m, sp, ws, 15);
      Push(regs.rdi, m, sp, ws, 16);
      Push(regs.rbp, m, sp, ws, 17);
      Push(regs.rsp, m, sp, ws, 18);
      Push(regs.rbx, m, sp, ws, 19);
      Push(regs.rdx, m, sp, ws, 20);
      Push(regs.rcx, m, sp, ws, 21);
      Push(regs.rax, m, sp, ws, 22);
    }

    /** From the interrupted instruction to the call of irq_handle. */
    method IrqEntry(irq: nat, vector: nat, c: Control)
      requires regs.rsp >= FRAME + 16
      modifies this
      ensures mem == Interrupted(old(mem), old(regs), irq, vector, c) && regs.rsp == FrameBase(old(regs.rsp))
    {
      hide PushAll;
      ghost var ws, m, r := FrameWords(regs, irq, vector, c), mem, regs;
      assert ws[..7] == [r.ss, r.rsp, r.rflags, r.cs, r.rip, irq, vector];
      EnterStub(irq, vector, ws);
      PushX64(c, m, r, ws);
    }

    /** POPX64, dropping the two numbers, and iretq. */
    method PopX64()
      modifies this`regs
      ensures regs == RestoredByPop(mem, old(regs.rsp))
    {
      hide Read;
      var r := regs;
      regs := regs.(rsp := regs.rsp + 0x20);
      var rax := Pop();
      var rcx := Pop();
      var rdx := Pop();
      var rbx := Pop();
      var rsp := Pop();
      regs := regs.(rsp := rsp);
      PopRest(rax, rcx, rdx, rbx, rsp);
    }

    /** The restore of `switch_task` from the frame at `stack`. */
    method SwitchRestore(stack: nat)
      modifies this`regs
      ensures regs == RestoredBySwitch(mem, stack)
    {
      hide Read;
      regs := regs.(rsp := stack + 0x20);
      var rax := Pop();
      var rcx := Pop();
      var rdx := Pop();
      var rbx := Pop();
      regs := regs.(rsp := regs.rsp + 8);
      PopRest(rax, rcx, rdx, rbx, stack + 0x48);
    }

    /** The pops after the rsp slot, common to both paths, and the return from the interrupt. */
    method PopRest(rax: nat, rcx: nat, rdx: nat, rbx: nat, ghost t: nat)
      requires regs.rsp == t
      modifies this`regs
      ensures regs == Regs(rax, rcx, rdx, rbx, Read(mem, t + 0x80), Read(mem, t), Read(mem, t + 0x8), Read(mem, t + 0x10),
        Read(mem, t + 0x18), Read(mem, t + 0x20), Read(mem, t + 0x28), Read(mem, t + 0x30),
        Read(mem, t + 0x38), Read(mem, t + 0x40), Read(mem, t + 0x48), Read(mem, t + 0x50),
        Read(mem, t + 0x68), Read(mem, t + 0x70), Read(mem, t + 0x78), Read(mem, t + 0x88))
    {
      hide Read;
      PopGeneral(t);
      regs := regs.(rsp := regs.rsp + 0x10);
      var rip := Pop();
      var cs := Pop();
      var rflags := Pop();
      var rsp := Pop();
      var ss := Pop();
      regs := regs.(rax := rax, rcx := rcx, rdx := rdx, rbx := rbx, rsp := rsp, rip := rip, cs := cs, rflags := rflags, ss := ss);
    }

    /** The eleven general registers popped alike on both paths. */
    method PopGeneral(ghost t: nat)
      requires regs.rsp == t
      modifies this`regs
      ensures regs == old(regs).(rbp := Read(mem, t), rdi := Read(mem, t + 0x8), rsi := Read(mem, t + 0x10),
        r8 := Read(mem, t + 0x18), r9 := Read(mem, t + 0x20), r10 := Read(mem, t + 0x28), r11 := Read(mem, t + 0x30),
        r12 := Read(mem, t + 0x38), r13 := Read(mem, t + 0x40), r14 := Read(mem, t + 0x48), r15 := Read(mem, t + 0x50),
        rsp := t + 0x58)
    {
      hide Read;
      var rbp := Pop();
      var rdi := Pop();
      var rsi := Pop();
      var r8 := Pop();
      var r9 := Pop();
      var r10 := Pop();
      var r11 := Pop();
      var r12 := Pop();
      var r13 := Pop();
      var r14 := Pop();
      var r15 := Pop();
      regs := regs.(rbp := rbp, rdi := rdi, rsi := rsi, r8 := r8, r9 := r9, r10 := r10, r11 := r11, r12 := r12, r13 := r13,
        r14 := r14, r15 := r15);
    }
  }

  lemma PushNothing(m: Memory, sp: nat, ws: seq<nat>)
    ensures PushAll(m, sp, ws[..0]) == m
  {
  }
}

/** `kernel/page.c` as it runs: loops over pages that reach every table through one remappable window.
    Each operation is proved equal to the step functions of PageSteps and PageRanges. */
module PageManager {
  import opened Words
  import opened PageTables
  import opened PageSteps
  import opened PageRanges
  import opened PageUndo
  import opened PageRuns
  import opened PageBytes
  import opened Bitmap

  const PMLT4_ADDRESS: nat := 0x1000
  const FRAME_PT_ADDRESS: nat := 0x5000
  const WINDOW_ADDRESS: nat := 0x3FE0_0000      // PAGE_ADDRESS(0, 0, 511, 0)
  const NO_FRAME: nat := WORD_LIMIT - 1         // (qword) -1
  const LOOP_PAGES: nat := 0x8_0000             // i * PAGE_SIZE is computed in 32-bit signed arithmetic

  /** The virtual address resolves to frame `t`, entry `i`. */
  predicate Reaches(ram: Ram, va: nat, t: nat, i: nat) {
    Walk(ram, PageOf(va)) == Some(t) && va % PAGE_SIZE / 8 == i
  }

  /** Equal up to the window slot, which every operation overwrites before using. */
  ghost predicate Alike(a: World, b: World) {
    SetWindow(a, 0) == SetWindow(b, 0)
  }

  // ---------------------------------------------------------------- facts about the window

  lemma FourSteps(ram: Ram, a: nat, b: nat, c: nat, d: nat)
    ensures Walk(ram, [a, b, c, d])
         == (match Walk(ram, [a, b, c]) case None => None case Some(t) => Child(Get(ram, t, d)))
  {
    assert [a, b, c, d][..3] == [a, b, c];
  }

  lemma LowPages(i: nat)
    requires i < ENTRIES
    ensures PageOf(PMLT4_ADDRESS + 8 * i) == [0, 0, 0, 1] && (PMLT4_ADDRESS + 8 * i) % PAGE_SIZE / 8 == i
    ensures PageOf(FRAME_PT_ADDRESS) == [0, 0, 0, 5] && FRAME_PT_ADDRESS % PAGE_SIZE / 8 == 0
    ensures PageOf(WINDOW_ADDRESS + 8 * i) == WINDOW && (WINDOW_ADDRESS + 8 * i) % PAGE_SIZE / 8 == i
  {
  }

  /** PMLT4 and the window slot are reached through the first page table. */
  lemma LowAccess(w: World, i: nat)
    requires Inv(w) && i < ENTRIES
    ensures Reaches(w.ram, PMLT4_ADDRESS + 8 * i, 1, i)
    ensures Reaches(w.ram, FRAME_PT_ADDRESS, 5, 0)
  {
    hide Walk, PageOf, Get, WalksAreTables, TablesAreWalked, LeavesAreMapped, EntriesArePresent, PointersAreClean;
    LowTables(w.ram, w.owner);
    LowPages(i);
    FourSteps(w.ram, 0, 0, 0, 1);
    FourSteps(w.ram, 0, 0, 0, 5);
    assert Child(0x1003) == Some(1) && Child(0x5003) == Some(5);
  }

  /** While the slot holds the address of frame `t`, the window shows that frame. */
  lemma WindowAccess(w: World, t: nat, i: nat)
    requires Inv(w) && i < ENTRIES && t < FRAMES && Get(w.ram, 5, 0) == t * PAGE_SIZE + 3
    ensures Reaches(w.ram, WINDOW_ADDRESS + 8 * i, t, i)
  {
    hide Walk, PageOf, Get, WalksAreTables, TablesAreWalked, LeavesAreMapped, EntriesArePresent, PointersAreClean;
    LowTables(w.ram, w.owner);
    LowPages(i);
    FourSteps(w.ram, 0, 0, 511, 0);
    EntryParts(t, 3);
  }

  /** `address | 1 | 2` for a page-aligned address. */
  lemma WindowEntry(t: nat)
    ensures BitOr(BitOr(t * PAGE_SIZE, 1), 2) == t * PAGE_SIZE + 3
  {
    OrLowBits(t * 0x400);
  }

  lemma AlikeInv(a: World, b: World)
    requires Inv(b) && Alike(a, b) && Shape(a)
    ensures Inv(a) && SameLeaves(b.ram, a.ram)
    ensures forall x :: IsPath(x, 3) ==> Walk(a.ram, x) == Walk(b.ram, x)
  {
    hide Inv, SameLeaves, Walk;
    var e := Get(a.ram, 5, 0);
    SetWindowInv(b, 0);
    SetWindowInv(SetWindow(b, 0), e);
    SetTwice(a.ram, 0, e);
    SameSlot(a.ram);
    SameLeavesTransitive(b.ram, SetWindow(b, 0).ram, a.ram);
  }

  lemma SameSlot(ram: Ram)
    ensures Set(ram, 5, 0, Get(ram, 5, 0)) == ram
  {
    if 5 < |ram| && 0 < |ram[5]| {
      assert ram[5][0 := ram[5][0]] == ram[5];
      assert ram[5 := ram[5]] == ram;
    }
  }

  lemma SetCommutes(ram: Ram, t: nat, i: nat, d: nat, e: nat)
    requires t != 5 || i != 0
    ensures Set(Set(ram, 5, 0, d), t, i, e) == Set(Set(ram, t, i, e), 5, 0, d)
  {
    if t < |ram| && i < |ram[t]| && 5 < |ram| && 0 < |ram[5]| {
      if t == 5 {
        assert ram[5][0 := d][i := e] == ram[5][i := e][0 := d];
      }
    }
  }

  lemma SetWindowAlike(a: World, e: nat)
    ensures Alike(SetWindow(a, e), a)
  {
    SetTwice(a.ram, e, 0);
  }

  /** Claiming a frame resets the slot, so it does not matter what the slot held. */
  lemma ClaimAlike(a: World, b: World, o: Owner)
    requires Alike(a, b) && Shape(a) && Shape(b) && FreeCount(b.used) > 0 && b.used[5]
    ensures Claim(a, o) == Claim(b, o)
  {
    hide FreeCount;
    FreeCountPositive(b.used);
    var f := FirstFree(b.used);
    assert a.used == b.used && a.owner == b.owner;
    assert f != 5;
    assert Set(a.ram, 5, 0, 0) == Set(b.ram, 5, 0, 0);
    ClearedAlike(a.ram, f);
    ClearedAlike(b.ram, f);
  }

  lemma ClearedAlike(ram: Ram, f: nat)
    requires 5 < |ram| && 0 < |ram[5]| && f < |ram| && f != 5
    ensures Set(ram[f := Zeros()], 5, 0, 0) == Set(ram, 5, 0, 0)[f := Zeros()]
  {
  }

  /** The five table frames cleared, and the first entry of each upper table set. */
  function UpperEntries(memory: Ram): Ram
    requires |memory| == FRAMES
  {
    var cleared := memory[1 := Zeros()][2 := Zeros()][3 := Zeros()][4 := Zeros()][5 := Zeros()];
    Set(Set(Set(cleared, 1, 0, 0x2003), 2, 0, 0x3003), 3, 0, 0x4003)
  }

  // ---------------------------------------------------------------- facts about one table step

  /** Writing the new table's entry through the window gives the step `EnsureTable`, up to the slot. */
  lemma TableWritten(u: World, x: seq<nat>, flags: nat, t: nat, d: nat, w: World)
    requires Inv(u) && IsPath(x, 3) && |x| > 0 && GoodFlags(flags) && FreeCount(u.used) > 0
    requires Walk(u.ram, x).None? && Walk(u.ram, x[..|x| - 1]) == Some(t)
    requires var c, f := Claim(u, Claimed), FirstFree(u.used);
      w == World(Set(Set(c.ram, 5, 0, d), t, x[|x| - 1], f * PAGE_SIZE + flags), c.used, c.owner[f := Table(x)])
    ensures Alike(w, EnsureTable(u, x, flags))
  {
    hide Inv, Walk, FreeCount, FirstFree, Set, Zeros;
    FreeCountPositive(u.used);
    InvShape(u);
    TableAt(u, x[..|x| - 1]);
    var c, f := Claim(u, Claimed), FirstFree(u.used);
    assert c.owner[f := Table(x)] == u.owner[f := Table(x)];
    SetCommutes(c.ram, t, x[|x| - 1], d, f * PAGE_SIZE + flags);
    SetTwice(Set(c.ram, t, x[|x| - 1], f * PAGE_SIZE + flags), d, 0);
  }

  /** The address the kernel recovers from a present upper entry is that of the table. */
  lemma RecoverTable(w: World, x: seq<nat>, t: nat)
    requires Inv(w) && IsPath(x, 3) && |x| > 0 && Walk(w.ram, x).Some? && Walk(w.ram, x[..|x| - 1]) == Some(t)
    ensures ClearLowNine(Get(w.ram, t, x[|x| - 1])) == Walk(w.ram, x).value * PAGE_SIZE
    ensures Present(Get(w.ram, t, x[|x| - 1]))
  {
    hide LeafEntry, TablesAreWalked, LeavesAreMapped, EntriesArePresent, LowMapping, Walk, WalksAreTables;
    TableAt(w, x[..|x| - 1]);
    WalkLast(w.ram, x, t);
    hide Get, CleanEntry, FrameOf, ClearLowNine;
    PointerIsClean(w, t, x[|x| - 1]);
    CleanRecovers(Get(w.ram, t, x[|x| - 1]));
  }

  lemma PointerIsClean(w: World, t: nat, i: nat)
    requires PointersAreClean(w.ram, w.owner) && t in w.owner && w.owner[t].Table? && |w.owner[t].path| < 3
    ensures CleanEntry(Get(w.ram, t, i))
  {
    hide Get, CleanEntry;
  }

  lemma CleanRecovers(e: nat)
    requires Present(e) && CleanEntry(e)
    ensures ClearLowNine(e) == FrameOf(e) * PAGE_SIZE
  {
    Quotient(e, 8 * (e / PAGE_SIZE), e % PAGE_SIZE, 0x200);
  }

  /** Masking with ~0xFFF, as the boot code does, finds the same frame. */
  lemma CleanMasks(e: nat)
    requires Present(e) && CleanEntry(e)
    ensures (e - e % 0x1000) / PAGE_SIZE == FrameOf(e)
  {
  }

  lemma AbsentEntry(ram: Ram, x: seq<nat>, t: nat)
    requires |x| > 0 && Walk(ram, x[..|x| - 1]) == Some(t)
    ensures Walk(ram, x).Some? <==> Present(Get(ram, t, x[|x| - 1]))
  {
  }

  /** Paging state in memory: physical frames, the bitmap bytes, and the ledger kept for the proofs. */
  class Paging {
    var ram: Ram
    const bitmap: array<bv8>
    ghost var owner: map<nat, Owner>

    ghost function State(): World
      reads this, bitmap
    {
      World(ram, Bits(bitmap[..]), owner)
    }

    ghost predicate Valid()
      reads this, bitmap
    {
      bitmap.Length == BITMAP_SIZE && Inv(State())
    }

    /** The tables and bitmap as the boot loader builds them over whatever memory held. */
    constructor Boot(memory: Ram)
      requires FullRam(memory)
      ensures Valid() && State() == BootWorld(memory) && fresh(bitmap)
    {
      bitmap := new bv8[BITMAP_SIZE](_ => 0);
      ram := UpperEntries(memory);
      owner := map[0 := Claimed, 1 := Table([]), 2 := Table([0]), 3 := Table([0, 0]), 4 := Table([0, 0, 0]),
                   5 := Table([0, 0, 511]), 6 := Claimed];
      new;
      hide Inv, Zeros, FirstTable, UpperEntries, FirstEntries, LowMarks, BootWorld, Set, Bits;
      UpperShape(memory);
      NoBits(bitmap[..]);
      MapLowFrames();
      ram := Set(ram, 3, 511, 0x5003);
      BootInv(memory);
      BootRows(memory);
      BootMarks(memory);
    }

    /** The boot loader's loop over the first seven frames. */
    method MapLowFrames()
      requires FullRam(ram) && ram[4] == Zeros() && bitmap.Length == BITMAP_SIZE && Bits(bitmap[..]) == LowMarks(0)
      modifies this`ram, bitmap
      ensures ram == old(ram)[4 := FirstEntries(7)] && Bits(bitmap[..]) == LowMarks(7)
    {
      hide BitOr, Bit, WithBit, Zeros, FirstEntries, LowMarks;
      ghost var before := ram;
      PrefixStart();
      assert before[4 := before[4]] == before;
      var i := 0;
      while i < 7
        invariant i <= 7 && ram == before[4 := FirstEntries(i)] && Bits(bitmap[..]) == LowMarks(i)
      {
        hide BitOr, Bit, WithBit, Zeros, FirstEntries, LowMarks;
        OrLowBitsReversed(i * 0x400);
        ram := Set(ram, 4, i, BitOr(BitOr(i * PAGE_SIZE, 2), 1));
        BitsSet(bitmap[..], i / 8, i % 8);
        bitmap[i / 8] := WithBit(bitmap[i / 8], i % 8);
        PrefixNext(i);
        i := i + 1;
      }
    }

    /** A load of a 64-bit word through the current translation. */
    method Load(va: nat, ghost t: nat, ghost i: nat) returns (v: nat)
      requires Reaches(ram, va, t, i)
      ensures v == Get(ram, t, i)
    {
      var frame := Walk(ram, PageOf(va)).value;
      v := Get(ram, frame, va % PAGE_SIZE / 8);
    }

    /** A store of a 64-bit word through the current translation. */
    method Store(va: nat, v: nat, ghost t: nat, ghost i: nat)
      requires Reaches(ram, va, t, i)
      modifies this`ram
      ensures ram == Set(old(ram), t, i, v)
    {
      var frame := Walk(ram, PageOf(va)).value;
      ram := Set(ram, frame, va % PAGE_SIZE / 8, v);
    }

    method PageMapframe(address: nat, ghost t: nat)
      requires Valid() && address == t * PAGE_SIZE
      modifies this`ram
      ensures Valid() && State() == SetWindow(old(State()), t * PAGE_SIZE + 3)
    {
      LowAccess(State(), 0);
      WindowEntry(t);
      SetWindowInv(State(), t * PAGE_SIZE + 3);
      Store(FRAME_PT_ADDRESS, BitOr(BitOr(address, 1), 2), 5, 0);
    }

    method PageUmapframe()
      requires Valid()
      modifies this`ram
      ensures Valid() && State() == SetWindow(old(State()), 0)
    {
      LowAccess(State(), 0);
      SetWindowInv(State(), 0);
      Store(FRAME_PT_ADDRESS, 0, 5, 0);
    }

    /** `memzero` of the page under the window, word by word. */
    method ZeroWindowPage(ghost f: nat)
      requires Valid() && f in owner && !owner[f].Table? && f < FRAMES && Get(ram, 5, 0) == f * PAGE_SIZE + 3
      modifies this`ram
      ensures Valid() && ram == old(ram)[f := Zeros()]
    {
      hide Inv, Walk, Reaches, Zeros;
      ghost var w := State();
      InvShape(w);
      LowFacts(w);
      TableFiveOwned(w);
      var i := 0;
      assert Zeros()[..0] + w.ram[f][0..] == w.ram[f] && w.ram[f := w.ram[f]] == w.ram;
      while i < ENTRIES
        invariant i <= ENTRIES
        invariant ram == w.ram[f := Zeros()[..i] + w.ram[f][i..]]
        invariant Valid()
      {
        hide Inv, Walk, Reaches, Zeros;
        ghost var before := ram;
        WindowAccess(State(), f, i);
        Store(WINDOW_ADDRESS + 8 * i, 0, f, i);
        ZeroOne(w, before, ram, f, i);
        DataWrite(w, State(), f);
        i := i + 1;
      }
      assert Zeros()[..ENTRIES] + w.ram[f][ENTRIES..] == Zeros();
    }

    /** The search shared by `page_getframe` and the boot loader's allocator: the first byte that is not 0xFF,
        and the first clear bit in it. */
    method FirstUnmarked() returns (found: bool, i: nat, j: nat)
      requires Valid()
      ensures found == (FreeCount(State().used) > 0)
      ensures found ==> i < BITMAP_SIZE && j < 8 && FirstFree(State().used) == 8 * i + j
      ensures !found ==> FirstFree(State().used) == |State().used|
    {
      hide Inv, FreeCount, Bit, FirstFree, Bits;
      ghost var used := State().used;
      InvShape(State());
      ShapeSize(State());
      FreeCountPositive(used);
      i, j := 0, 0;
      while i < BITMAP_SIZE
        invariant i <= BITMAP_SIZE
        invariant forall k :: 0 <= k < 8 * i ==> used[k]
      {
        hide Inv, FreeCount, Bit, FirstFree, Bits;
        if bitmap[i] == 0xFF {
          FullByte(bitmap[i]);
          ByteMarks(bitmap[..], i, 8);
          i := i + 1;
          continue;
        }
        j := 0;
        while j < 8
          invariant j <= 8 && forall k :: 0 <= k < j ==> Bit(bitmap[i], k)
        {
          hide Inv, FreeCount, FirstFree, Bits;
          if !Bit(bitmap[i], j) {
            ByteMarks(bitmap[..], i, j);
            BitAt(bitmap[..], i, j);
            FirstFreeIs(used, 8 * i + j);
            found := true;
            return;
          }
          j := j + 1;
        }
        ByteMarks(bitmap[..], i, 8);
        i := i + 1;
      }
      AllMarked(used);
      found := false;
    }

    /** First-fit frame allocation; (qword) -1 when every mark is set. */
    method PageGetframe() returns (addr: nat)
      requires Valid()
      modifies this, bitmap
      ensures Valid() && State() == Claim(old(State()), Claimed)
      ensures addr == if FreeCount(old(State()).used) > 0 then FirstFree(old(State()).used) * PAGE_SIZE else 0xFFFF_FFFF_FFFF_FFFF
    {
      hide Inv, FreeCount, FirstFree, Claim, Bits;
      var found, i, j := FirstUnmarked();
      if found {
        addr := TakeFrame(i, j);
      } else {
        ClaimNothing(State());
        addr := NO_FRAME;
      }
    }

    /** The boot loader's `Kernel_Alloc4KPage`, which clears the frame at its physical address. */
    method KernelAlloc4KPage() returns (frame: nat)
      requires Valid() && FreeCount(State().used) > 0 && Get(ram, 5, 0) == 0
      modifies this, bitmap
      ensures Valid() && State() == Claim(old(State()), Claimed) && Get(ram, 5, 0) == 0
      ensures frame == FirstFree(old(State()).used)
    {
      hide Inv, FreeCount, FirstFree, Bits, Zeros, WithBit;
      ghost var w := State();
      var found, i, j := FirstUnmarked();
      frame := 8 * i + j;
      InvShape(w);
      ClaimInv(w);
      LowFacts(w);
      ClaimFacts(w, Claimed);
      ClearedAlike(ram, frame);
      SameSlot(ram);
      BitsSet(bitmap[..], i, j);
      ram := ram[frame := Zeros()];
      bitmap[i] := WithBit(bitmap[i], j);
      owner := owner[frame := Claimed];
    }

    /** CHECK_AND_CREATE_FRAME: follow entry i of a table, creating the next table if it is missing. */
    method CheckAndCreateFrame(table: nat, i: nat, flags: nat, ghost x: seq<nat>) returns (child: nat)
      requires Valid() && GoodFlags(flags) && IsPath(x, 3) && |x| > 0 && i == x[|x| - 1]
      requires Walk(ram, x[..|x| - 1]) == Some(table) && Get(ram, 5, 0) == 0
      requires Walk(ram, x).None? ==> FreeCount(State().used) > 0
      modifies this, bitmap
      ensures Valid() && State() == EnsureTable(old(State()), x, flags) && Get(ram, 5, 0) == 0
      ensures Walk(ram, x) == Some(child)
    {
      hide Inv, Walk, FreeCount, Claim, FirstFree, Set, Get, Bits, BitOr, EnsuredTable, Shape, IsTable, Grows;
      ghost var u := State();
      TableAt(u, x[..|x| - 1]);
      AbsentEntry(u.ram, x, table);
      EnsureTableInv(u, x, flags);
      EnsuredFacts(u, x, flags);
      if !Present(Get(ram, table, i)) {
        var frame := KernelAlloc4KPage();
        EntryRecovers(frame, flags);
        KeepsSlot(ram, table, i, frame * PAGE_SIZE + flags);
        ram := Set(ram, table, i, BitOr(frame * PAGE_SIZE, flags));
        owner := owner[frame := Table(x)];
        ClaimLedger(u, Table(x));
      } else {
        EnsureNothing(u, x, flags);
      }
      var e := Get(ram, table, i);
      RecoverTable(State(), x, table);
      CleanDivides(State(), x, table);
      child := (e - e % 0x1000) / PAGE_SIZE;
    }

    /** The loop body of `Kernel_MapPagePhysical`: no window is needed before the kernel's tables are in force. */
    method MapPagePhysical(v: nat, phys: nat, flags: nat)
      requires Valid() && GoodFlags(flags) && PageOf(v) != WINDOW && Get(ram, 5, 0) == 0
      requires !Live(State(), PageOf(v)) && !KernelPage(PageOf(v)) && FreeCount(State().used) >= Missing(ram, PageOf(v), 3)
      modifies this, bitmap
      ensures phys / PAGE_SIZE < FRAMES ==> Valid() && Get(ram, 5, 0) == 0
      ensures State() == BootMapPage(old(State()), PageOf(v), phys, flags)
    {
      hide Inv, Walk, FreeCount, EnsureTable, EnsurePath, Missing, Set, Get, Bits, LeafEntry, BitOr, WithBit, Placed, SetAt, LoaderPlace;
      ghost var u, p := State(), PageOf(v);
      var i4, i3, i2, i1 := v / 0x80_0000_0000 % ENTRIES, v / 0x4000_0000 % ENTRIES, v / 0x20_0000 % ENTRIES, v / PAGE_SIZE % ENTRIES;
      if phys / PAGE_SIZE < FRAMES {
        BootMapPageInv(u, p, phys, flags);
      }
      EmptyWalk(u.ram);
      assert p[..1] == [i4] && p[..1][..0] == [];
      PathStart(u, p, flags);
      var t := CheckAndCreateFrame(ROOT, i4, flags, p[..1]);
      BootPathReached(u, p, 1, flags);
      t := CheckAndCreateFrame(t, i3, flags, p[..2]);
      BootPathReached(u, p, 2, flags);
      t := CheckAndCreateFrame(t, i2, flags, p[..3]);
      BootPathDone(u, p, phys, flags);
      KeepsSlot(ram, t, i1, BitOr(phys, flags));
      ram := Set(ram, t, i1, BitOr(phys, flags));
      assert State() == Placed(u, p, phys, flags);
      LoaderMark(phys / PAGE_SIZE);
    }

    /** Lines 107-109: the mark, stored at a physical address from a 64-bit index. */
    method LoaderMark(f: nat)
      requires bitmap.Length == BITMAP_SIZE
      modifies this`ram, this`owner, bitmap
      ensures State() == SetAt(old(State()), LoaderPlace(f), f)
      ensures f < FRAMES ==> ram == old(ram)
    {
      hide Bits, LoaderPlace, SetBit, Get, Set, WithBit;
      var indexBitmap, offsetBitmap := f / 8, f % 8;
      LoaderPlaceIff(f);
      if f >= FRAMES {
        MissedPlace(f);
      }
      if indexBitmap < bitmap.Length {
        assert 8 * indexBitmap + offsetBitmap == f;
        BitsSet(bitmap[..], indexBitmap, offsetBitmap);
        bitmap[indexBitmap] := WithBit(bitmap[indexBitmap], offsetBitmap);
        owner := if f in owner then owner else owner[f := Claimed];
      } else {
        var frame, i := BITMAP_FRAME + indexBitmap / BITMAP_SIZE, indexBitmap % BITMAP_SIZE / 8;
        if frame < FRAMES {
          ram := Set(ram, frame, i, SetBit(Get(ram, frame, i), 8 * (indexBitmap % 8) + offsetBitmap));
        }
      }
    }

    /** `Kernel_MapPagePhysical`. */
    method KernelMapPagePhysical(virt: nat, phys: nat, size: nat, flags: nat)
      requires Valid() && GoodFlags(flags) && Get(ram, 5, 0) == 0
      requires AvoidsWindow(virt, PageCount(size)) && Replaceable(State(), virt, PageCount(size)) && PageCount(size) <= PAGES_IN_SPACE
      requires InBitmap(phys, PageCount(size))
      requires FreeCount(State().used) >= BootTablesMade(State(), virt, phys, PageCount(size), flags)
      modifies this, bitmap
      ensures Valid() && State() == BootMapPages(old(State()), virt, phys, PageCount(size), flags) && Get(ram, 5, 0) == 0
      ensures forall a: nat :: ByteOf(a, virt, size) ==>
        LeafEntry(State().ram, PageOf(a)) == BitOr((phys + (a - a % 0x1000 - virt)) % 0x1_0000_0000_0000_0000, flags)
    {
      hide Inv, FreeCount, Missing, Bits, BootMapPage, AvoidsWindow, InRange, PageOf, Walk, BitOr, LeafEntry, Replaceable, Get;
      ghost var u := State();
      var pages := size / PAGE_SIZE + (if size % PAGE_SIZE > 0 then 1 else 0);
      var i := 0;
      while i < pages
        invariant i <= pages && Valid() && State() == BootMapPages(u, virt, phys, i, flags) && Get(ram, 5, 0) == 0
      {
        hide Inv, FreeCount, Missing, Bits, BootMapPage, AvoidsWindow, InRange, PageOf, Walk, BitOr, LeafEntry, Replaceable,
          Get, BootMapPages, BootTablesMade;
        BootTurn(u, virt, phys, i, pages, flags);
        MapPagePhysical((virt + i * PAGE_SIZE) % WORD_LIMIT, (phys + i * PAGE_SIZE) % WORD_LIMIT, flags);
        i := i + 1;
      }
      LoaderBytes(u, virt, phys, size, flags);
    }

    /** The body of the search: mark bit j of byte i, clear the frame through the window. */
    method TakeFrame(i: nat, j: nat) returns (addr: nat)
      requires Valid() && i < BITMAP_SIZE && j < 8 && FirstFree(State().used) == 8 * i + j && 8 * i + j < FRAMES
      modifies this, bitmap
      ensures Valid() && State() == Claim(old(State()), Claimed) && addr == (8 * i + j) * PAGE_SIZE
    {
      hide Inv, Walk, FreeCount, Bit, WithBit, FirstFree, Reaches, Zeros;
      ghost var w, f := State(), 8 * i + j;
      InvShape(w);
      FreeCountPositive(w.used);
      ClaimInv(w);
      LowFacts(w);
      ClaimFacts(w, Claimed);
      LowFrameFree(w, f);
      BitsSet(bitmap[..], i, j);
      bitmap[i] := WithBit(bitmap[i], j);
      owner := owner[f := Claimed];
      assert State() == World(w.ram, w.used[f := true], w.owner[f := Claimed]);
      MarkInv(w, State(), f);
      addr := (j + i * 8) * PAGE_SIZE;
      PageMapframe(addr, f);
      SlotHolds(w, f);
      ZeroWindowPage(f);
      PageUmapframe();
      ClaimedThroughWindow(w, f);
    }

    /** Lines 248-254: the entry of PMLT4, reached at its own address. */
    method RootTable(i: nat, flags: nat, ghost x: seq<nat>) returns (child: nat)
      requires Valid() && GoodFlags(flags) && i < ENTRIES && x == [i]
      requires Walk(ram, x).None? ==> FreeCount(State().used) > 0
      modifies this, bitmap
      ensures Valid() && Alike(State(), EnsureTable(old(State()), x, flags))
      ensures Walk(ram, x).Some? && child == Walk(ram, x).value * PAGE_SIZE
    {
      hide Inv, Walk, FreeCount, Claim, FirstFree, Reaches, Set, Get, EnsureTable, Bits, Alike, Shape, BitOr, ClearLowNine, EnsuredTable, IsTable, FrameOf;
      ghost var u := State();
      assert x[..0] == [] && Walk(u.ram, []) == Some(1) by { EmptyWalk(u.ram); }
      AbsentEntry(u.ram, x, 1);
      LowAccess(u, i);
      EnsureTableInv(u, x, flags);
      var e := Load(PMLT4_ADDRESS + 8 * i, 1, i);
      if !Present(e) {
        var frame := PageGetframe();
        ghost var f := FirstFree(u.used);
        InvShape(State());
        LowAccess(State(), i);
        EntryRecovers(f, flags);
        Store(PMLT4_ADDRESS + 8 * i, BitOr(frame, flags), 1, i);
        owner := owner[f := Table(x)];
        SlotIsClear(u);
        TableWritten(u, x, flags, 1, 0, State());
        StoredShape(Claim(u, Claimed), State(), 1, i, f * PAGE_SIZE + flags);
      } else {
        EnsureNothing(u, x, flags);
        InvShape(u);
      }
      EnsuredAlike(u, State(), x, flags);
      LowAccess(State(), i);
      e := Load(PMLT4_ADDRESS + 8 * i, 1, i);
      EmptyWalk(ram);
      RecoverTable(State(), x, 1);
      child := ClearLowNine(e);
    }

    /** Lines 256-268 and 268-279: the next table down, reached through the window. */
    method NextTable(table: nat, i: nat, flags: nat, ghost x: seq<nat>, ghost t: nat) returns (child: nat)
      requires Valid() && GoodFlags(flags) && IsPath(x, 3) && |x| > 1 && i == x[|x| - 1]
      requires Walk(ram, x[..|x| - 1]) == Some(t) && table == t * PAGE_SIZE
      requires Walk(ram, x).None? ==> FreeCount(State().used) > 0
      modifies this, bitmap
      ensures Valid() && Alike(State(), EnsureTable(old(State()), x, flags))
      ensures Walk(ram, x).Some? && child == Walk(ram, x).value * PAGE_SIZE
    {
      hide Inv, Walk, FreeCount, Claim, FirstFree, Reaches, Set, Get, EnsureTable, Bits, Alike, Shape, BitOr, ClearLowNine, EnsuredTable, IsTable, FrameOf;
      ghost var u := State();
      TableAt(u, x[..|x| - 1]);
      AbsentEntry(u.ram, x, t);
      EnsureTableInv(u, x, flags);
      SlotHolds(u, t);
      OtherSlot(u.ram, t, i, t * PAGE_SIZE + 3);
      PageMapframe(table, t);
      WindowAccess(State(), t, i);
      var e := Load(WINDOW_ADDRESS + 8 * i, t, i);
      if !Present(e) {
        SetWindowAlike(u, t * PAGE_SIZE + 3);
        SetShape(u, t * PAGE_SIZE + 3);
        ClaimAlike(State(), u, Claimed);
        var frame := PageGetframe();
        ghost var f, c := FirstFree(u.used), State();
        InvShape(c);
        SlotHolds(c, t);
        PageMapframe(table, t);
        WindowAccess(State(), t, i);
        EntryRecovers(f, flags);
        Store(WINDOW_ADDRESS + 8 * i, BitOr(frame, flags), t, i);
        owner := owner[f := Table(x)];
        TableWritten(u, x, flags, t, t * PAGE_SIZE + 3, State());
        SetShape(c, t * PAGE_SIZE + 3);
        StoredShape(SetWindow(c, t * PAGE_SIZE + 3), State(), t, i, f * PAGE_SIZE + flags);
        StoredSlot(c, t, i, f * PAGE_SIZE + flags);
      } else {
        EnsureNothing(u, x, flags);
        SetWindowAlike(u, t * PAGE_SIZE + 3);
        SetShape(u, t * PAGE_SIZE + 3);
      }
      EnsuredAlike(u, State(), x, flags);
      WindowAccess(State(), t, i);
      e := Load(WINDOW_ADDRESS + 8 * i, t, i);
      RecoverTable(State(), x, t);
      child := ClearLowNine(e);
    }

    /** Lines 248-279, shared by all mapping loops: walk from PMLT4 to the page table, creating what is missing. */
    method WalkOrCreate(i4: nat, i3: nat, i2: nat, flags: nat, ghost p: seq<nat>) returns (table: nat)
      requires Valid() && GoodFlags(flags) && IsPage(p) && p[0] == i4 && p[1] == i3 && p[2] == i2
      requires FreeCount(State().used) >= Missing(ram, p, 3)
      modifies this, bitmap
      ensures Valid() && Alike(State(), EnsurePath(old(State()), p, 3, flags))
      ensures Walk(ram, p[..3]).Some? && table == Walk(ram, p[..3]).value * PAGE_SIZE
    {
      hide Inv, Walk, FreeCount, EnsurePath, EnsureTable, Missing, Alike, Bits;
      ghost var u := State();
      assert p[..1] == [i4];
      PathStart(u, p, flags);
      table := RootTable(i4, flags, p[..1]);
      ghost var s1 := State();
      PathReached(u, s1, p, 1, flags);
      table := NextTable(table, i3, flags, p[..2], table / PAGE_SIZE);
      ghost var s2 := State();
      PathExtended(u, s1, s2, p, 1, flags);
      PathReached(u, s2, p, 2, flags);
      table := NextTable(table, i2, flags, p[..3], table / PAGE_SIZE);
      PathExtended(u, s2, State(), p, 2, flags);
    }

    /** The loop body of `page_mapv`. */
    method MapvPage(v: nat, flags: nat)
      requires Valid() && GoodFlags(flags) && PageOf(v) != WINDOW
      requires FreeCount(State().used) > Missing(ram, PageOf(v), 3)
      modifies this, bitmap
      ensures Valid() && State() == MapPage(old(State()), PageOf(v), flags)
    {
      hide Inv, Walk, FreeCount, EnsurePath, Missing, Alike, Bits, Claim, FirstFree, Shape, Reaches, Get, Set, LeafEntry, MapPage, BitOr, Grows;
      ghost var u, p := State(), PageOf(v);
      var i4, i3, i2, i1 := v / 0x80_0000_0000 % ENTRIES, v / 0x4000_0000 % ENTRIES, v / 0x20_0000 % ENTRIES, v / PAGE_SIZE % ENTRIES;
      MapPageValid(u, p, flags);
      var table := WalkOrCreate(i4, i3, i2, flags, p);
      ghost var s := State();
      MapvMidway(u, s, p, flags);
      ghost var t, f, w4 := Walk(s.ram, p[..3]).value, FirstFree(s.used), Claim(s, Claimed);
      var frame := PageGetframe();
      PageMapframe(table, t);
      SlotHolds(w4, t);
      WindowAccess(State(), t, i1);
      OtherSlot(w4.ram, t, i1, t * PAGE_SIZE + 3);
      var e := Load(WINDOW_ADDRESS + 8 * i1, t, i1);
      if e != 0 {
        return;
      }
      EntryRecovers(f, flags);
      Store(WINDOW_ADDRESS + 8 * i1, BitOr(frame, flags), t, i1);
      owner := owner[f := Leaf(p)];
      StoreThenClose(w4, t, i1, f * PAGE_SIZE + flags, t * PAGE_SIZE + 3);
      assert Alike(State(), MapPage(u, p, flags)) by { AlikeBoth(State(), MapPage(u, p, flags)); }
      SetShape(w4, t * PAGE_SIZE + 3);
      StoredShape(SetWindow(w4, t * PAGE_SIZE + 3), State(), t, i1, f * PAGE_SIZE + flags);
      AlikeInv(State(), MapPage(u, p, flags));
      PageUmapframe();
    }

    /** `page_mapv`. */
    method PageMapv(virt: nat, length: nat, flags: nat)
      requires Valid() && GoodFlags(flags) && virt < WORD_LIMIT && AvoidsWindow(virt, PageCount(length))
      requires FreeCount(State().used) >= PageCount(length) + TablesMade(State(), virt, PageCount(length), flags)
      modifies this, bitmap
      ensures Valid() && State() == MapPages(old(State()), virt, PageCount(length), flags)
      ensures forall a: nat :: ByteOf(a, virt, length) ==> Present(LeafEntry(State().ram, PageOf(a)))
    {
      hide Inv, FreeCount, Missing, Bits, MapPage, AvoidsWindow, InRange, PageOf, Walk;
      ghost var u := State();
      var size := length / PAGE_SIZE + (if length % PAGE_SIZE > 0 then 1 else 0);
      var i := 0;
      while i < size
        invariant i <= size && Valid() && State() == MapPages(u, virt, i, flags)
      {
        hide Inv, FreeCount, Missing, Bits, MapPage, AvoidsWindow, InRange, PageOf, Walk, MapPages, TablesMade;
        MapvTurn(u, virt, i, size, flags);
        MapvPage((virt + i * PAGE_SIZE) % WORD_LIMIT, flags);
        MapvNext(u, virt, i, flags);
        i := i + 1;
      }
      forall a: nat | ByteOf(a, virt, length) ensures Present(LeafEntry(State().ram, PageOf(a))) {
        MapvInBytes(u, virt, length, flags, a);
      }
    }

    /** The loop body of `page_mapvp`. */
    method MapvpPage(v: nat, phys: nat, flags: nat)
      requires Valid() && GoodFlags(flags) && PageOf(v) != WINDOW
      requires FreeCount(State().used) >= Missing(ram, PageOf(v), 3)
      modifies this, bitmap
      ensures Valid() && State() == MapPhysPage(old(State()), PageOf(v), BitOr(phys, flags), flags)
    {
      hide Inv, Walk, FreeCount, EnsurePath, Missing, Alike, Bits, Claim, FirstFree, Shape, Reaches, Get, Set, LeafEntry, MapPhysPage, BitOr;
      ghost var u, p, x := State(), PageOf(v), BitOr(phys, flags);
      var i4, i3, i2, i1 := v / 0x80_0000_0000 % ENTRIES, v / 0x4000_0000 % ENTRIES, v / 0x20_0000 % ENTRIES, v / PAGE_SIZE % ENTRIES;
      BitOrOdd(phys, flags);
      MapPhysPageInv(u, p, x, flags);
      var table := WalkOrCreate(i4, i3, i2, flags, p);
      ghost var s := State();
      MapvpMidway(u, s, p, x, flags);
      ghost var t := Walk(s.ram, p[..3]).value;
      PageMapframe(table, t);
      SlotHolds(s, t);
      WindowAccess(State(), t, i1);
      OtherSlot(s.ram, t, i1, t * PAGE_SIZE + 3);
      var e := Load(WINDOW_ADDRESS + 8 * i1, t, i1);
      if e != 0 {
        PageUmapframe();
        SetTwice(s.ram, t * PAGE_SIZE + 3, 0);
        return;
      }
      Store(WINDOW_ADDRESS + 8 * i1, BitOr(phys, flags), t, i1);
      SetCommutes(s.ram, t, i1, t * PAGE_SIZE + 3, x);
      SetTwice(Set(s.ram, t, i1, x), t * PAGE_SIZE + 3, 0);
      SetTwice(Set(s.ram, t, i1, x), 0, 0);
      assert Alike(State(), MapPhysPage(u, p, x, flags)) by { AlikeBoth(State(), MapPhysPage(u, p, x, flags)); }
      SetShape(s, t * PAGE_SIZE + 3);
      StoredShape(SetWindow(s, t * PAGE_SIZE + 3), State(), t, i1, x);
      AlikeInv(State(), MapPhysPage(u, p, x, flags));
      PageUmapframe();
    }

    /** `page_mapvp`. */
    method PageMapvp(virt: nat, phys: nat, length: nat, flags: nat)
      requires Valid() && GoodFlags(flags) && virt < WORD_LIMIT && phys < WORD_LIMIT
      requires AvoidsWindow(virt, PageCount(length)) && PageCount(length) <= LOOP_PAGES
      requires FreeCount(State().used) >= PhysTablesMade(State(), virt, phys, PageCount(length), flags)
      modifies this, bitmap
      ensures Valid() && State() == MapPhysPages(old(State()), virt, phys, PageCount(length), flags)
      ensures forall a: nat :: ByteOf(a, virt, length) && LeafEntry(old(State()).ram, PageOf(a)) == 0 ==>
        LeafEntry(State().ram, PageOf(a)) == BitOr((phys + (a - a % 0x1000 - virt)) % 0x1_0000_0000_0000_0000, flags)
    {
      hide Inv, FreeCount, Missing, Bits, MapPhysPage, AvoidsWindow, InRange, PageOf, Walk, BitOr;
      ghost var u := State();
      var size := length / PAGE_SIZE + (if length % PAGE_SIZE > 0 then 1 else 0);
      var i := 0;
      while i < size
        invariant i <= size && Valid() && State() == MapPhysPages(u, virt, phys, i, flags)
      {
        hide Inv, FreeCount, Missing, Bits, MapPhysPage, AvoidsWindow, InRange, PageOf, Walk, MapPhysPages, PhysTablesMade, BitOr;
        MapvpTurn(u, virt, phys, i, size, flags);
        MapvpPage((virt + i * PAGE_SIZE) % WORD_LIMIT, (phys + i * PAGE_SIZE) % WORD_LIMIT, flags);
        MapvpNext(u, virt, phys, i, flags);
        i := i + 1;
      }
      PhysBytes(u, virt, phys, length, flags);
    }

    /** `page_alloc4K`. */
    method PageAlloc4K(flags: nat) returns (phys: nat)
      requires Valid() && GoodFlags(flags)
      requires FreeCount(State().used) > Missing(ram, Ident(FirstFree(State().used)), 3)
      requires !Live(State(), Ident(FirstFree(State().used)))
      modifies this, bitmap
      ensures Valid() && State() == Alloc4K(old(State()), flags) && phys == FirstFree(old(State()).used) * PAGE_SIZE
    {
      hide Inv, Walk, FreeCount, EnsurePath, Missing, Alike, Bits, Claim, FirstFree, Shape, Reaches, Get, Set, LeafEntry, Live, PageOf, BitOr, Grows, FreshPage, SameLeavesBut, MarksBeside;
      ghost var u := State();
      ghost var f := FirstFree(u.used);
      ghost var p := Ident(f);
      Alloc4KInv(u, flags);
      AllocStart(u, f);
      phys := PageGetframe();
      var i4, i3, i2, i1 := phys / 0x80_0000_0000 % ENTRIES, phys / 0x4000_0000 % ENTRIES, phys / 0x20_0000 % ENTRIES, phys / PAGE_SIZE % ENTRIES;
      IdentIsPageOf(f);
      ghost var c := State();
      var table := WalkOrCreate(i4, i3, i2, flags, p);
      ghost var s := State();
      AllocMidway(u, s, flags);
      ghost var t := Walk(s.ram, p[..3]).value;
      PageMapframe(table, t);
      SlotHolds(s, t);
      WindowAccess(State(), t, i1);
      EntryRecovers(f, flags);
      Store(WINDOW_ADDRESS + 8 * i1, BitOr(phys, flags), t, i1);
      owner := owner[f := Leaf(p)];
      SetCommutes(s.ram, t, i1, t * PAGE_SIZE + 3, f * PAGE_SIZE + flags);
      SetTwice(Set(s.ram, t, i1, f * PAGE_SIZE + flags), t * PAGE_SIZE + 3, 0);
      SetTwice(Set(s.ram, t, i1, f * PAGE_SIZE + flags), 0, 0);
      assert Alike(State(), Alloc4K(u, flags)) by { AlikeBoth(State(), Alloc4K(u, flags)); }
      SetShape(s, t * PAGE_SIZE + 3);
      StoredShape(SetWindow(s, t * PAGE_SIZE + 3), State(), t, i1, f * PAGE_SIZE + flags);
      AlikeInv(State(), Alloc4K(u, flags));
      PageUmapframe();
    }

    /** `page_clear_bitmap`. The byte index is cut to 32 bits and the store goes where the page tables lead, which is
        the bitmap only for an index below 0x1000. */
    method PageClearBitmap(addr: nat) returns (s: Place)
      requires bitmap.Length == BITMAP_SIZE
      modifies this`ram, this`owner, bitmap
      ensures s == MarkPlace(old(ram), MarkIndex(addr)) && State() == ClearAt(old(State()), s, MarkIndex(addr))
    {
      hide Walk, Spot, Bits;
      var frame := addr / PAGE_SIZE;
      var idx, off := frame / 8 % DWORD_LIMIT, frame % 8;
      var b := 8 * idx + off;
      assert b / 8 == idx;
      s := MarkPlace(ram, b);
      match s
      case Mark(i) =>
        if i < 8 * bitmap.Length {
          BitsClear(bitmap[..], i / 8, i % 8);
          bitmap[i / 8] := WithoutBit(bitmap[i / 8], i % 8);
          assert 8 * (i / 8) + i % 8 == i;
        }
        owner := owner - {i};
      case Word(f, i) =>
        ram := Set(ram, f, i, ClearBit(Get(ram, f, i), b % 64));
      case _ =>
    }

    /** The loop body of `page_umapv`. */
    method UmapvPage(v: nat)
      requires Valid() && PageOf(v) != WINDOW && Removable(State(), PageOf(v))
      modifies this, bitmap
      ensures Valid() && State() == UnmapPage(old(State()), PageOf(v))
    {
      hide Inv, Walk, Bits, Shape, Reaches, Get, Set, LeafEntry, UnmapPage, BitOr, Removable, Unmapped, ClearLowNine;
      ghost var u, p := State(), PageOf(v);
      var i4, i3, i2, i1 := v / 0x80_0000_0000 % ENTRIES, v / 0x4000_0000 % ENTRIES, v / 0x20_0000 % ENTRIES, v / PAGE_SIZE % ENTRIES;
      UnmapPageInv(u, p);
      UnmapSteps(u, p);
      EmptyWalk(u.ram);
      LowAccess(u, i4);
      var e := Load(PMLT4_ADDRESS + 8 * i4, 1, i4);
      if !Present(e) {
        return;
      }
      RecoverTable(u, p[..1], 1);
      var table := ClearLowNine(e);
      ghost var t := Walk(u.ram, p[..1]).value;
      OpenTable(u, p, 1);
      PageMapframe(table, t);
      WindowAccess(State(), t, i3);
      e := Load(WINDOW_ADDRESS + 8 * i3, t, i3);
      if !Present(e) {
        return;
      }
      RecoverTable(u, p[..2], t);
      table := ClearLowNine(e);
      SetTwice(u.ram, t * PAGE_SIZE + 3, Walk(u.ram, p[..2]).value * PAGE_SIZE + 3);
      t := Walk(u.ram, p[..2]).value;
      OpenTable(u, p, 2);
      PageMapframe(table, t);
      WindowAccess(State(), t, i2);
      e := Load(WINDOW_ADDRESS + 8 * i2, t, i2);
      if !Present(e) {
        return;
      }
      RecoverTable(u, p[..3], t);
      table := ClearLowNine(e);
      RemoveEntry(table, i1, u, p, t * PAGE_SIZE + 3);
    }

    /** Lines 334-359: empty the entry and clear the mark of the frame it named. */
    method RemoveEntry(table: nat, i1: nat, ghost u: World, ghost p: seq<nat>, ghost d: nat)
      requires Valid() && Inv(u) && IsPage(p) && p != WINDOW && i1 == p[3] && Removable(u, p) && State() == SetWindow(u, d)
      requires Walk(u.ram, p[..3]).Some? && table == Walk(u.ram, p[..3]).value * PAGE_SIZE
      modifies this, bitmap
      ensures Valid() && State() == UnmapPage(u, p)
    {
      hide Inv, Walk, Bits, Shape, Reaches, Get, Set, LeafEntry, UnmapPage, BitOr, Removable, Unmapped, ClearLowNine, PageOf, MarkIndex,
        MarkPlace;
      UnmapPageInv(u, p);
      UnmapSteps(u, p);
      ghost var t := Walk(u.ram, p[..3]).value;
      SetTwice(u.ram, d, t * PAGE_SIZE + 3);
      OpenTable(u, p, 3);
      PageMapframe(table, t);
      WindowAccess(State(), t, i1);
      var e := Load(WINDOW_ADDRESS + 8 * i1, t, i1);
      var addr := ClearLowNine(e);
      InvShape(u);
      ClearKeepsFrame(e);
      RemovalStep(u, p, t);
      SetCommutes(u.ram, t, i1, t * PAGE_SIZE + 3, 0);
      Store(WINDOW_ADDRESS + 8 * i1, 0, t, i1);
      var place := PageClearBitmap(addr);
      SetTwice(Set(u.ram, t, i1, 0), t * PAGE_SIZE + 3, 0);
      SetTwice(Set(u.ram, t, i1, 0), 0, 0);
      assert Alike(State(), UnmapPage(u, p)) by { AlikeBoth(State(), UnmapPage(u, p)); }
      ClearedShape(u, State(), t, i1, t * PAGE_SIZE + 3, MarkIndex(e));
      AlikeInv(State(), UnmapPage(u, p));
      PageUmapframe();
    }

    /** `page_umapv`. */
    method PageUmapv(virt: nat, length: nat)
      requires Valid() && virt < WORD_LIMIT && AvoidsWindow(virt, PageCount(length))
      requires PageCount(length) <= LOOP_PAGES && AllRemovable(State(), virt, PageCount(length))
      modifies this, bitmap
      ensures Valid() && State() == UnmapPages(old(State()), virt, PageCount(length))
      ensures forall a: nat :: ByteOf(a, virt, length) ==> LeafEntry(State().ram, PageOf(a)) == 0
    {
      hide Inv, Bits, UnmapPage, AvoidsWindow, InRange, PageOf, Walk, Removable, AllRemovable;
      ghost var u := State();
      var size := length / PAGE_SIZE + (if length % PAGE_SIZE > 0 then 1 else 0);
      var i := 0;
      while i < size
        invariant i <= size && Valid() && State() == UnmapPages(u, virt, i)
      {
        hide Inv, Bits, UnmapPage, AvoidsWindow, InRange, PageOf, Walk, UnmapPages, Removable, AllRemovable;
        UmapvTurn(u, virt, i, size);
        UmapvPage((virt + i * PAGE_SIZE) % WORD_LIMIT);
        UmapvNext(u, virt, i);
        i := i + 1;
      }
      forall a: nat | ByteOf(a, virt, length) ensures LeafEntry(State().ram, PageOf(a)) == 0 {
        UmapvInBytes(u, virt, length, a);
      }
    }

    /** `page_getSizeMemoryUse`: bytes in use, counting eight frames at once for a full byte. */
    method PageGetSizeMemoryUse() returns (size: nat)
      requires Valid()
      ensures size == 0x1000 * |Marked(State().used)|
    {
      hide Inv, FreeCount, Bit, Bits, Marked;
      ghost var used := State().used;
      size := 0;
      var i := 0;
      assert used[..0] == [];
      EmptyCount();
      while i < BITMAP_SIZE
        invariant i <= BITMAP_SIZE && size == 0x1000 * (8 * i - FreeCount(used[..8 * i]))
      {
        hide Inv, FreeCount, Bit, Bits;
        var b := bitmap[i];
        if b == 0xFF {
          size := size + 0x1000 * 8;
          FullByte(b);
          ByteMarks(bitmap[..], i, 8);
          FreeCountFull(used, 8 * i, 8);
          i := i + 1;
          continue;
        }
        var j := 0;
        while j < 8
          invariant j <= 8 && size == 0x1000 * (8 * i + j - FreeCount(used[..8 * i + j]))
        {
          hide Inv, FreeCount, Bit, Bits;
          BitAt(bitmap[..], i, j);
          FreeCountNext(used, 8 * i + j);
          if Bit(b, j) {
            size := size + 0x1000;
          }
          j := j + 1;
        }
        i := i + 1;
      }
      InvShape(State());
      ShapeSize(State());
      assert used[..8 * BITMAP_SIZE] == used;
      MarkedCount(used);
    }
  }

  lemma PhysBytes(u: World, virt: nat, phys: nat, length: nat, flags: nat)
    requires Inv(u) && GoodFlags(flags) && AvoidsWindow(virt, PageCount(length)) && PageCount(length) <= LOOP_PAGES
    requires FreeCount(u.used) >= PhysTablesMade(u, virt, phys, PageCount(length), flags)
    ensures forall a: nat :: ByteOf(a, virt, length) && LeafEntry(u.ram, PageOf(a)) == 0 ==>
      LeafEntry(MapPhysPages(u, virt, phys, PageCount(length), flags).ram, PageOf(a))
        == BitOr((phys + (a - a % 0x1000 - virt)) % 0x1_0000_0000_0000_0000, flags)
  {
    hide Inv, FreeCount, PhysTablesMade, MapPhysPages, AvoidsWindow, LeafEntry, PageOf, BitOr;
    forall a: nat | ByteOf(a, virt, length) && LeafEntry(u.ram, PageOf(a)) == 0
      ensures LeafEntry(MapPhysPages(u, virt, phys, PageCount(length), flags).ram, PageOf(a))
           == BitOr((phys + (a - a % 0x1000 - virt)) % 0x1_0000_0000_0000_0000, flags)
    {
      MapvpInBytes(u, virt, phys, length, flags, a);
    }
  }

  lemma LoaderBytes(u: World, virt: nat, phys: nat, size: nat, flags: nat)
    requires Inv(u) && GoodFlags(flags) && AvoidsWindow(virt, PageCount(size)) && PageCount(size) <= PAGES_IN_SPACE
    requires Replaceable(u, virt, PageCount(size)) && InBitmap(phys, PageCount(size))
    requires FreeCount(u.used) >= BootTablesMade(u, virt, phys, PageCount(size), flags)
    ensures forall a: nat :: ByteOf(a, virt, size) ==>
      LeafEntry(BootMapPages(u, virt, phys, PageCount(size), flags).ram, PageOf(a))
        == BitOr((phys + (a - a % 0x1000 - virt)) % 0x1_0000_0000_0000_0000, flags)
  {
    hide Inv, FreeCount, BootTablesMade, BootMapPages, AvoidsWindow, LeafEntry, PageOf, BitOr, Replaceable, InBitmap;
    forall a: nat | ByteOf(a, virt, size)
      ensures LeafEntry(BootMapPages(u, virt, phys, PageCount(size), flags).ram, PageOf(a))
           == BitOr((phys + (a - a % 0x1000 - virt)) % 0x1_0000_0000_0000_0000, flags)
    {
      LoaderInBytes(u, virt, phys, size, flags, a);
    }
  }

  /** The first page table after i turns of the boot loader's loop. */
  ghost function FirstEntries(i: nat): (row: seq<nat>)
    ensures |row| == ENTRIES
  {
    seq(ENTRIES, k => if 0 <= k < i then k * PAGE_SIZE + 3 else 0)
  }

  ghost function LowMarks(i: nat): seq<bool> {
    seq(FRAMES, f => f < i)
  }

  lemma NoBits(bytes: seq<bv8>)
    requires |bytes| == BITMAP_SIZE && forall i :: 0 <= i < |bytes| ==> bytes[i] == 0
    ensures Bits(bytes) == LowMarks(0)
  {
    hide Bit;
    forall k | 0 <= k < FRAMES ensures Bits(bytes)[k] == LowMarks(0)[k] {
      ZeroByte(k % 8);
    }
  }

  lemma PrefixStart()
    ensures FirstEntries(0) == Zeros()
  {
  }

  lemma PrefixNext(i: nat)
    requires i < 7
    ensures FirstEntries(i)[i := i * PAGE_SIZE + 3] == FirstEntries(i + 1)
    ensures LowMarks(i)[i := true] == LowMarks(i + 1)
  {
  }

  lemma PrefixAll()
    ensures FirstEntries(7) == FirstTable()
    ensures LowMarks(7) == seq(FRAMES, f => f < 7)
  {
  }

  lemma UpperShape(memory: Ram)
    requires FullRam(memory)
    ensures FullRam(UpperEntries(memory)) && UpperEntries(memory)[4] == Zeros()
    ensures UpperEntries(memory)[4 := Zeros()] == UpperEntries(memory)
  {
    hide Zeros;
  }

  lemma BootRows(memory: Ram)
    requires FullRam(memory)
    ensures Set(UpperEntries(memory)[4 := FirstEntries(7)], 3, 511, 0x5003) == BootWorld(memory).ram
    ensures BootWorld(memory).owner == map[0 := Claimed, 1 := Table([]), 2 := Table([0]), 3 := Table([0, 0]),
      4 := Table([0, 0, 0]), 5 := Table([0, 0, 511]), 6 := Claimed]
  {
    hide Zeros, FirstTable, FirstEntries;
    PrefixAll();
  }

  lemma BootMarks(memory: Ram)
    requires FullRam(memory)
    ensures BootWorld(memory).used == LowMarks(7)
  {
    hide Zeros, FirstTable;
  }

  lemma EnsuredFacts(u: World, x: seq<nat>, flags: nat)
    requires |x| > 0 && EnsuredTable(u, EnsureTable(u, x, flags), x) && IsPath(x, 3)
    ensures Inv(EnsureTable(u, x, flags)) && Walk(EnsureTable(u, x, flags).ram, x).Some?
    ensures Walk(EnsureTable(u, x, flags).ram, x[..|x| - 1]) == Walk(u.ram, x[..|x| - 1])
  {
    hide Inv, Grows, OnlyTablesAdded, SameLeaves, Walk, EnsureTable, FreeCount;
    SubPath(x);
  }

  lemma KeepsSlot(ram: Ram, t: nat, i: nat, e: nat)
    requires t != 5 || i != 0
    ensures Get(Set(ram, t, i, e), 5, 0) == Get(ram, 5, 0)
  {
  }

  /** Registering a claimed frame as a table is claiming it as one. */
  lemma ClaimLedger(u: World, o: Owner)
    requires Inv(u) && FreeCount(u.used) > 0
    ensures Claim(u, o) == Claim(u, Claimed).(owner := Claim(u, Claimed).owner[FirstFree(u.used) := o])
  {
    hide Inv, Set, Zeros, FreeCount, FirstFree;
    InvShape(u);
    FreeCountPositive(u.used);
    assert u.owner[FirstFree(u.used) := Claimed][FirstFree(u.used) := o] == u.owner[FirstFree(u.used) := o];
  }

  lemma CleanDivides(w: World, x: seq<nat>, t: nat)
    requires Inv(w) && IsPath(x, 3) && |x| > 0 && Walk(w.ram, x).Some? && Walk(w.ram, x[..|x| - 1]) == Some(t)
    ensures var e := Get(w.ram, t, x[|x| - 1]); (e - e % 0x1000) / PAGE_SIZE == Walk(w.ram, x).value
  {
    hide LeafEntry, TablesAreWalked, LeavesAreMapped, EntriesArePresent, LowMapping, Walk, WalksAreTables;
    TableAt(w, x[..|x| - 1]);
    WalkLast(w.ram, x, t);
    hide Get, CleanEntry, FrameOf, ClearLowNine;
    PointerIsClean(w, t, x[|x| - 1]);
    CleanMasks(Get(w.ram, t, x[|x| - 1]));
  }

  lemma BootPathReached(u: World, p: seq<nat>, k: nat, flags: nat)
    requires Inv(u) && IsPage(p) && 1 <= k < 3 && GoodFlags(flags) && FreeCount(u.used) >= Missing(u.ram, p, 3)
    ensures var s := EnsurePath(u, p, k, flags);
      && p[..k + 1][..k] == p[..k] && IsPath(p[..k + 1], 3) && (Walk(s.ram, p[..k + 1]).None? ==> FreeCount(s.used) > 0)
      && EnsurePath(u, p, k + 1, flags) == EnsureTable(s, p[..k + 1], flags)
      && EnsurePath(u, p, 1, flags) == EnsureTable(u, p[..1], flags)
  {
    hide Inv, Walk, FreeCount, EnsureTable, PathEnsured, SetWindow, Missing;
    MissingMonotone(u.ram, p, k, 3);
    EnsurePathInv(u, p, k, flags);
    EnsuredIsInv(u, p, k, flags);
    PathReached(u, EnsurePath(u, p, k, flags), p, k, flags);
  }

  lemma EnsuredIsInv(u: World, p: seq<nat>, k: nat, flags: nat)
    requires k <= 3 && |p| == 4 && PathEnsured(u, EnsurePath(u, p, k, flags), p, k)
    ensures Inv(EnsurePath(u, p, k, flags))
  {
    hide Inv, EnsurePath;
  }

  /** Bit f % 64 of its word is bit f % 8 of byte f / 8. */
  lemma ByteInWord(f: nat)
    ensures 8 * (f / 8 % 8) + f % 8 == f % 64 && f / 8 % BITMAP_SIZE / 8 == f / 64 % ENTRIES
    ensures f / 8 / BITMAP_SIZE == f / FRAMES
  {
    BitParts(f, f / 0x8000, f % 0x8000 / 64, f % 0x8000 % 64 / 8, f % 0x8000 % 64 % 8);
  }

  lemma BitParts(f: nat, page: nat, word: nat, b: nat, o: nat)
    requires f == 0x8000 * page + 64 * word + 8 * b + o && word < 0x200 && b < 8 && o < 8
    ensures f % 8 == o && f / 8 % 8 == b && f % 64 == 8 * b + o && f / 8 % 0x1000 / 8 == word && f / 64 % 0x200 == word
    ensures f / 8 / 0x1000 == page && f / 0x8000 == page
  {
    var byte := 0x1000 * page + 8 * word + b;
    Quotient(f, byte, o, 8);
    Quotient(byte, 0x200 * page + word, b, 8);
    Quotient(byte, page, 8 * word + b, 0x1000);
    Quotient(8 * word + b, word, b, 8);
    Quotient(f, 0x200 * page + word, 8 * b + o, 64);
    Quotient(0x200 * page + word, page, word, 0x200);
    Quotient(f, page, 64 * word + 8 * b + o, 0x8000);
  }

  /** The word a mark beyond the bitmap falls in, from its byte index. */
  lemma MissedPlace(f: nat)
    requires f >= FRAMES
    ensures var frame := BITMAP_FRAME + f / 8 / BITMAP_SIZE;
      LoaderPlace(f) == if frame < FRAMES then Word(frame, f / 8 % BITMAP_SIZE / 8) else Elsewhere
    ensures 8 * (f / 8 % 8) + f % 8 == f % 64
  {
    ByteInWord(f);
    assert f / FRAMES >= 1;
  }

  lemma BootPathDone(u: World, p: seq<nat>, phys: nat, flags: nat)
    requires Inv(u) && IsPage(p) && p != WINDOW && GoodFlags(flags) && FreeCount(u.used) >= Missing(u.ram, p, 3)
    ensures var w3 := EnsurePath(u, p, 3, flags);
      && Walk(w3.ram, p[..3]).Some? && |w3.used| == FRAMES && (Walk(w3.ram, p[..3]).value != 5 || p[3] != 0)
      && Placed(u, p, phys, flags) == World(Set(w3.ram, Walk(w3.ram, p[..3]).value, p[3], BitOr(phys, flags)), w3.used, w3.owner)
  {
    hide Inv, Walk, LeafEntry, FreeCount, EnsurePath, Missing, Set, Get, BitOr, Grows, OnlyTablesAdded, SameLeaves;
    EnsurePathInv(u, p, 3, flags);
    var w3 := EnsurePath(u, p, 3, flags);
    InvShape(w3);
    PathDone(u, w3, p, flags);
  }

  lemma BootTurn(u: World, virt: nat, phys: nat, i: nat, n: nat, flags: nat)
    requires Inv(u) && GoodFlags(flags) && i < n <= PAGES_IN_SPACE && AvoidsWindow(virt, n) && Replaceable(u, virt, n)
    requires FreeCount(u.used) >= BootTablesMade(u, virt, phys, n, flags) && InBitmap(phys, n)
    ensures FrameAt(phys, i) < FRAMES
    ensures var w, p := BootMapPages(u, virt, phys, i, flags), PageOf((virt + i * PAGE_SIZE) % WORD_LIMIT);
      && p != WINDOW && FreeCount(w.used) >= Missing(w.ram, p, 3) && !Live(w, p) && !KernelPage(p)
      && BootMapPages(u, virt, phys, i + 1, flags) == BootMapPage(w, p, (phys + i * PAGE_SIZE) % WORD_LIMIT, flags)
  {
    hide Inv, FreeCount, Missing, BootMapPage, PageOf, Walk, BootMapped, Grows, LeafEntry, AvoidsWindow, Live, KernelPage, Replaceable,
      NoNewLeaves, BootMapPages, BootTablesMade;
    assert BootMapPages(u, virt, phys, i + 1, flags)
        == BootMapPage(BootMapPages(u, virt, phys, i, flags), PageAt(virt, i), (phys + i * PAGE_SIZE) % WORD_LIMIT, flags) by {
      BootMapNext(u, virt, phys, i, flags);
    }
    assert FrameAt(phys, i) < FRAMES;
    BootTablesMonotone(u, virt, phys, i + 1, n, flags);
    SubRange(virt, i, n);
    InsideRange(virt, i, n);
    SubReplaceable(u, virt, i, n);
    BootMapPagesInv(u, virt, phys, i, flags);
    StillReplaceable(u, BootMapPages(u, virt, phys, i, flags), virt, n, i);
  }

  lemma BootMapNext(u: World, virt: nat, phys: nat, i: nat, flags: nat)
    ensures BootMapPages(u, virt, phys, i + 1, flags)
         == BootMapPage(BootMapPages(u, virt, phys, i, flags), PageAt(virt, i), (phys + i * PAGE_SIZE) % WORD_LIMIT, flags)
  {
    hide BootMapPage, PageAt;
  }

  lemma SubReplaceable(u: World, virt: nat, i: nat, n: nat)
    requires i <= n && Replaceable(u, virt, n)
    ensures Replaceable(u, virt, i)
  {
    hide PageAt, Live, KernelPage;
  }

  lemma {:induction false} BootTablesMonotone(u: World, virt: nat, phys: nat, i: nat, n: nat, flags: nat)
    requires i <= n
    ensures BootTablesMade(u, virt, phys, i, flags) <= BootTablesMade(u, virt, phys, n, flags)
    ensures i > 0 ==> BootTablesMade(u, virt, phys, i, flags) == BootTablesMade(u, virt, phys, i - 1, flags)
                        + Missing(BootMapPages(u, virt, phys, i - 1, flags).ram, PageAt(virt, i - 1), 3) + 1
    decreases n - i
  {
    hide Missing, BootMapPages, PageAt;
    if i < n {
      BootTablesMonotone(u, virt, phys, i + 1, n, flags);
    }
  }

  lemma EmptyCount()
    ensures FreeCount([]) == 0
  {
  }

  /** What `UnmapPage` is at each place the loop body can leave off. */
  lemma UnmapSteps(u: World, p: seq<nat>)
    requires Inv(u) && IsPage(p)
    ensures p[..1][..0] == [] && p[..2][..1] == p[..1] && p[..3][..2] == p[..2]
    ensures Walk(u.ram, p[..1]).Some? <==> Present(Get(u.ram, 1, p[0]))
    ensures Walk(u.ram, p[..1]).None? ==> UnmapPage(u, p) == u
    ensures Walk(u.ram, p[..1]).Some? && Walk(u.ram, p[..2]).None? ==>
      UnmapPage(u, p) == SetWindow(u, Walk(u.ram, p[..1]).value * PAGE_SIZE + 3)
    ensures Walk(u.ram, p[..2]).Some? && Walk(u.ram, p[..3]).None? ==>
      UnmapPage(u, p) == SetWindow(u, Walk(u.ram, p[..2]).value * PAGE_SIZE + 3)
    ensures Walk(u.ram, []) == Some(1)
  {
    hide Inv, LeafEntry, Set, Walk, MarkIndex, UnmapPlace;
    EmptyWalk(u.ram);
    MissingTable(u.ram, p);
    assert p[..1][..0] == [];
    AbsentEntry(u.ram, p[..1], 1);
  }

  /** The last part of the loop body, for a page that may be removed. */
  lemma RemovalStep(u: World, p: seq<nat>, t: nat)
    requires Inv(u) && IsPage(p) && p != WINDOW && Removable(u, p) && Walk(u.ram, p[..3]) == Some(t)
    ensures var b, ram := MarkIndex(LeafEntry(u.ram, p)), Set(u.ram, t, p[3], 0);
      && b < |u.used| == FRAMES && MarkPlace(Set(ram, 5, 0, t * PAGE_SIZE + 3), b) == Mark(b)
      && UnmapPage(u, p) == SetWindow(World(ram, u.used[b := false], u.owner - {b}), 0)
  {
    hide Inv, LeafEntry, Set, Walk, MarkIndex, Removable, UnmapPage, MarkPlace;
    InvShape(u);
    ShapeSize(u);
    RemovableInside(u, p);
    UnmapInside(u, p, t);
  }

  /** With table k open in the window, the next entry down can be read there. */
  lemma OpenTable(u: World, p: seq<nat>, k: nat)
    requires Inv(u) && IsPage(p) && p != WINDOW && 1 <= k <= 3 && Walk(u.ram, p[..k]).Some?
    ensures var t := Walk(u.ram, p[..k]).value;
      && t < FRAMES && Get(Set(u.ram, 5, 0, t * PAGE_SIZE + 3), 5, 0) == t * PAGE_SIZE + 3
      && Get(Set(u.ram, 5, 0, t * PAGE_SIZE + 3), t, p[k]) == Get(u.ram, t, p[k])
    ensures k < 3 ==> (Walk(u.ram, p[..k + 1]).Some? <==> Present(Get(u.ram, Walk(u.ram, p[..k]).value, p[k])))
    ensures k == 3 ==> LeafEntry(u.ram, p) == Get(u.ram, Walk(u.ram, p[..3]).value, p[3])
                       && (Walk(u.ram, p[..3]).value != 5 || p[3] != 0)
  {
    hide Inv, Walk, LeafEntry, Get, Set, Shape, IsTable, SetWindow;
    TableAt(u, p[..k]);
    SlotHolds(u, Walk(u.ram, p[..k]).value);
    if k < 3 {
      assert p[..k + 1][..k] == p[..k];
      AbsentEntry(u.ram, p[..k + 1], Walk(u.ram, p[..k]).value);
    } else {
      NotTheSlot(u, p);
      LeafIsEntry(u.ram, Walk(u.ram, p[..3]).value, p);
    }
    OtherSlot(u.ram, Walk(u.ram, p[..k]).value, p[k], Walk(u.ram, p[..k]).value * PAGE_SIZE + 3);
  }

  lemma ClearKeepsFrame(e: nat)
    ensures ClearLowNine(e) / PAGE_SIZE == e / PAGE_SIZE && MarkIndex(ClearLowNine(e)) == MarkIndex(e)
  {
    var q, r := e / PAGE_SIZE, e % PAGE_SIZE;
    Quotient(e, 8 * q + r / 0x200, r % 0x200, 0x200);
    Quotient(ClearLowNine(e), q, r - r % 0x200, PAGE_SIZE);
  }

  lemma ClearedShape(u: World, s: World, t: nat, i: nat, d: nat, f: nat)
    requires Inv(u) && s.ram == Set(Set(u.ram, 5, 0, d), t, i, 0)
    requires f < |u.used| && s.used == u.used[f := false]
    ensures Shape(s)
  {
    hide Walk, LeafEntry, WalksAreTables, TablesAreWalked, LeavesAreMapped, EntriesArePresent, LowMapping, PointersAreClean;
  }

  lemma UmapvTurn(u: World, virt: nat, i: nat, n: nat)
    requires Inv(u) && i < n && AvoidsWindow(virt, n) && n <= LOOP_PAGES && AllRemovable(u, virt, n)
    ensures var w := UnmapPages(u, virt, i);
      PageAt(virt, i) != WINDOW && Inv(w) && Removable(w, PageAt(virt, i))
  {
    hide Inv, PageAt, Walk, RangeUnmapped, UnmapPages, Removable, AvoidsWindow;
    SubRange(virt, i, n);
    InsideRange(virt, i, n);
    UnmapPagesInv(u, virt, i);
    StillRemovable(u, UnmapPages(u, virt, i), virt, i + 1);
  }

  lemma UmapvNext(u: World, virt: nat, i: nat)
    ensures UnmapPages(u, virt, i + 1) == UnmapPage(UnmapPages(u, virt, i), PageOf((virt + i * PAGE_SIZE) % WORD_LIMIT))
    ensures PageAt(virt, i) == PageOf((virt + i * PAGE_SIZE) % WORD_LIMIT)
  {
    hide UnmapPage, PageOf;
  }

  lemma MapvTurn(u: World, virt: nat, i: nat, n: nat, flags: nat)
    requires Inv(u) && GoodFlags(flags) && i < n && AvoidsWindow(virt, n)
    requires FreeCount(u.used) >= n + TablesMade(u, virt, n, flags)
    ensures var w := MapPages(u, virt, i, flags);
      PageAt(virt, i) != WINDOW && FreeCount(w.used) > Missing(w.ram, PageAt(virt, i), 3)
  {
    hide Inv, FreeCount, Missing, MapPages, TablesMade, PageAt, Walk, Grows, RangeMapped, AvoidsWindow;
    TablesMonotone(u, virt, i + 1, n, flags);
    SubRange(virt, i, n);
    InsideRange(virt, i, n);
    MapPagesInv(u, virt, i, flags);
  }

  lemma SubRange(virt: nat, i: nat, n: nat)
    requires i <= n && AvoidsWindow(virt, n)
    ensures AvoidsWindow(virt, i)
  {
    hide PageAt;
  }

  lemma InsideRange(virt: nat, i: nat, n: nat)
    requires i < n && AvoidsWindow(virt, n)
    ensures PageAt(virt, i) != WINDOW
  {
    hide PageAt;
    assert InRange(PageAt(virt, i), virt, n);
  }

  lemma {:induction false} TablesMonotone(u: World, virt: nat, i: nat, n: nat, flags: nat)
    requires i <= n
    ensures TablesMade(u, virt, i, flags) <= TablesMade(u, virt, n, flags)
    ensures i > 0 ==> TablesMade(u, virt, i, flags) == TablesMade(u, virt, i - 1, flags)
                        + Missing(MapPages(u, virt, i - 1, flags).ram, PageAt(virt, i - 1), 3)
    decreases n - i
  {
    hide Missing, MapPages, PageAt;
    if i < n {
      TablesMonotone(u, virt, i + 1, n, flags);
    }
  }

  lemma MapvNext(u: World, virt: nat, i: nat, flags: nat)
    ensures MapPages(u, virt, i + 1, flags)
         == MapPage(MapPages(u, virt, i, flags), PageOf((virt + i * PAGE_SIZE) % WORD_LIMIT), flags)
    ensures PageAt(virt, i) == PageOf((virt + i * PAGE_SIZE) % WORD_LIMIT)
  {
    hide MapPage, PageOf;
  }

  /** Where the loop body of `page_mapvp` stands once the page table exists. */
  lemma MapvpMidway(u: World, s: World, p: seq<nat>, e: nat, flags: nat)
    requires Inv(u) && Inv(s) && IsPage(p) && GoodFlags(flags) && p != WINDOW
    requires Alike(s, EnsurePath(u, p, 3, flags)) && FreeCount(u.used) >= Missing(u.ram, p, 3)
    ensures Walk(s.ram, p[..3]).Some? && Shape(s)
    ensures var t := Walk(s.ram, p[..3]).value;
      && t < FRAMES && (t != 5 || p[3] != 0)
      && MapPhysPage(u, p, e, flags) == if Get(s.ram, t, p[3]) != 0 then SetWindow(s, 0)
           else SetWindow(s.(ram := Set(s.ram, t, p[3], e)), 0)
  {
    hide Inv, Walk, LeafEntry, FreeCount, EnsurePath, Grows, SameLeaves, OnlyTablesAdded, Missing, Shape, IsTable, Get, Set;
    PathDone(u, s, p, flags);
    var t, w3 := Walk(s.ram, p[..3]).value, EnsurePath(u, p, 3, flags);
    AlikeStored(s, w3, t, p[3], e);
  }

  lemma AlikeStored(a: World, b: World, t: nat, i: nat, e: nat)
    requires Alike(a, b) && (t != 5 || i != 0)
    ensures Set(Set(a.ram, t, i, e), 5, 0, 0) == Set(Set(b.ram, t, i, e), 5, 0, 0)
    ensures a.used == b.used && a.owner == b.owner && SetWindow(a, 0) == SetWindow(b, 0)
  {
    hide Set;
    SetCommutes(a.ram, t, i, 0, e);
    SetCommutes(b.ram, t, i, 0, e);
  }

  lemma MapvpTurn(u: World, virt: nat, phys: nat, i: nat, n: nat, flags: nat)
    requires Inv(u) && GoodFlags(flags) && i < n && AvoidsWindow(virt, n)
    requires FreeCount(u.used) >= PhysTablesMade(u, virt, phys, n, flags)
    ensures var w := MapPhysPages(u, virt, phys, i, flags);
      PageAt(virt, i) != WINDOW && FreeCount(w.used) >= Missing(w.ram, PageAt(virt, i), 3)
  {
    hide Inv, FreeCount, Missing, MapPhysPages, PhysTablesMade, PageAt, Walk, Grows, PhysRangeMapped, OnlyTablesAdded, AvoidsWindow;
    PhysTablesMonotone(u, virt, phys, i + 1, n, flags);
    PhysTablesMonotone(u, virt, phys, i, n, flags);
    SubRange(virt, i, n);
    InsideRange(virt, i, n);
    MapPhysPagesInv(u, virt, phys, i, flags);
  }

  lemma {:induction false} PhysTablesMonotone(u: World, virt: nat, phys: nat, i: nat, n: nat, flags: nat)
    requires i <= n
    ensures PhysTablesMade(u, virt, phys, i, flags) <= PhysTablesMade(u, virt, phys, n, flags)
    ensures i > 0 ==> PhysTablesMade(u, virt, phys, i, flags) == PhysTablesMade(u, virt, phys, i - 1, flags)
                        + Missing(MapPhysPages(u, virt, phys, i - 1, flags).ram, PageAt(virt, i - 1), 3)
    decreases n - i
  {
    hide Missing, MapPhysPages, PageAt;
    if i < n {
      PhysTablesMonotone(u, virt, phys, i + 1, n, flags);
    }
  }

  lemma MapvpNext(u: World, virt: nat, phys: nat, i: nat, flags: nat)
    ensures MapPhysPages(u, virt, phys, i + 1, flags)
         == MapPhysPage(MapPhysPages(u, virt, phys, i, flags), PageOf((virt + i * PAGE_SIZE) % WORD_LIMIT),
                        BitOr((phys + i * PAGE_SIZE) % WORD_LIMIT, flags), flags)
    ensures PageAt(virt, i) == PageOf((virt + i * PAGE_SIZE) % WORD_LIMIT)
  {
    hide MapPhysPage, PageOf, BitOr;
  }

  lemma AllocStart(u: World, f: nat)
    requires Inv(u) && f == FirstFree(u.used) && FreeCount(u.used) > Missing(u.ram, Ident(f), 3)
    ensures f < FRAMES && IsPage(Ident(f)) && Ident(f) != WINDOW && FreeCount(u.used) > 0
    ensures var c := Claim(u, Claimed); Inv(c) && FreeCount(c.used) >= Missing(c.ram, Ident(f), 3)
  {
    hide Inv, Walk, FreeCount, Missing, Claim, Grows, SameLeaves, Ident, FirstFree;
    FreeCountPositive(u.used);
    InvShape(u);
    ShapeSize(u);
    IdentPage(f);
    ClaimInv(u);
    MissingSame(u.ram, Claim(u, Claimed).ram, Ident(f), 3);
  }

  lemma AllocMidway(u: World, s: World, flags: nat)
    requires Inv(u) && Inv(s) && GoodFlags(flags) && FreeCount(u.used) > Missing(u.ram, Ident(FirstFree(u.used)), 3)
    requires Alike(s, EnsurePath(Claim(u, Claimed), Ident(FirstFree(u.used)), 3, flags))
    ensures var f := FirstFree(u.used);
      Walk(s.ram, Ident(f)[..3]).Some? && Shape(s)
    ensures var f := FirstFree(u.used);
      var p := Ident(f);
      var t := Walk(s.ram, p[..3]).value;
      && t < FRAMES && (t != 5 || p[3] != 0)
      && Alloc4K(u, flags)
         == SetWindow(s.(ram := Set(s.ram, t, p[3], f * PAGE_SIZE + flags), owner := s.owner[f := Leaf(p)]), 0)
  {
    hide Inv, Walk, LeafEntry, FreeCount, EnsurePath, Grows, SameLeaves, OnlyTablesAdded, Missing, Shape, IsTable, Get, Set,
      Claim, FirstFree, Ident;
    var f := FirstFree(u.used);
    var p, c := Ident(f), Claim(u, Claimed);
    AllocStart(u, f);
    PathDone(c, s, p, flags);
    var t, w3 := Walk(s.ram, p[..3]).value, EnsurePath(c, p, 3, flags);
    AlikeStored(s, w3, t, p[3], f * PAGE_SIZE + flags);
  }

  lemma AlikeBoth(a: World, b: World)
    requires Set(a.ram, 5, 0, 0) == Set(b.ram, 5, 0, 0) && a.used == b.used && a.owner == b.owner
    ensures Alike(a, b)
  {
  }

  lemma PathDone(u: World, s: World, p: seq<nat>, flags: nat)
    requires Inv(u) && Inv(s) && IsPage(p) && GoodFlags(flags) && p != WINDOW
    requires Alike(s, EnsurePath(u, p, 3, flags)) && FreeCount(u.used) >= Missing(u.ram, p, 3)
    ensures var w3 := EnsurePath(u, p, 3, flags);
      && Inv(w3) && Shape(w3) && Shape(s) && s.used == w3.used && s.owner == w3.owner && w3.used[5]
      && Walk(w3.ram, p[..3]).Some? && Walk(s.ram, p[..3]) == Walk(w3.ram, p[..3])
      && FreeCount(s.used) == FreeCount(u.used) - Missing(u.ram, p, 3)
      && LeafEntry(s.ram, p) == LeafEntry(w3.ram, p)
      && var t := Walk(s.ram, p[..3]).value;
         t < FRAMES && IsTable(s, t) && (t != 5 || p[3] != 0) && LeafEntry(s.ram, p) == Get(s.ram, t, p[3])
  {
    hide Inv, Walk, LeafEntry, FreeCount, EnsurePath, Grows, SameLeaves, OnlyTablesAdded, Missing, Shape, IsTable, Get;
    EnsurePathInv(u, p, 3, flags);
    LowFacts(EnsurePath(u, p, 3, flags));
    InvShape(s);
    AlikeInv(s, EnsurePath(u, p, 3, flags));
    AlikeUsed(s, EnsurePath(u, p, 3, flags));
    SameLeavesAt(EnsurePath(u, p, 3, flags).ram, s.ram, p);
    TableAt(s, p[..3]);
    LeafIsEntry(s.ram, Walk(s.ram, p[..3]).value, p);
    NotTheSlot(s, p);
  }

  lemma NotTheSlot(s: World, p: seq<nat>)
    requires Inv(s) && IsPage(p) && p != WINDOW && Walk(s.ram, p[..3]).Some?
    ensures Walk(s.ram, p[..3]).value != 5 || p[3] != 0
  {
    hide Walk, LeafEntry, TablesAreWalked, LeavesAreMapped, EntriesArePresent, PointersAreClean;
    LowTables(s.ram, s.owner);
    TableAt(s, p[..3]);
    assert p == p[..3] + [p[3]];
  }

  /** Where the loop body of `page_mapv` stands after it has claimed the page's frame. */
  lemma MapvMidway(u: World, s: World, p: seq<nat>, flags: nat)
    requires Inv(u) && Inv(s) && IsPage(p) && GoodFlags(flags) && p != WINDOW
    requires Alike(s, EnsurePath(u, p, 3, flags)) && FreeCount(u.used) > Missing(u.ram, p, 3)
    ensures Walk(s.ram, p[..3]).Some? && FreeCount(s.used) > 0
    ensures var w4, t, f := Claim(s, Claimed), Walk(s.ram, p[..3]).value, FirstFree(s.used);
      && t < FRAMES && f < FRAMES && (t != 5 || p[3] != 0)
      && Shape(w4) && Set(w4.ram, 5, 0, 0) == w4.ram
      && LeafEntry(w4.ram, p) == Get(w4.ram, t, p[3])
      && MapPage(u, p, flags) == if Get(w4.ram, t, p[3]) != 0 then SetWindow(w4, t * PAGE_SIZE + 3)
           else w4.(ram := Set(w4.ram, t, p[3], f * PAGE_SIZE + flags), owner := w4.owner[f := Leaf(p)])
  {
    hide Inv, Walk, LeafEntry, FreeCount, EnsurePath, Grows, SameLeaves, OnlyTablesAdded, Missing, Shape, IsTable, Get, Claim,
      Set, FirstFree, Alike;
    PathDone(u, s, p, flags);
    ClaimAlike(s, EnsurePath(u, p, 3, flags), Claimed);
    ClaimInv(s);
    InvShape(Claim(s, Claimed));
    SlotIsClear(s);
    FreeCountPositive(s.used);
    ShapeSize(s);
    LeafIsEntry(Claim(s, Claimed).ram, Walk(s.ram, p[..3]).value, p);
  }

  lemma MapPageValid(u: World, p: seq<nat>, flags: nat)
    requires Inv(u) && IsPage(p) && p != WINDOW && GoodFlags(flags) && FreeCount(u.used) > Missing(u.ram, p, 3)
    ensures Inv(MapPage(u, p, flags))
  {
    hide *;
    MapPageInv(u, p, flags);
  }

  lemma ShapeSize(s: World)
    requires Shape(s)
    ensures |s.used| == FRAMES
  {
  }

  /** Storing through the window and then unmapping it is storing directly, when the slot was clear. */
  lemma StoreThenClose(w: World, t: nat, i: nat, e: nat, d: nat)
    requires (t != 5 || i != 0) && Set(w.ram, 5, 0, 0) == w.ram
    ensures Set(Set(Set(w.ram, 5, 0, d), t, i, e), 5, 0, 0) == Set(w.ram, t, i, e)
    ensures Set(Set(w.ram, t, i, e), 5, 0, 0) == Set(w.ram, t, i, e)
  {
    hide Set;
    SetCommutes(w.ram, t, i, d, e);
    SetTwice(Set(w.ram, t, i, e), d, 0);
    SetCommutes(w.ram, t, i, 0, e);
  }

  lemma PathStart(u: World, p: seq<nat>, flags: nat)
    requires Inv(u) && IsPage(p) && FreeCount(u.used) >= Missing(u.ram, p, 3)
    ensures EnsurePath(u, p, 1, flags) == EnsureTable(u, p[..1], flags) && IsPath(p[..1], 3)
    ensures Walk(u.ram, p[..1]).None? ==> FreeCount(u.used) > 0
  {
    hide Inv, Walk, FreeCount, EnsureTable;
    MissingMonotone(u.ram, p, 1, 3);
  }

  lemma PathReached(u: World, s: World, p: seq<nat>, k: nat, flags: nat)
    requires Inv(u) && Inv(s) && IsPage(p) && 1 <= k < 3 && GoodFlags(flags)
    requires Alike(s, EnsurePath(u, p, k, flags)) && FreeCount(u.used) >= Missing(u.ram, p, 3)
    ensures Walk(s.ram, p[..k]).Some? && p[..k + 1][..k] == p[..k] && IsPath(p[..k + 1], 3)
    ensures Walk(s.ram, p[..k + 1]).None? ==> FreeCount(s.used) > 0
  {
    hide Inv, Walk, FreeCount, EnsurePath, EnsureTable, Grows, SameLeaves, OnlyTablesAdded, Shape;
    MissingMonotone(u.ram, p, k, 3);
    MissingMonotone(u.ram, p, k + 1, 3);
    EnsurePathInv(u, p, k, flags);
    InvShape(s);
    AlikeInv(s, EnsurePath(u, p, k, flags));
    assert !(p[..k + 1] <= p[..k]);
    assert IsPath(p[..k], 3) && IsPath(p[..k + 1], 3);
  }

  lemma {:induction false} MissingMonotone(ram: Ram, p: seq<nat>, j: nat, k: nat)
    requires |p| == 4 && j <= k <= 3
    ensures Missing(ram, p, j) <= Missing(ram, p, k)
  {
    hide Walk;
    if j < k {
      MissingMonotone(ram, p, j, k - 1);
    }
  }

  lemma PathExtended(u: World, s: World, s': World, p: seq<nat>, k: nat, flags: nat)
    requires Inv(u) && Inv(s) && IsPage(p) && 1 <= k < 3 && GoodFlags(flags)
    requires Alike(s, EnsurePath(u, p, k, flags)) && FreeCount(u.used) >= Missing(u.ram, p, 3)
    requires Alike(s', EnsureTable(s, p[..k + 1], flags))
    ensures Alike(s', EnsurePath(u, p, k + 1, flags))
  {
    hide Inv, Walk, FreeCount, EnsureTable, Grows, SameLeaves, OnlyTablesAdded, SetWindow;
    PathReached(u, s, p, k, flags);
    MissingMonotone(u.ram, p, k, 3);
    EnsurePathInv(u, p, k, flags);
    AlikeEnsure(s, EnsurePath(u, p, k, flags), p[..k + 1], flags);
  }

  /** Creating a table does not depend on the slot either. */
  lemma AlikeEnsure(a: World, b: World, x: seq<nat>, flags: nat)
    requires Inv(a) && Inv(b) && Alike(a, b) && IsPath(x, 3) && |x| > 0
    requires Walk(a.ram, x).None? ==> FreeCount(a.used) > 0
    ensures Alike(EnsureTable(a, x, flags), EnsureTable(b, x, flags))
  {
    hide Inv, Walk, FreeCount, Claim, SameLeaves, Shape, Set, FirstFree, IsPath, Alike;
    InvShape(a);
    LowFacts(b);
    AlikeInv(a, b);
    SubPath(x);
    if Walk(a.ram, x).None? {
      assert a.used == b.used by { AlikeUsed(a, b); }
      ClaimAlike(a, b, Table(x));
      EnsureFromClaim(a, b, x, flags);
    }
  }

  lemma SubPath(x: seq<nat>)
    requires IsPath(x, 3) && |x| > 0
    ensures IsPath(x[..|x| - 1], 3)
  {
  }

  lemma AlikeUsed(a: World, b: World)
    requires Alike(a, b)
    ensures a.used == b.used && a.owner == b.owner
  {
  }

  lemma EnsureFromClaim(a: World, b: World, x: seq<nat>, flags: nat)
    requires |x| > 0 && Alike(a, b) && a.used == b.used && Claim(a, Table(x)) == Claim(b, Table(x))
    requires Walk(a.ram, x) == Walk(b.ram, x) && Walk(a.ram, x[..|x| - 1]) == Walk(b.ram, x[..|x| - 1])
    ensures Alike(EnsureTable(a, x, flags), EnsureTable(b, x, flags))
  {
    hide Walk, Claim, Set, FirstFree;
  }

  lemma EmptyWalk(ram: Ram)
    ensures Walk(ram, []) == Some(ROOT)
  {
  }

  lemma SlotIsClear(w: World)
    requires Inv(w) && FreeCount(w.used) > 0
    ensures var c := Claim(w, Claimed); Set(c.ram, 5, 0, 0) == c.ram
  {
    LowFacts(w);
    ClaimFacts(w, Claimed);
    SameSlot(Claim(w, Claimed).ram);
  }

  lemma SetShape(w: World, e: nat)
    requires Shape(w)
    ensures Shape(SetWindow(w, e))
  {
  }

  lemma StoredShape(w: World, w': World, t: nat, i: nat, e: nat)
    requires Shape(w) && w'.ram == Set(w.ram, t, i, e) && w'.used == w.used
    ensures Shape(w')
  {
  }

  lemma StoredSlot(w: World, t: nat, i: nat, e: nat)
    requires Shape(w) && t != 5
    ensures Get(Set(Set(w.ram, 5, 0, t * PAGE_SIZE + 3), t, i, e), 5, 0) == t * PAGE_SIZE + 3
  {
  }

  lemma OtherSlot(ram: Ram, t: nat, i: nat, e: nat)
    requires t != 5 || i != 0
    ensures Get(Set(ram, 5, 0, e), t, i) == Get(ram, t, i)
  {
  }

  lemma EnsureNothing(w: World, x: seq<nat>, flags: nat)
    requires |x| > 0 && Walk(w.ram, x).Some?
    ensures EnsureTable(w, x, flags) == w && Alike(w, w)
  {
  }

  lemma EnsuredAlike(u: World, s: World, x: seq<nat>, flags: nat)
    requires |x| > 0 && IsPath(x, 3) && EnsuredTable(u, EnsureTable(u, x, flags), x)
    requires Alike(s, EnsureTable(u, x, flags)) && Shape(s)
    ensures Inv(s) && Walk(s.ram, x).Some?
    ensures forall y :: IsPath(y, 3) && y != x ==> Walk(s.ram, y) == Walk(u.ram, y)
  {
    hide Inv, Alike, EnsureTable, Walk, Grows, SameLeaves, FreeCount, OnlyTablesAdded;
    AlikeInv(s, EnsureTable(u, x, flags));
  }

  lemma SlotHolds(w: World, e: nat)
    requires Shape(w)
    ensures Get(Set(w.ram, 5, 0, e * PAGE_SIZE + 3), 5, 0) == e * PAGE_SIZE + 3
  {
  }

  /** Mapping, clearing and unmapping the frame under the window is what `Claim` does in one go. */
  lemma ClaimedThroughWindow(w: World, f: nat)
    requires Shape(w) && f == FirstFree(w.used) && f < FRAMES && f != 5
    ensures World(Set(Set(w.ram, 5, 0, f * PAGE_SIZE + 3)[f := Zeros()], 5, 0, 0), w.used[f := true], w.owner[f := Claimed])
         == Claim(w, Claimed)
  {
    ClearedAlike(Set(w.ram, 5, 0, f * PAGE_SIZE + 3), f);
    SetTwice(w.ram, f * PAGE_SIZE + 3, 0);
    ClearedAlike(w.ram, f);
  }

  lemma ByteMarks(bytes: seq<bv8>, i: nat, j: nat)
    requires i < |bytes| && j <= 8 && forall k :: 0 <= k < j ==> Bit(bytes[i], k)
    ensures forall k :: 8 * i <= k < 8 * i + j ==> Bits(bytes)[k]
  {
    hide Bit;
    forall k | 8 * i <= k < 8 * i + j ensures Bits(bytes)[k] {
      BitAt(bytes, i, k - 8 * i);
    }
  }

  lemma FirstFreeIs(used: seq<bool>, f: nat)
    requires f < |used| && !used[f] && forall k :: 0 <= k < f ==> used[k]
    ensures FirstFree(used) == f
  {
  }

  lemma AllMarked(used: seq<bool>)
    requires forall k :: 0 <= k < |used| ==> used[k]
    ensures FirstFree(used) == |used| && FreeCount(used) == 0
  {
    FreeCountPositive(used);
  }

  lemma ClaimNothing(w: World)
    requires FirstFree(w.used) == |w.used|
    ensures Claim(w, Claimed) == w
  {
  }

  lemma TableFiveOwned(w: World)
    requires Inv(w)
    ensures 5 in w.owner && w.owner[5].Table?
  {
    LowTables(w.ram, w.owner);
  }

  lemma ZeroOne(w: World, a: Ram, b: Ram, f: nat, i: nat)
    requires Shape(w) && f < FRAMES && i < ENTRIES && a == w.ram[f := Zeros()[..i] + w.ram[f][i..]] && b == Set(a, f, i, 0)
    ensures b == w.ram[f := Zeros()[..i + 1] + w.ram[f][i + 1..]]
  {
    assert a[f][i := 0] == Zeros()[..i + 1] + w.ram[f][i + 1..];
  }

  /** Writing to a frame that is no table leaves every walk and translation as it was. */
  lemma DataWrite(w: World, w': World, f: nat)
    requires Inv(w) && f in w.owner && !w.owner[f].Table? && Shape(w')
    requires w'.used == w.used && w'.owner == w.owner && forall g :: 0 <= g < FRAMES && g != f ==> w'.ram[g] == w.ram[g]
    ensures Inv(w')
  {
    hide Walk, LeafEntry, CleanEntry;
    LowTables(w.ram, w.owner);
    assert SameBut(w.ram, w'.ram, f, 5, 0);
    forall x | IsPath(x, 3) ensures Walk(w'.ram, x) == Walk(w.ram, x) {
      QuietWalk(w.ram, w'.ram, w.owner, f, 5, 0, x);
    }
    forall p | IsPage(p) && p != WINDOW ensures LeafEntry(w'.ram, p) == LeafEntry(w.ram, p) {
      QuietLeaf(w.ram, w'.ram, w.owner, f, 5, 0, p);
    }
    SameLeavesPresent(w.ram, w'.ram);
    LeafWriteTables(w, w');
    PointersKept(w.ram, w'.ram, w.owner, w'.owner, f, 5, 0);
  }
}

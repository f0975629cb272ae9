/** The four-level page tables as a radix tree stored in physical frames, and the invariant that keeps it one. */
module PageTables {
  import opened Words

  datatype Option<T> = None | Some(value: T)

  /** Physical memory: one row of 512 words per 4 KiB frame. */
  type Ram = seq<seq<nat>>

  const FRAMES: nat := 0x8000        // 0x1000 bitmap bytes, eight frames each
  const ENTRIES: nat := 512
  const ROOT: nat := 1               // frame of PMLT4_ADDRESS
  const WINDOW_TABLE: nat := 5       // frame of FRAME_PT_ADDRESS
  const WINDOW: seq<nat> := [0, 0, 511, 0]  // PAGE_ADDRESS(0, 0, 511, 0)

  /** What a frame marked in the bitmap is being used for. */
  datatype Owner =
    | Table(path: seq<nat>)          // a page table, reached by these indices from the root
    | Leaf(page: seq<nat>)           // the memory behind one virtual page
    | Claimed                        // handed out or reserved, not mapped by this ledger

  /** Physical memory, the frame bitmap, and the ledger of what each marked frame is for.
      The ledger exists for the proofs only: neither other field ever depends on it. */
  datatype World = World(ram: Ram, used: seq<bool>, owner: map<nat, Owner>)

  predicate IsPath(x: seq<nat>, n: nat) {
    |x| <= n && forall k :: 0 <= k < |x| ==> x[k] < ENTRIES
  }

  /** A virtual page, named by its four table indices. */
  predicate IsPage(p: seq<nat>) {
    |p| == 4 && IsPath(p, 4)
  }

  /** The four table indices of a virtual address. */
  function PageOf(x: nat): (p: seq<nat>)
    ensures IsPage(p)
  {
    [x / 0x80_0000_0000 % ENTRIES, x / 0x4000_0000 % ENTRIES, x / 0x20_0000 % ENTRIES, x / PAGE_SIZE % ENTRIES]
  }

  predicate Present(e: nat) {
    e % 2 == 1
  }

  /** Bits 12 to 51 of an entry, as the processor reads them. */
  function FrameOf(e: nat): nat {
    e / PAGE_SIZE % 0x100_0000_0000
  }

  function Child(e: nat): Option<nat> {
    if Present(e) then Some(FrameOf(e)) else None
  }

  function Get(ram: Ram, t: nat, i: nat): nat {
    if t < |ram| && i < |ram[t]| then ram[t][i] else 0
  }

  function Set(ram: Ram, t: nat, i: nat, e: nat): Ram {
    if t < |ram| && i < |ram[t]| then
      var row: seq<nat> := ram[t][i := e];
      ram[t := row]
    else ram
  }

  /** The processor's walk: the frame reached from the root through these indices, if every entry is present. */
  function Walk(ram: Ram, x: seq<nat>): Option<nat>
    decreases |x|
  {
    if x == [] then Some(ROOT) else
    match Walk(ram, x[..|x| - 1])
    case None => None
    case Some(t) => Child(Get(ram, t, x[|x| - 1]))
  }

  /** The last-level entry of a page; 0 when some table on the way is missing. */
  function LeafEntry(ram: Ram, p: seq<nat>): nat
    requires |p| > 0
  {
    match Walk(ram, p[..|p| - 1])
    case None => 0
    case Some(t) => Get(ram, t, p[|p| - 1])
  }

  /** Bit 7 of an entry. In a table of the upper three levels it does not lead to a table: it makes the entry
      map a large page, or at the top level is reserved. */
  predicate LargeBit(e: nat) {
    e / 0x80 % 2 == 1
  }

  /** Flags that fit below the address, contain PRESENT, and leave bit 7 clear: `page_mapv` and the other
      operations store the same flags in every table they create and in the last entry. */
  predicate GoodFlags(flags: nat) {
    flags < 0x200 && flags % 2 == 1 && !LargeBit(flags)
  }

  lemma EntryParts(f: nat, flags: nat)
    requires f < FRAMES && GoodFlags(flags)
    ensures Present(f * PAGE_SIZE + flags) && FrameOf(f * PAGE_SIZE + flags) == f
    ensures (f * PAGE_SIZE + flags) / PAGE_SIZE == f && CleanEntry(f * PAGE_SIZE + flags)
  {
    AddressAndFlags(f, flags);
  }

  /** The low bits of an entry are its flags, the rest its frame. */
  lemma AddressAndFlags(f: nat, flags: nat)
    requires f < FRAMES && flags < 0x200
    ensures var e := f * PAGE_SIZE + flags;
      && e / PAGE_SIZE == f && e % PAGE_SIZE == flags && FrameOf(e) == f
      && (Present(e) <==> Present(flags)) && (LargeBit(e) <==> LargeBit(flags))
  {
    var e, b := f * PAGE_SIZE + flags, flags / 0x80;
    Quotient(e, f, flags, PAGE_SIZE);
    Quotient(e, 0x800 * f + flags / 2, flags % 2, 2);
    Quotient(e, 0x20 * f + b, flags % 0x80, 0x80);
    Quotient(0x20 * f + b, 0x10 * f + b / 2, b % 2, 2);
  }

  /** The frame number is bits 12 to 51, whatever stands above and below. */
  lemma FrameBits(high: nat, f: nat, low: nat)
    requires f < 0x100_0000_0000 && low < 0x1000
    ensures FrameOf(high * 0x10_0000_0000_0000 + f * 0x1000 + low) == f
  {
    var e := high * 0x10_0000_0000_0000 + f * 0x1000 + low;
    Quotient(e, high * 0x100_0000_0000 + f, low, 0x1000);
    Quotient(high * 0x100_0000_0000 + f, high, f, 0x100_0000_0000);
  }

  // ---------------------------------------------------------------- invariant

  ghost predicate Shape(w: World) {
    && |w.ram| == FRAMES && |w.used| == FRAMES
    && (forall f :: 0 <= f < FRAMES ==> |w.ram[f]| == ENTRIES)
  }

  /** The entries through which the kernel reaches its own tables: the first page table maps frames 1, 5
      and 6 at their own addresses, and the directory's last entry is the window's page table. */
  predicate LowMapping(ram: Ram) {
    && Get(ram, 1, 0) == 0x2003 && Get(ram, 2, 0) == 0x3003 && Get(ram, 3, 0) == 0x4003
    && Get(ram, 3, 511) == 0x5003
    && Get(ram, 4, 1) == 0x1003 && Get(ram, 4, 5) == 0x5003 && Get(ram, 4, 6) == 0x6003
  }

  /** The ledger names exactly the marked frames. */
  ghost predicate OwnedAreMarked(w: World) {
    && (forall f :: f in w.owner ==> f < |w.used| && w.used[f])
    && (forall f :: 0 <= f < |w.used| && w.used[f] ==> f in w.owner)
  }

  /** Every walk of at most three steps ends in a frame registered for exactly that path. */
  ghost predicate WalksAreTables(ram: Ram, owner: map<nat, Owner>) {
    forall x :: IsPath(x, 3) && Walk(ram, x).Some? ==>
      Walk(ram, x).value in owner && owner[Walk(ram, x).value] == Table(x)
  }

  ghost predicate TablesAreWalked(ram: Ram, owner: map<nat, Owner>) {
    forall f :: f in owner && owner[f].Table? ==>
      IsPath(owner[f].path, 3) && Walk(ram, owner[f].path) == Some(f)
  }

  /** A present entry of an upper table is the address of a frame plus flags below 0x200, bit 7 clear. */
  predicate CleanEntry(e: nat) {
    Present(e) ==> e % PAGE_SIZE < 0x200 && !LargeBit(e) && e / PAGE_SIZE < FRAMES
  }

  ghost predicate PointersAreClean(ram: Ram, owner: map<nat, Owner>) {
    forall t, i :: t in owner && owner[t].Table? && |owner[t].path| < 3 ==> CleanEntry(Get(ram, t, i))
  }

  ghost predicate LeavesAreMapped(ram: Ram, owner: map<nat, Owner>) {
    forall f :: f in owner && owner[f].Leaf? ==>
      var p := owner[f].page;
      IsPage(p) && p != WINDOW && Present(LeafEntry(ram, p)) && LeafEntry(ram, p) / PAGE_SIZE == f
  }

  ghost predicate EntriesArePresent(ram: Ram) {
    forall p :: IsPage(p) && p != WINDOW && LeafEntry(ram, p) != 0 ==> Present(LeafEntry(ram, p))
  }

  predicate LowFramesTaken(w: World) {
    0 in w.owner && w.owner[0] == Claimed && 6 in w.owner && w.owner[6] == Claimed
  }

  ghost predicate Inv(w: World) {
    && Shape(w) && LowMapping(w.ram) && LowFramesTaken(w)
    && OwnedAreMarked(w)
    && WalksAreTables(w.ram, w.owner) && TablesAreWalked(w.ram, w.owner)
    && PointersAreClean(w.ram, w.owner)
    && LeavesAreMapped(w.ram, w.owner) && EntriesArePresent(w.ram)
  }

  /** The pages whose memory was handed out by `page_mapv` or `page_alloc4K` and not given back. */
  ghost predicate Live(w: World, p: seq<nat>) {
    exists f :: f in w.owner && w.owner[f] == Leaf(p)
  }

  ghost predicate SameLeaves(a: Ram, b: Ram) {
    forall p :: IsPage(p) && p != WINDOW ==> LeafEntry(a, p) == LeafEntry(b, p)
  }

  ghost predicate IsTable(w: World, f: nat) {
    f in w.owner && w.owner[f].Table?
  }

  /** What every mapping operation leaves alone: marks, registrations, and the contents of frames that are not tables. */
  ghost predicate Grows(w: World, w': World) {
    && |w.ram| == |w'.ram| && |w.used| == |w'.used|
    && (forall f :: 0 <= f < |w.used| && w.used[f] ==> w'.used[f])
    && (forall f :: f in w.owner ==> f in w'.owner && w'.owner[f] == w.owner[f])
    && (forall f :: f in w.owner && !w.owner[f].Table? && f < |w.ram| ==> w'.ram[f] == w.ram[f])
  }

  lemma GrowsTransitive(a: World, b: World, c: World)
    requires Grows(a, b) && Grows(b, c)
    ensures Grows(a, c)
  {
  }

  /** The tables form a tree: two different paths never end in the same frame. */
  lemma TablesAreDistinct(w: World, x: seq<nat>, y: seq<nat>)
    requires Inv(w) && IsPath(x, 3) && IsPath(y, 3) && x != y
    requires Walk(w.ram, x).Some? && Walk(w.ram, y).Some?
    ensures Walk(w.ram, x).value != Walk(w.ram, y).value
  {
  }

  lemma LastStep(ram: Ram, p: seq<nat>)
    requires |p| == 4
    ensures Walk(ram, p) == match Walk(ram, p[..3]) case None => None case Some(t) => Child(Get(ram, t, p[3]))
  {
  }

  lemma WalkLast(ram: Ram, x: seq<nat>, t: nat)
    requires |x| > 0 && Walk(ram, x[..|x| - 1]) == Some(t)
    ensures Walk(ram, x) == Child(Get(ram, t, x[|x| - 1]))
  {
  }

  lemma LiveWalk(w: World, p: seq<nat>, f: nat)
    requires Inv(w) && f in w.owner && w.owner[f] == Leaf(p)
    ensures Walk(w.ram, p) == Some(f) && f < FRAMES && w.used[f] && IsPage(p) && p != WINDOW
  {
    hide Walk, Get, WalksAreTables, TablesAreWalked, PointersAreClean, EntriesArePresent, LowMapping;
    assert Present(LeafEntry(w.ram, p)) && LeafEntry(w.ram, p) / PAGE_SIZE == f;
    LastStep(w.ram, p);
  }

  /** Every table frame is marked in the bitmap, and no live page's frame is a table or another live page's frame. */
  lemma LiveFramesApart(w: World, p: seq<nat>, q: seq<nat>, x: seq<nat>)
    requires Inv(w) && IsPath(x, 3) && Walk(w.ram, x).Some? && Live(w, p) && Live(w, q) && p != q
    ensures Walk(w.ram, x).value < FRAMES && w.used[Walk(w.ram, x).value]
    ensures Walk(w.ram, p).Some? && Walk(w.ram, p).value < FRAMES && w.used[Walk(w.ram, p).value]
    ensures Walk(w.ram, p) != Walk(w.ram, x) && Walk(w.ram, p) != Walk(w.ram, q)
  {
    var f :| f in w.owner && w.owner[f] == Leaf(p);
    var g :| g in w.owner && w.owner[g] == Leaf(q);
    LiveWalk(w, p, f);
    LiveWalk(w, q, g);
  }

  // ---------------------------------------------------------------- the processor's own walk

  /** What the processor finds for a page: a missing entry, an upper entry with bit 7 set, or a frame. */
  datatype Translation = Absent | NotATable(entry: nat) | Mapped4K(frame: nat)

  /** One upper level: the table below, unless the entry is absent or has bit 7 set. */
  function Descend(e: nat): Translation {
    if !Present(e) then Absent else if LargeBit(e) then NotATable(e) else Mapped4K(FrameOf(e))
  }

  /** Section 5.3 of the AMD64 Architecture Programmer's Manual, Volume 2: three levels that lead to tables, and a
      last one where bit 7 means something else. */
  function Translate(ram: Ram, p: seq<nat>): Translation
    requires |p| == 4
  {
    var a := Descend(Get(ram, ROOT, p[0]));
    if !a.Mapped4K? then a else
    var b := Descend(Get(ram, a.frame, p[1]));
    if !b.Mapped4K? then b else
    var c := Descend(Get(ram, b.frame, p[2]));
    if !c.Mapped4K? then c else
    var e := Get(ram, c.frame, p[3]);
    if Present(e) then Mapped4K(FrameOf(e)) else Absent
  }

  /** Under the invariant no upper entry has bit 7 set, so the walk used here is the processor's. */
  lemma TranslateIsWalk(w: World, p: seq<nat>)
    requires Inv(w) && IsPage(p)
    ensures Translate(w.ram, p) == match Walk(w.ram, p) case None => Absent case Some(f) => Mapped4K(f)
  {
    hide Inv, Walk, Get, Present, LargeBit, FrameOf;
    assert p[..4] == p;
    WalkStep(w, p, 0);
    WalkStep(w, p, 1);
    WalkStep(w, p, 2);
    LastStep(w.ram, p);
    RootOfWalk(w.ram, p);
  }

  lemma RootOfWalk(ram: Ram, p: seq<nat>)
    ensures Walk(ram, p[..0]) == Some(ROOT)
  {
  }

  lemma WalkStep(w: World, p: seq<nat>, k: nat)
    requires Inv(w) && IsPage(p) && k < 3
    ensures Walk(w.ram, p[..k]).None? ==> Walk(w.ram, p[..k + 1]).None?
    ensures Walk(w.ram, p[..k]).Some? ==>
      Descend(Get(w.ram, Walk(w.ram, p[..k]).value, p[k]))
        == match Walk(w.ram, p[..k + 1]) case None => Absent case Some(t) => Mapped4K(t)
  {
    hide LeafEntry, LeavesAreMapped, EntriesArePresent, TablesAreWalked, Get;
    assert p[..k + 1][..k] == p[..k];
    if Walk(w.ram, p[..k]).Some? {
      assert IsPath(p[..k], 3);
    }
  }

  /** An entry made of a frame's address and present flags below 0x200 leads the processor on to that frame as a
      table exactly when the flags are good. */
  lemma LeadsToTableIff(f: nat, flags: nat)
    requires f < FRAMES && flags < 0x200 && flags % 2 == 1
    ensures Descend(f * PAGE_SIZE + flags) == Mapped4K(f) <==> GoodFlags(flags)
  {
    AddressAndFlags(f, flags);
  }

  // ---------------------------------------------------------------- the frame bitmap

  function FirstFreeFrom(used: seq<bool>, k: nat): (f: nat)
    requires k <= |used|
    ensures k <= f <= |used|
    ensures f < |used| ==> !used[f]
    ensures forall j :: k <= j < f ==> used[j]
    decreases |used| - k
  {
    if k == |used| || !used[k] then k else FirstFreeFrom(used, k + 1)
  }

  /** The lowest unmarked frame, or |used| when all are marked. */
  function FirstFree(used: seq<bool>): nat {
    FirstFreeFrom(used, 0)
  }

  function FreeCount(used: seq<bool>): nat {
    if used == [] then 0 else FreeCount(used[..|used| - 1]) + (if used[|used| - 1] then 0 else 1)
  }

  lemma {:induction false} FreeCountFlip(used: seq<bool>, f: nat)
    requires f < |used| && !used[f]
    ensures FreeCount(used[f := true]) == FreeCount(used) - 1
  {
    var n := |used| - 1;
    if f == n {
      assert used[f := true][..n] == used[..n];
    } else {
      assert used[f := true][..n] == used[..n][f := true];
      FreeCountFlip(used[..n], f);
    }
  }

  lemma {:induction false} FreeCountPositive(used: seq<bool>)
    ensures FreeCount(used) > 0 <==> FirstFree(used) < |used|
  {
    if used != [] {
      var n := |used| - 1;
      FreeCountPositive(used[..n]);
      var f := FirstFree(used[..n]);
      if f < n {
        assert !used[f];
      } else {
        assert forall j :: 0 <= j < n ==> used[..n][j] && used[j];
      }
    }
  }

  /** The frames whose bit is set. */
  function Marked(used: seq<bool>): (s: set<nat>)
    ensures forall f :: f in s <==> 0 <= f < |used| && used[f]
  {
    set f: nat | f < |used| && used[f]
  }

  lemma {:induction false} MarkedCount(used: seq<bool>)
    ensures |Marked(used)| == |used| - FreeCount(used)
  {
    if used == [] {
      assert Marked(used) == {};
    } else {
      var n := |used| - 1;
      MarkedCount(used[..n]);
      assert Marked(used) == if used[n] then Marked(used[..n]) + {n} else Marked(used[..n]);
    }
  }

  // ---------------------------------------------------------------- single steps

  /** A cleared frame. */
  function Zeros(): (z: seq<nat>)
    ensures |z| == ENTRIES && forall i :: 0 <= i < ENTRIES ==> z[i] == 0
  {
    seq(ENTRIES, i => 0)
  }

  /** `page_getframe` when a frame is left: mark it, clear it, and leave the window unmapped.
      When none is left nothing changes (the kernel then returns 2^64 - 1). */
  function Claim(w: World, o: Owner): World {
    var f := FirstFree(w.used);
    if f < |w.used| && f < |w.ram| then
      World(Set(w.ram[f := Zeros()], WINDOW_TABLE, 0, 0), w.used[f := true], w.owner[f := o])
    else w
  }

  /** The window slot pointed at a physical address. */
  function SetWindow(w: World, e: nat): World {
    w.(ram := Set(w.ram, WINDOW_TABLE, 0, e))
  }

  /** Make sure the table at the end of path `x` exists, given that its parent does. */
  function EnsureTable(w: World, x: seq<nat>, flags: nat): World
    requires |x| > 0
  {
    var parent := Walk(w.ram, x[..|x| - 1]);
    if Walk(w.ram, x).Some? || parent.None? then w else
    var w1 := Claim(w, Table(x));
    w1.(ram := Set(w1.ram, parent.value, x[|x| - 1], FirstFree(w.used) * PAGE_SIZE + flags))
  }

  /** The first `k` tables on the way to page `p`. */
  function EnsurePath(w: World, p: seq<nat>, k: nat, flags: nat): World
    requires k <= |p|
  {
    if k == 0 then w else EnsureTable(EnsurePath(w, p, k - 1, flags), p[..k], flags)
  }

  /** How many of the first `k` tables on the way to `p` are missing. */
  function Missing(ram: Ram, p: seq<nat>, k: nat): nat
    requires k <= |p|
  {
    if k == 0 then 0 else Missing(ram, p, k - 1) + (if Walk(ram, p[..k]).None? then 1 else 0)
  }


  // ---------------------------------------------------------------- what one memory update does to walks

  /** Outside frame `f`, entry (t, i) and the window slot, `b` holds what `a` holds. */
  ghost predicate SameBut(a: Ram, b: Ram, f: nat, t: nat, i: nat) {
    forall s, j :: s != f && (s != t || j != i) && (s != WINDOW_TABLE || j != 0) ==> Get(b, s, j) == Get(a, s, j)
  }

  ghost predicate Cleared(b: Ram, f: nat) {
    forall j :: Get(b, f, j) == 0
  }

  /** The tables the boot loader set up, found by walking. */
  lemma LowTables(ram: Ram, owner: map<nat, Owner>)
    requires LowMapping(ram) && WalksAreTables(ram, owner)
    ensures 1 in owner && owner[1] == Table([])
    ensures 2 in owner && owner[2] == Table([0])
    ensures 3 in owner && owner[3] == Table([0, 0])
    ensures 4 in owner && owner[4] == Table([0, 0, 0])
    ensures 5 in owner && owner[5] == Table([0, 0, 511])
    ensures Walk(ram, [0]) == Some(2) && Walk(ram, [0, 0]) == Some(3)
    ensures Walk(ram, [0, 0, 0]) == Some(4) && Walk(ram, [0, 0, 511]) == Some(5)
  {
    var a: seq<nat>, b: seq<nat>, c: seq<nat>, d: seq<nat> := [0], [0, 0], [0, 0, 0], [0, 0, 511];
    assert Child(0x2003) == Some(2) && Child(0x3003) == Some(3) && Child(0x4003) == Some(4) && Child(0x5003) == Some(5);
    assert Walk(ram, []) == Some(1);
    assert a[..0] == [] && Walk(ram, a) == Some(2);
    assert b[..1] == a && Walk(ram, b) == Some(3);
    assert c[..2] == b && Walk(ram, c) == Some(4);
    assert d[..2] == b && Walk(ram, d) == Some(5);
  }

  /** A walk of at most three steps does not see changes to frames that are no tables, to last-level entries,
      or to the window slot. */
  lemma {:induction false} QuietWalk(a: Ram, b: Ram, owner: map<nat, Owner>, f: nat, t: nat, i: nat, x: seq<nat>)
    requires WalksAreTables(a, owner) && SameBut(a, b, f, t, i) && IsPath(x, 3)
    requires 5 in owner && owner[5] == Table([0, 0, 511])
    requires !(f in owner && owner[f].Table?)
    requires t in owner && owner[t].Table? && |owner[t].path| == 3
    ensures Walk(b, x) == Walk(a, x)
    decreases |x|
  {
    if x != [] {
      var y := x[..|x| - 1];
      QuietWalk(a, b, owner, f, t, i, y);
      if Walk(a, y).Some? {
        assert owner[Walk(a, y).value] == Table(y);
      }
    }
  }

  /** Linking the cleared frame `f` as the table of path `x` changes that walk and no other. */
  lemma {:induction false} LinkWalk(a: Ram, b: Ram, owner: map<nat, Owner>, f: nat, t: nat, x: seq<nat>, y: seq<nat>)
    requires WalksAreTables(a, owner) && IsPath(x, 3) && |x| > 0 && SameBut(a, b, f, t, x[|x| - 1])
    requires 5 in owner && owner[5] == Table([0, 0, 511])
    requires f !in owner && Cleared(b, f) && Child(Get(b, t, x[|x| - 1])) == Some(f)
    requires t in owner && owner[t] == Table(x[..|x| - 1])
    requires Walk(a, x[..|x| - 1]) == Some(t) && Walk(a, x).None? && IsPath(y, 3)
    ensures Walk(b, y) == if y == x then Some(f) else Walk(a, y)
    ensures x <= y ==> Walk(a, y).None?
    decreases |y|
  {
    hide WalksAreTables, Child, Get;
    if y != [] {
      var z := y[..|y| - 1];
      LinkWalk(a, b, owner, f, t, x, z);
      assert x <= y ==> y == x || x <= z;
      if z == x {
        EmptyTable(b, f, y);
      } else if Walk(a, z).Some? {
        SameTable(a, owner, t, x[..|x| - 1], z);
        assert z == x[..|x| - 1] ==> (y == x <==> y[|y| - 1] == x[|x| - 1]);
      }
    }
  }

  lemma EmptyTable(b: Ram, f: nat, y: seq<nat>)
    requires |y| > 0 && Walk(b, y[..|y| - 1]) == Some(f) && Cleared(b, f)
    ensures Walk(b, y).None?
  {
  }

  lemma SameTable(a: Ram, owner: map<nat, Owner>, t: nat, x: seq<nat>, z: seq<nat>)
    requires WalksAreTables(a, owner) && IsPath(z, 3) && Walk(a, z).Some?
    requires t in owner && owner[t] == Table(x)
    ensures Walk(a, z).value in owner && owner[Walk(a, z).value] == Table(z)
    ensures Walk(a, z).value == t ==> z == x
  {
  }

  /** The leaf entries read through tables that neither moved nor were written. */
  lemma QuietLeaf(a: Ram, b: Ram, owner: map<nat, Owner>, f: nat, t: nat, i: nat, p: seq<nat>)
    requires WalksAreTables(a, owner) && SameBut(a, b, f, t, i) && IsPage(p) && p != WINDOW
    requires 5 in owner && owner[5] == Table([0, 0, 511])
    requires !(f in owner && owner[f].Table?)
    requires Walk(b, p[..3]) == Walk(a, p[..3])
    requires t in owner && owner[t].Table? && owner[t].path + [i] != p
    ensures LeafEntry(b, p) == LeafEntry(a, p)
  {
    assert p == p[..3] + [p[3]];
    if Walk(a, p[..3]).Some? {
      assert owner[Walk(a, p[..3]).value] == Table(p[..3]);
    }
  }

  // ---------------------------------------------------------------- claiming a frame

  ghost predicate Marks(w: World, w': World, f: nat, o: Owner) {
    && f < FRAMES && f < |w.used| && !w.used[f] && w'.used == w.used[f := true] && w'.owner == w.owner[f := o]
  }

  /** Rows other than these two and the window's table are untouched. */
  ghost predicate RowsKept(a: Ram, b: Ram, f: nat, t: nat)
    requires |a| == |b|
  {
    forall g :: 0 <= g < |a| && g != f && g != t && g != WINDOW_TABLE ==> b[g] == a[g]
  }

  lemma ClaimFacts(w: World, o: Owner)
    requires Shape(w) && FreeCount(w.used) > 0 && w.used[5]
    ensures var w', f := Claim(w, o), FirstFree(w.used);
      && Shape(w) && Shape(w') && Marks(w, w', f, o) && FreeCount(w'.used) == FreeCount(w.used) - 1
      && SameBut(w.ram, w'.ram, f, 5, 0) && Cleared(w'.ram, f) && RowsKept(w.ram, w'.ram, f, 5)
      && Get(w'.ram, 5, 0) == 0 && w'.ram[f] == Zeros()
  {
    FreeCountPositive(w.used);
    FreeCountFlip(w.used, FirstFree(w.used));
  }

  lemma ClaimInv(w: World)
    requires Inv(w) && FreeCount(w.used) > 0
    ensures var w' := Claim(w, Claimed);
      && Inv(w') && Grows(w, w') && SameLeaves(w.ram, w'.ram)
      && FreeCount(w'.used) == FreeCount(w.used) - 1
    ensures forall x :: IsPath(x, 3) ==> Walk(Claim(w, Claimed).ram, x) == Walk(w.ram, x)
  {
    LowTables(w.ram, w.owner);
    ClaimFacts(w, Claimed);
    QuietStep(w, Claim(w, Claimed), FirstFree(w.used));
  }

  lemma QuietStep(w: World, w': World, f: nat)
    requires Inv(w) && Shape(w') && Marks(w, w', f, Claimed)
    requires SameBut(w.ram, w'.ram, f, 5, 0) && RowsKept(w.ram, w'.ram, f, 5)
    ensures Inv(w') && Grows(w, w') && SameLeaves(w.ram, w'.ram)
    ensures forall x :: IsPath(x, 3) ==> Walk(w'.ram, x) == Walk(w.ram, x)
  {
    hide Walk, LeafEntry, CleanEntry, FreeCount, OwnedAreMarked, LowFramesTaken;
    MarksLedger(w, w', f, Claimed);
    LowTables(w.ram, w.owner);
    forall x | IsPath(x, 3) ensures Walk(w'.ram, x) == Walk(w.ram, x) {
      QuietWalk(w.ram, w'.ram, w.owner, f, 5, 0, x);
    }
    forall p | IsPage(p) && p != WINDOW ensures LeafEntry(w'.ram, p) == LeafEntry(w.ram, p) {
      QuietLeaf(w.ram, w'.ram, w.owner, f, 5, 0, p);
    }
    assert EntriesArePresent(w'.ram) by { SameLeavesPresent(w.ram, w'.ram); }
    assert LeavesAreMapped(w'.ram, w'.owner);
    assert PointersAreClean(w'.ram, w'.owner) by { PointersKept(w.ram, w'.ram, w.owner, w'.owner, f, 5, 0); }
  }

  /** Upper tables hold what they held when only other frames or last-level entries change. */
  lemma PointersKept(a: Ram, b: Ram, owner: map<nat, Owner>, owner': map<nat, Owner>, f: nat, t: nat, i: nat)
    requires PointersAreClean(a, owner) && SameBut(a, b, f, t, i)
    requires 5 in owner && owner[5] == Table([0, 0, 511]) && !(f in owner && owner[f].Table?)
    requires t in owner && owner[t].Table? && |owner[t].path| == 3
    requires forall g :: g in owner' && owner'[g].Table? ==> g in owner && owner[g] == owner'[g]
    ensures PointersAreClean(b, owner')
  {
  }

  lemma PointersLinked(a: Ram, b: Ram, owner: map<nat, Owner>, f: nat, t: nat, i: nat, x: seq<nat>)
    requires PointersAreClean(a, owner) && SameBut(a, b, f, t, i) && f !in owner
    requires 5 in owner && owner[5] == Table([0, 0, 511])
    requires Cleared(b, f) && CleanEntry(Get(b, t, i))
    ensures PointersAreClean(b, owner[f := Table(x)])
  {
    assert CleanEntry(0);
  }

  lemma SameLeavesPresent(a: Ram, b: Ram)
    requires SameLeaves(a, b) && EntriesArePresent(a)
    ensures EntriesArePresent(b)
  {
  }

  // ---------------------------------------------------------------- creating one table

  ghost predicate LinkStep(w: World, w': World, f: nat, t: nat, x: seq<nat>) {
    && |x| > 0 && Shape(w) && Shape(w') && Marks(w, w', f, Table(x))
    && FreeCount(w'.used) == FreeCount(w.used) - 1
    && SameBut(w.ram, w'.ram, f, t, x[|x| - 1]) && RowsKept(w.ram, w'.ram, f, t)
    && Cleared(w'.ram, f) && Child(Get(w'.ram, t, x[|x| - 1])) == Some(f)
    && CleanEntry(Get(w'.ram, t, x[|x| - 1]))
  }

  lemma EnsureTableStep(w: World, x: seq<nat>, flags: nat, t: nat)
    requires Shape(w) && IsPath(x, 3) && |x| > 0 && GoodFlags(flags) && FreeCount(w.used) > 0
    requires w.used[5] && t != 5 && t < FRAMES && w.used[t]
    requires Walk(w.ram, x).None? && Walk(w.ram, x[..|x| - 1]) == Some(t)
    ensures LinkStep(w, EnsureTable(w, x, flags), FirstFree(w.used), t, x)
    ensures EnsureTable(w, x, flags).ram[t]
         == w.ram[t][x[|x| - 1] := FirstFree(w.used) * PAGE_SIZE + flags]
  {
    hide Claim, Walk, FreeCount, FirstFree, Zeros, FrameOf, Present, CleanEntry;
    ClaimFacts(w, Table(x));
    EntryParts(FirstFree(w.used), flags);
  }

  lemma {:induction false} LinkStepWalks(w: World, w': World, f: nat, t: nat, x: seq<nat>)
    requires Inv(w) && LinkStep(w, w', f, t, x) && IsPath(x, 3)
    requires Walk(w.ram, x).None? && Walk(w.ram, x[..|x| - 1]) == Some(t)
    ensures forall y :: IsPath(y, 3) ==> Walk(w'.ram, y) == if y == x then Some(f) else Walk(w.ram, y)
  {
    LowTables(w.ram, w.owner);
    forall y | IsPath(y, 3)
      ensures Walk(w'.ram, y) == if y == x then Some(f) else Walk(w.ram, y)
    {
      LinkWalk(w.ram, w'.ram, w.owner, f, t, x, y);
    }
  }

  /** The tables are registered exactly as walked once the walk of `x`, and only that, has become frame `f`. */
  lemma {:induction false} LinkStepTables(a: Ram, b: Ram, owner: map<nat, Owner>, f: nat, x: seq<nat>)
    requires WalksAreTables(a, owner) && TablesAreWalked(a, owner) && f !in owner && IsPath(x, 3)
    requires Walk(a, x).None?
    requires forall y :: IsPath(y, 3) ==> Walk(b, y) == if y == x then Some(f) else Walk(a, y)
    ensures WalksAreTables(b, owner[f := Table(x)]) && TablesAreWalked(b, owner[f := Table(x)])
  {
  }

  lemma SameLeavesMapped(a: Ram, b: Ram, owner: map<nat, Owner>, f: nat, o: Owner)
    requires LeavesAreMapped(a, owner) && SameLeaves(a, b) && f !in owner && !o.Leaf?
    ensures LeavesAreMapped(b, owner[f := o])
  {
  }

  lemma LinkStepInv(w: World, w': World, f: nat, t: nat, x: seq<nat>)
    requires Inv(w) && LinkStep(w, w', f, t, x) && IsPath(x, 3)
    requires Walk(w.ram, x).None? && Walk(w.ram, x[..|x| - 1]) == Some(t)
    ensures Inv(w') && SameLeaves(w.ram, w'.ram)
    ensures forall y :: IsPath(y, 3) ==> Walk(w'.ram, y) == if y == x then Some(f) else Walk(w.ram, y)
  {
    hide Walk, LeafEntry, WalksAreTables, TablesAreWalked, LeavesAreMapped, EntriesArePresent, SameLeaves, LowMapping,
      PointersAreClean, CleanEntry, OwnedAreMarked, LowFramesTaken, RowsKept, SameBut, Cleared, FreeCount, Child, Get;
    MarksLedger(w, w', f, Table(x));
    LinkStepWalks(w, w', f, t, x);
    LinkStepTables(w.ram, w'.ram, w.owner, f, x);
    LinkStepLeaves(w, w', f, t, x);
    SameLeavesMapped(w.ram, w'.ram, w.owner, f, Table(x));
    SameLeavesPresent(w.ram, w'.ram);
    assert PointersAreClean(w'.ram, w'.owner) by {
      LowTables(w.ram, w.owner);
      PointersLinked(w.ram, w'.ram, w.owner, f, t, x[|x| - 1], x);
    }
    MissingEntry(w.ram, t, x);
    LowFrameFree(w, f);
    LowKept(w.ram, w'.ram, f, t, x[|x| - 1]);
  }

  lemma MarksLedger(w: World, w': World, f: nat, o: Owner)
    requires Shape(w) && Marks(w, w', f, o) && OwnedAreMarked(w) && LowFramesTaken(w)
    ensures OwnedAreMarked(w') && LowFramesTaken(w') && f !in w.owner
  {
  }

  lemma MissingEntry(ram: Ram, t: nat, x: seq<nat>)
    requires |x| > 0 && Walk(ram, x).None? && Walk(ram, x[..|x| - 1]) == Some(t)
    ensures !Present(Get(ram, t, x[|x| - 1]))
  {
  }

  lemma LinkStepGrows(w: World, w': World, f: nat, t: nat, x: seq<nat>)
    requires Shape(w) && OwnedAreMarked(w) && LinkStep(w, w', f, t, x) && IsTable(w, t) && IsTable(w, 5)
    ensures Grows(w, w')
  {
  }

  lemma LowFrameFree(w: World, f: nat)
    requires Inv(w) && f < FRAMES && !w.used[f]
    ensures f > 6
  {
    LowTables(w.ram, w.owner);
  }

  lemma {:induction false} LinkStepLeaves(w: World, w': World, f: nat, t: nat, x: seq<nat>)
    requires Inv(w) && LinkStep(w, w', f, t, x) && IsPath(x, 3)
    requires Walk(w.ram, x).None? && Walk(w.ram, x[..|x| - 1]) == Some(t)
    requires forall y :: IsPath(y, 3) ==> Walk(w'.ram, y) == if y == x then Some(f) else Walk(w.ram, y)
    ensures SameLeaves(w.ram, w'.ram)
  {
    hide TablesAreWalked, LeavesAreMapped, EntriesArePresent, LowMapping, PointersAreClean, CleanEntry, FreeCount, Walk;
    LowTables(w.ram, w.owner);
    SameTable(w.ram, w.owner, t, x[..|x| - 1], x[..|x| - 1]);
    forall p | IsPage(p) && p != WINDOW ensures LeafEntry(w'.ram, p) == LeafEntry(w.ram, p) {
      assert IsPath(p[..3], 3);
      if p[..3] != x {
        QuietLeaf(w.ram, w'.ram, w.owner, f, t, x[|x| - 1], p);
      }
    }
  }

  /** An entry that was not present is none of those the kernel reaches its tables through. */
  lemma LowKept(a: Ram, b: Ram, f: nat, t: nat, i: nat)
    requires LowMapping(a) && SameBut(a, b, f, t, i) && f > 6
    requires !Present(Get(a, t, i))
    ensures LowMapping(b)
  {
    assert Present(0x2003) && Present(0x3003) && Present(0x4003) && Present(0x5003);
    assert Present(0x1003) && Present(0x6003);
  }

  /** Creating one missing table keeps the invariant, changes no translation, and costs one frame. */
  lemma {:induction false} EnsureTableInv(w: World, x: seq<nat>, flags: nat)
    requires Inv(w) && IsPath(x, 3) && |x| > 0 && GoodFlags(flags)
    requires Walk(w.ram, x[..|x| - 1]).Some?
    requires Walk(w.ram, x).None? ==> FreeCount(w.used) > 0
    ensures EnsuredTable(w, EnsureTable(w, x, flags), x)
  {
    assert IsPath(x[..|x| - 1], 3);
    if Walk(w.ram, x).None? {
      hide Inv, Walk, LeafEntry, FreeCount, EnsuredTable, EnsureTable, FirstFree, Grows, SameLeaves, OnlyTablesAdded;
      var t := Walk(w.ram, x[..|x| - 1]).value;
      TableAt(w, x[..|x| - 1]);
      EnsureTableStep(w, x, flags, t);
      LinkStepEnsures(w, EnsureTable(w, x, flags), FirstFree(w.used), t, x);
    } else {
      hide *;
      NothingToEnsure(w, x, flags);
    }
  }

  lemma {:induction false} NothingToEnsure(w: World, x: seq<nat>, flags: nat)
    requires Inv(w) && |x| > 0 && Walk(w.ram, x).Some?
    ensures EnsuredTable(w, EnsureTable(w, x, flags), x)
  {
    hide Inv, Walk, LeafEntry, FreeCount;
    assert SameLeaves(w.ram, w.ram) && Grows(w, w) && OnlyTablesAdded(w, w);
  }

  lemma TableAt(w: World, x: seq<nat>)
    requires Inv(w) && IsPath(x, 3) && Walk(w.ram, x).Some?
    ensures Shape(w) && w.used[5] && IsTable(w, 5) && (|x| < 3 ==> Walk(w.ram, x).value != 5)
    ensures var t := Walk(w.ram, x).value;
      t < FRAMES && w.used[t] && IsTable(w, t) && w.owner[t] == Table(x)
  {
    LowTables(w.ram, w.owner);
  }

  /** Everything newly marked or newly registered is a table. */
  ghost predicate OnlyTablesAdded(w: World, w': World) {
    && (forall g :: g in w'.owner && g !in w.owner ==> w'.owner[g].Table?)
    && (forall g :: 0 <= g < |w'.used| && w'.used[g] && g < |w.used| && !w.used[g] ==> g in w'.owner && w'.owner[g].Table?)
  }

  ghost predicate EnsuredTable(w: World, w': World, x: seq<nat>) {
    && Inv(w') && Grows(w, w') && OnlyTablesAdded(w, w') && SameLeaves(w.ram, w'.ram) && Walk(w'.ram, x).Some?
    && FreeCount(w'.used) == FreeCount(w.used) - (if Walk(w.ram, x).None? then 1 else 0)
    && forall y :: IsPath(y, 3) && y != x ==> Walk(w'.ram, y) == Walk(w.ram, y)
  }

  lemma LinkStepEnsures(w: World, w': World, f: nat, t: nat, x: seq<nat>)
    requires Inv(w) && LinkStep(w, w', f, t, x) && IsPath(x, 3) && IsTable(w, t) && IsTable(w, 5)
    requires Walk(w.ram, x).None? && Walk(w.ram, x[..|x| - 1]) == Some(t)
    ensures EnsuredTable(w, w', x)
  {
    LinkStepInv(w, w', f, t, x);
    LinkStepGrows(w, w', f, t, x);
  }
}

/** The ranged page calls in bytes: which addresses of `virt` to `virt + length` they map, and to what. */
module PageBytes {
  import opened Words
  import opened PageTables
  import opened PageSteps
  import opened PageRanges
  import opened PageUndo
  import opened PageRuns

  /** `a` is one of the `length` bytes from the page-aligned address `virt` on. */
  predicate ByteOf(a: nat, virt: nat, length: nat) {
    virt % 0x1000 == 0 && virt <= a < virt + length <= 0x1_0000_0000_0000_0000
  }

  /** Page `q` holds one of the `length` bytes from `virt` on. */
  ghost predicate MeetsBytes(q: seq<nat>, virt: nat, length: nat) {
    exists a: nat :: virt <= a < virt + length && PageOf(a) == q
  }

  /** The page of a byte of the range is one of the pages the loop visits. */
  lemma PageOfByte(virt: nat, length: nat, a: nat) returns (i: nat)
    requires ByteOf(a, virt, length)
    ensures i < PageCount(length) && PageAt(virt, i) == PageOf(a) && virt + i * PAGE_SIZE == a - a % PAGE_SIZE
    ensures InRange(PageOf(a), virt, PageCount(length))
  {
    hide PageOf;
    i := (a - virt) / PAGE_SIZE;
    PageOfFloor(a);
    assert a - a % PAGE_SIZE == virt + i * PAGE_SIZE;
  }

  /** Every page the loop visits holds a byte of the range. */
  lemma VisitedMeets(q: seq<nat>, virt: nat, length: nat)
    requires virt + length <= WORD_LIMIT && InRange(q, virt, PageCount(length))
    ensures MeetsBytes(q, virt, length)
  {
    hide PageOf;
    var i :| 0 <= i < PageCount(length) && PageAt(virt, i) == q;
    var a := virt + i * PAGE_SIZE;
    assert virt <= a < virt + length && PageOf(a) == q;
  }

  /** After `page_mapv` the page of every byte asked for is present: as it was, or, if it was empty, on a frame of its
      own that was unmarked and holds zeros, with the flags given. */
  lemma MapvInBytes(w: World, virt: nat, length: nat, flags: nat, a: nat)
    requires Inv(w) && Legal(w, MapV(virt, length, flags)) && ByteOf(a, virt, length)
    ensures var w', q := Do(w, MapV(virt, length, flags)), PageOf(a);
      && Present(LeafEntry(w'.ram, q))
      && (LeafEntry(w.ram, q) != 0 ==> LeafEntry(w'.ram, q) == LeafEntry(w.ram, q))
      && (LeafEntry(w.ram, q) == 0 ==>
            var f := LeafEntry(w'.ram, q) / 0x1000;
            && LeafEntry(w'.ram, q) == f * 0x1000 + flags && f < |w.used| && !w.used[f]
            && f < |w'.ram| && forall k :: 0 <= k < 512 ==> Get(w'.ram, f, k) == 0)
  {
    hide Inv, LeafEntry, MapPages, TablesMade, FreeCount, PageOf, Grows, AvoidsWindow, Zeros;
    var n := PageCount(length);
    var i := PageOfByte(virt, length, a);
    NotTheWindow(virt, n, PageOf(a));
    MapPagesInv(w, virt, n, flags);
    RangeIsPresent(w, MapPages(w, virt, n, flags), virt, n, flags, i);
  }

  lemma NotTheWindow(virt: nat, n: nat, q: seq<nat>)
    requires AvoidsWindow(virt, n) && InRange(q, virt, n)
    ensures q != WINDOW
  {
    hide PageAt;
  }

  /** After `page_umapv` the page of every byte asked for is empty. */
  lemma UmapvInBytes(w: World, virt: nat, length: nat, a: nat)
    requires Inv(w) && Legal(w, UmapV(virt, length)) && ByteOf(a, virt, length)
    ensures LeafEntry(Do(w, UmapV(virt, length)).ram, PageOf(a)) == 0
  {
    hide Inv, LeafEntry, UnmapPages, PageOf, AvoidsWindow, AllRemovable, Walk;
    var i := PageOfByte(virt, length, a);
    NotTheWindow(virt, PageCount(length), PageOf(a));
    UnmapPagesInv(w, virt, PageCount(length));
  }

  /** After `page_mapvp` each byte whose page was empty is at the same distance from `phys` as it is from `virt`; the
      other pages keep their entries. */
  lemma MapvpInBytes(w: World, virt: nat, phys: nat, length: nat, flags: nat, a: nat)
    requires Inv(w) && Legal(w, MapVP(virt, phys, length, flags)) && ByteOf(a, virt, length)
    requires length <= 0x1_0000_0000_0000
    ensures LeafEntry(Do(w, MapVP(virt, phys, length, flags)).ram, PageOf(a))
         == if LeafEntry(w.ram, PageOf(a)) != 0 then LeafEntry(w.ram, PageOf(a))
            else BitOr((phys + (a - a % 0x1000 - virt)) % 0x1_0000_0000_0000_0000, flags)
  {
    hide Inv, LeafEntry, MapPhysPages, PhysTablesMade, FreeCount, PageOf, Grows, AvoidsWindow, OnlyTablesAdded, BitOr;
    var n, w' := PageCount(length), Do(w, MapVP(virt, phys, length, flags));
    var i := PageOfByte(virt, length, a);
    NotTheWindow(virt, n, PageOf(a));
    MapPhysPagesInv(w, virt, phys, n, flags);
    if LeafEntry(w.ram, PageOf(a)) == 0 {
      var j: nat :| j < n && PageAt(virt, j) == PageOf(a) && LeafEntry(w'.ram, PageOf(a)) == PhysEntry(phys, j, flags);
      if i < j {
        PageAtInjective(virt, i, j);
      } else if j < i {
        PageAtInjective(virt, j, i);
      }
    }
  }

  /** Whichever of the three is called, a page that holds no byte of the range keeps its entry. */
  lemma OtherBytesKept(w: World, op: Op, q: seq<nat>)
    requires Inv(w) && Legal(w, op) && (op.MapV? || op.MapVP? || op.UmapV?)
    requires IsPage(q) && q != WINDOW && op.virt + op.length <= 0x1_0000_0000_0000_0000 && !MeetsBytes(q, op.virt, op.length)
    ensures LeafEntry(Do(w, op).ram, q) == LeafEntry(w.ram, q)
  {
    hide Inv, LeafEntry, MapPages, MapPhysPages, UnmapPages, TablesMade, PhysTablesMade, FreeCount, PageAt, Grows, AvoidsWindow,
      OnlyTablesAdded, AllRemovable, MeetsBytes, FreshPage, Walk, InRange;
    var n := PageCount(op.length);
    if InRange(q, op.virt, n) {
      VisitedMeets(q, op.virt, op.length);
    }
    match op
    case MapV(virt, length, flags) => MapPagesInv(w, virt, n, flags);
    case MapVP(virt, phys, length, flags) => MapPhysPagesInv(w, virt, phys, n, flags);
    case UmapV(virt, length) => UnmapPagesInv(w, virt, n);
  }

  /** The loader's mapping in the same terms: every byte asked for is at its distance from `phys`, whatever was there. */
  lemma LoaderInBytes(w: World, virt: nat, phys: nat, length: nat, flags: nat, a: nat)
    requires Inv(w) && GoodFlags(flags) && ByteOf(a, virt, length) && length <= 0x1_0000_0000_0000
    requires var n := PageCount(length);
      AvoidsWindow(virt, n) && Replaceable(w, virt, n) && InBitmap(phys, n) && FreeCount(w.used) >= BootTablesMade(w, virt, phys, n, flags)
    ensures LeafEntry(BootMapPages(w, virt, phys, PageCount(length), flags).ram, PageOf(a))
         == BitOr((phys + (a - a % 0x1000 - virt)) % 0x1_0000_0000_0000_0000, flags)
  {
    hide Inv, LeafEntry, BootMapPages, BootTablesMade, FreeCount, PageOf, Grows, AvoidsWindow, NoNewLeaves, BitOr, Replaceable, InBitmap;
    var i := PageOfByte(virt, length, a);
    BootMapPagesInv(w, virt, phys, PageCount(length), flags);
    assert BootPage(BootMapPages(w, virt, phys, PageCount(length), flags), virt, phys, i, flags);
  }

  lemma LoaderKeepsOthers(w: World, virt: nat, phys: nat, length: nat, flags: nat, q: seq<nat>)
    requires Inv(w) && GoodFlags(flags) && virt + length <= 0x1_0000_0000_0000_0000 && length <= 0x1_0000_0000_0000
    requires IsPage(q) && q != WINDOW && !MeetsBytes(q, virt, length)
    requires var n := PageCount(length);
      AvoidsWindow(virt, n) && Replaceable(w, virt, n) && InBitmap(phys, n) && FreeCount(w.used) >= BootTablesMade(w, virt, phys, n, flags)
    ensures LeafEntry(BootMapPages(w, virt, phys, PageCount(length), flags).ram, q) == LeafEntry(w.ram, q)
  {
    hide Inv, LeafEntry, BootMapPages, BootTablesMade, FreeCount, PageAt, Grows, AvoidsWindow, NoNewLeaves, BitOr, Replaceable,
      InBitmap, MeetsBytes, InRange, BootPage;
    if InRange(q, virt, PageCount(length)) {
      VisitedMeets(q, virt, length);
    }
    BootMapPagesInv(w, virt, phys, PageCount(length), flags);
  }
}

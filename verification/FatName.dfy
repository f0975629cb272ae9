/** 8.3 file names and the eleven-byte form a FAT directory stores (`convert_name_to_fat16name`). */
module FatName {
  import opened Words
  import opened Strings

  const DOT: byte := '.' as int
  const SPACE: byte := ' ' as int

  /** Index of the first dot, -1 when there is none. */
  function DotIndex(t: seq<byte>): (d: int)
    ensures -1 <= d < |t|
  {
    if t == [] then -1
    else if t[0] == DOT then 0
    else
      var d := DotIndex(t[1..]);
      if d == -1 then -1 else d + 1
  }

  lemma {:induction false} FirstDotFound(t: seq<byte>)
    ensures DotIndex(t) == -1 ==> DOT !in t
    ensures DotIndex(t) >= 0 ==> t[DotIndex(t)] == DOT && DOT !in t[..DotIndex(t)]
  {
    if t != [] && t[0] != DOT {
      FirstDotFound(t[1..]);
      var d := DotIndex(t[1..]);
      assert t == [t[0]] + t[1..];
      assert d >= 0 ==> t[..d + 1] == [t[0]] + t[1..][..d];
    }
  }

  lemma {:induction false} DotIndexIs(base: seq<byte>, ext: seq<byte>)
    requires DOT !in base
    ensures DotIndex(base + [DOT] + ext) == |base|
  {
    if base != [] {
      DotIndexIs(base[1..], ext);
      assert (base + [DOT] + ext)[1..] == base[1..] + [DOT] + ext;
    }
  }

  function Spaces(n: nat): (s: seq<byte>)
    ensures |s| == n && forall k :: 0 <= k < n ==> s[k] == SPACE
  {
    if n == 0 then [] else Spaces(n - 1) + [SPACE]
  }

  function Padded(s: seq<byte>, n: nat): (r: seq<byte>)
    requires |s| <= n
    ensures |r| == n
  {
    s + Spaces(n - |s|)
  }

  lemma PaddedAt(s: seq<byte>, n: nat, k: nat)
    requires |s| <= n && k < n
    ensures Padded(s, n)[k] == if k < |s| then s[k] else SPACE
  {
  }

  lemma UpperAt(s: seq<byte>, k: nat)
    requires k < |s|
    ensures Upper(s)[k] == UpperByte(s[k])
  {
  }

  // ---------------------------------------------------------------- the conversion

  /** Everything behind the first dot; the whole name when there is none. */
  function ExtOf(t: seq<byte>): (ext: seq<byte>) {
    t[DotIndex(t) + 1..]
  }

  /** At most three bytes lie behind the first dot. */
  predicate Fits(t: seq<byte>) {
    |t| - (DotIndex(t) + 1) <= 3
  }

  /** The bytes before the dot at `d` that fit the eight-byte field. */
  function BaseOf(t: seq<byte>, d: int): (base: seq<byte>)
    requires -1 <= d < |t|
    ensures |base| <= 8
  {
    if d < 0 then [] else if d < 8 then t[..d] else t[..8]
  }

  function First(s: seq<byte>, n: nat): (r: seq<byte>)
    ensures |r| <= n
  {
    if |s| <= n then s else s[..n]
  }

  /** The eleven bytes the conversion leaves for `t`: up to eight bytes before the first dot, and the first three
      behind it. */
  function Converted(t: seq<byte>): (r: seq<byte>)
    ensures |r| == 11
  {
    Fields(t, DotIndex(t))
  }

  /** The two fields for a dot at `d`. */
  function Fields(t: seq<byte>, d: int): (r: seq<byte>)
    requires -1 <= d < |t|
    ensures |r| == 11
  {
    Padded(Upper(BaseOf(t, d)), 8) + Padded(Upper(First(t[d + 1..], 3)), 3)
  }

  /** The indices of the local array the extension loop stores to, in order. */
  function ExtStores(t: seq<byte>): (ks: seq<nat>)
    ensures |ks| == |ExtOf(t)|
  {
    seq(|ExtOf(t)|, k requires 0 <= k => 8 + k)
  }

  /** What the extension loop stores behind the eleven-byte array. */
  function Overrun(t: seq<byte>): (s: seq<byte>) {
    if Fits(t) then [] else Upper(ExtOf(t)[3..])
  }

  /** The extension loop stays inside its array exactly when at most three bytes lie behind the first dot. */
  lemma StoresInsideIff(t: seq<byte>)
    ensures (forall k :: 0 <= k < |ExtStores(t)| ==> ExtStores(t)[k] < 11) <==> Fits(t)
    ensures Overrun(t) == [] <==> Fits(t)
  {
    hide DotIndex, Upper;
    if !Fits(t) {
      assert ExtStores(t)[3] == 11;
    }
  }

  /** A four-byte name without a dot already overruns the array. */
  lemma DotlessOverruns()
    ensures var t: seq<byte> := ['K' as int, 'R' as int, 'N' as int, 'L' as int];
      !Fits(t) && ExtStores(t) == [8, 9, 10, 11] && Overrun(t) == ['L' as int]
  {
    var t: seq<byte> := ['K' as int, 'R' as int, 'N' as int, 'L' as int];
    NoDot(t);
    assert ExtOf(t) == t && Upper(t[3..]) == ['L' as int];
  }

  lemma NoDot(t: seq<byte>)
    ensures DotIndex(t) == -1 <==> DOT !in t
  {
    hide DotIndex;
    FirstDotFound(t);
  }

  /** Byte `i` of the local array after the two fill loops and `e` steps of the extension loop. */
  function FilledByte(u: seq<byte>, d: int, e: nat, i: nat): byte
    requires -1 <= d < |u| && d + 1 + e <= |u|
  {
    if i < 8 then (if i >= d then SPACE else u[i])
    else if i < 8 + e then u[d + 1 + i - 8]
    else SPACE
  }

  lemma BaseByte(t: seq<byte>, d: int, i: nat)
    requires -1 <= d < |t| && i < 8
    ensures Padded(Upper(BaseOf(t, d)), 8)[i] == FilledByte(Upper(t), d, 0, i)
  {
    hide Padded, Upper;
    PaddedAt(Upper(BaseOf(t, d)), 8, i);
    if i < d {
      UpperAt(BaseOf(t, d), i);
      UpperAt(t, i);
    }
  }

  lemma ExtByte(t: seq<byte>, d: int, i: nat)
    requires -1 <= d < |t| && 8 <= i < 11
    ensures Padded(Upper(First(t[d + 1..], 3)), 3)[i - 8] == FilledByte(Upper(t), d, |t| - (d + 1), i)
  {
    hide Padded, Upper;
    var ext := First(t[d + 1..], 3);
    PaddedAt(Upper(ext), 3, i - 8);
    if i - 8 < |ext| {
      UpperAt(ext, i - 8);
      UpperAt(t, d + 1 + i - 8);
    }
  }

  lemma LowByte(u: seq<byte>, d: int, e: nat, i: nat)
    requires -1 <= d < |u| && d + 1 + e <= |u| && i < 8
    ensures FilledByte(u, d, e, i) == FilledByte(u, d, 0, i)
  {
  }

  lemma FieldsFilled(t: seq<byte>, d: int, i: nat)
    requires -1 <= d < |t| && i < 11
    ensures Fields(t, d)[i] == FilledByte(Upper(t), d, |t| - (d + 1), i)
  {
    hide Padded, Upper, BaseOf, First, FilledByte;
    if i < 8 {
      assert FilledByte(Upper(t), d, 0, i) == FilledByte(Upper(t), d, |t| - (d + 1), i) by {
        LowByte(Upper(t), d, |t| - (d + 1), i);
      }
      BaseByte(t, d, i);
    } else {
      ExtByte(t, d, i);
    }
  }

  lemma {:induction false} FilledIsConverted(t: seq<byte>, i: nat)
    requires i < 11
    ensures Converted(t)[i] == FilledByte(Upper(t), DotIndex(t), |t| - (DotIndex(t) + 1), i)
  {
    hide Fields, FilledByte, DotIndex, Upper;
    FieldsFilled(t, DotIndex(t), i);
  }

  lemma OverrunByte(t: seq<byte>, i: nat)
    requires 11 <= i < 8 + |ExtOf(t)|
    ensures |Overrun(t)| == |ExtOf(t)| - 3 && Overrun(t)[i - 11] == FilledByte(Upper(t), DotIndex(t), |ExtOf(t)|, i)
  {
    hide Upper, DotIndex;
    UpperAt(ExtOf(t)[3..], i - 11);
    UpperAt(t, DotIndex(t) + 1 + i - 8);
  }

  /** `locals` is the stack memory from the local eleven-byte array on. Its bytes become the converted name, the
      name's buffer receives them, and what the extension loop stores behind the array is exactly `Overrun`. */
  method ConvertName(filename: array<byte>, locals: array<byte>, ghost t: seq<byte>) returns (ghost stores: seq<nat>)
    requires filename.Length >= 11 && Spells(filename[..], 0, t) && locals != filename
    requires locals.Length >= 11 + |Overrun(t)|
    modifies filename, locals
    ensures filename[..] == Converted(t) + (Upper(t) + old(filename[|t|..]))[11..]
    ensures stores == ExtStores(t)
    ensures locals[11..] == Overrun(t) + old(locals[11 + |Overrun(t)|..])
  {
    hide Upper, Converted, DotIndex, Spaces, Padded, Overrun, ExtStores;
    ghost var u := Upper(t);
    OverrunLength(t);
    StrUpper(filename, t);
    ghost var stored := filename[..];
    UpperSpells(t, stored);
    var size := StrSize(filename, 0, u);
    UpperKeepsDots(t);
    var dotFileIndex := -1;
    var i := 0;
    while i < size
      invariant i <= size && DOT !in u[..i]
    {
      assert filename[i] == u[i] by {
        assert stored[0..0 + |u|][i] == u[i];
      }
      if filename[i] == DOT {
        dotFileIndex := i;
        break;
      }
      assert u[..i + 1] == u[..i] + [u[i]];
      i := i + 1;
    }
    FirstDot(u, dotFileIndex);
    assert dotFileIndex == DotIndex(t);
    stores := FillName(filename, dotFileIndex, locals, u);
    StoresAre(t, stores);
    LocalsAfter(t, old(locals[..]), locals[..]);
    i := 0;
    while i < 11
      invariant i <= 11 && locals[..11] == Converted(t) && locals[11..] == Overrun(t) + old(locals[11 + |Overrun(t)|..])
      invariant forall k :: 0 <= k < i ==> filename[k] == Converted(t)[k]
      invariant filename[11..] == stored[11..]
    {
      assert locals[i] == locals[..11][i];
      filename[i] := locals[i];
      i := i + 1;
    }
    assert filename[..11] == Converted(t);
    assert filename[..] == filename[..11] + filename[11..];
  }

  lemma OverrunLength(t: seq<byte>)
    ensures |Overrun(t)| == if |t| - (DotIndex(t) + 1) <= 3 then 0 else |t| - (DotIndex(t) + 1) - 3
  {
  }

  lemma StoresAre(t: seq<byte>, ks: seq<nat>)
    requires |ks| == |t| - (DotIndex(t) + 1) && forall k :: 0 <= k < |ks| ==> ks[k] == 8 + k
    ensures ks == ExtStores(t)
  {
    hide DotIndex;
  }

  /** The filled bytes are the converted name, then the overrun, then what was there. */
  lemma LocalsAfter(t: seq<byte>, was: seq<byte>, now: seq<byte>)
    requires |now| == |was| >= 11 + |Overrun(t)|
    requires forall k :: 0 <= k < |now| ==>
      now[k] == if k < 11 || k < 8 + (|t| - (DotIndex(t) + 1)) then FilledByte(Upper(t), DotIndex(t), |t| - (DotIndex(t) + 1), k) else was[k]
    ensures now[..11] == Converted(t) && now[11..] == Overrun(t) + was[11 + |Overrun(t)|..]
  {
    hide Upper, Converted, DotIndex, Overrun, FilledByte;
    OverrunLength(t);
    forall k | 0 <= k < 11 ensures now[k] == Converted(t)[k] {
      FilledIsConverted(t, k);
    }
    forall k | 11 <= k < 11 + |Overrun(t)| ensures now[k] == Overrun(t)[k - 11] {
      OverrunByte(t, k);
    }
  }

  /** The fill loops over the local eleven-byte array, and the indices the last of them stores to. */
  method FillName(filename: array<byte>, dotFileIndex: int, locals: array<byte>, ghost u: seq<byte>)
      returns (ghost stores: seq<nat>)
    requires Spells(filename[..], 0, u) && -1 <= dotFileIndex < |u| && locals != filename
    requires locals.Length >= 11 && locals.Length >= 8 + (|u| - (dotFileIndex + 1))
    modifies locals
    ensures forall k :: 0 <= k < locals.Length ==>
      locals[k] == if k < 11 || k < 8 + (|u| - (dotFileIndex + 1)) then FilledByte(u, dotFileIndex, |u| - (dotFileIndex + 1), k)
                   else old(locals[k])
    ensures |stores| == |u| - (dotFileIndex + 1) && forall k :: 0 <= k < |stores| ==> stores[k] == 8 + k
  {
    assert filename[..][0..0 + |u|] == u;
    assert forall k :: 0 <= k < |u| ==> filename[k] == filename[..][0..0 + |u|][k];
    var i := 0;
    while i < 11
      invariant i <= 11 && forall k :: 0 <= k < i ==> locals[k] == SPACE
      invariant forall k :: 11 <= k < locals.Length ==> locals[k] == old(locals[k])
    {
      locals[i] := SPACE;
      i := i + 1;
    }
    i := 0;
    while i < 8
      invariant i <= 8 && forall k :: 0 <= k < i ==> locals[k] == FilledByte(u, dotFileIndex, 0, k)
      invariant forall k :: 8 <= k < 11 ==> locals[k] == SPACE
      invariant forall k :: 11 <= k < locals.Length ==> locals[k] == old(locals[k])
    {
      if i >= dotFileIndex {
        locals[i] := SPACE;
      } else {
        locals[i] := filename[i];
      }
      i := i + 1;
    }
    ExtSpells(filename[..], u, dotFileIndex);
    i := 8;
    stores := [];
    var ext := StrSize(filename, dotFileIndex + 1, u[dotFileIndex + 1..]);
    while i < ext + 8
      invariant ext == |u| - (dotFileIndex + 1) && 8 <= i <= ext + 8
      invariant forall k :: 0 <= k < locals.Length ==>
        locals[k] == if k < 11 || k < i then FilledByte(u, dotFileIndex, i - 8, k) else old(locals[k])
      invariant |stores| == i - 8 && forall k :: 0 <= k < |stores| ==> stores[k] == 8 + k
    {
      locals[i] := filename[(dotFileIndex + 1) + (i - 8)];
      stores := stores + [i];
      i := i + 1;
      ext := StrSize(filename, dotFileIndex + 1, u[dotFileIndex + 1..]);
    }
  }

  lemma ExtSpells(s: seq<byte>, u: seq<byte>, d: int)
    requires Spells(s, 0, u) && -1 <= d < |u|
    ensures Spells(s, d + 1, u[d + 1..])
  {
    assert s[0..0 + |u|] == u;
    assert s[d + 1..d + 1 + |u[d + 1..]|] == s[0..0 + |u|][d + 1..];
  }

  lemma UpperSpells(t: seq<byte>, s: seq<byte>)
    requires 0 !in t && |t| < |s| && s[..|t|] == Upper(t) && s[|t|] == 0
    ensures Spells(s, 0, Upper(t))
  {
    forall k | 0 <= k < |t| ensures Upper(t)[k] != 0 {
      assert t[k] in t;
    }
    assert s[0..0 + |t|] == s[..|t|];
  }

  lemma FirstDot(u: seq<byte>, d: int)
    requires -1 <= d < |u| && (if d < 0 then DOT !in u else u[d] == DOT && DOT !in u[..d])
    ensures d == DotIndex(u)
  {
    if d >= 0 {
      assert u == u[..d] + [DOT] + u[d + 1..];
      DotIndexIs(u[..d], u[d + 1..]);
    } else {
      NoDot(u);
    }
  }

  /** Upper-casing neither makes nor removes dots. */
  lemma {:induction false} UpperKeepsDots(t: seq<byte>)
    ensures DotIndex(Upper(t)) == DotIndex(t)
  {
    if t != [] {
      assert Upper(t)[1..] == Upper(t[1..]);
      UpperKeepsDots(t[1..]);
    }
  }

  // ---------------------------------------------------------------- what it means

  /** The parts of a valid 8.3 name. */
  predicate ValidParts(base: seq<byte>, ext: seq<byte>) {
    && 1 <= |base| <= 8 && |ext| <= 3
    && DOT !in base && DOT !in ext && SPACE !in base && SPACE !in ext
  }

  /** Two bytes are the same character, ignoring case. */
  predicate SameLetter(a: byte, b: byte) {
    || a == b
    || ('a' as int <= a <= 'z' as int && a - b == 'a' as int - 'A' as int)
    || ('a' as int <= b <= 'z' as int && b - a == 'a' as int - 'A' as int)
  }

  predicate EqualIgnoringCase(s: seq<byte>, t: seq<byte>) {
    |s| == |t| && forall k :: 0 <= k < |s| ==> SameLetter(s[k], t[k])
  }

  lemma UpperEqualIff(s: seq<byte>, t: seq<byte>)
    ensures Upper(s) == Upper(t) <==> EqualIgnoringCase(s, t)
  {
    if Upper(s) == Upper(t) {
      forall k | 0 <= k < |s| ensures SameLetter(s[k], t[k]) {
        assert Upper(s)[k] == Upper(t)[k];
      }
    }
  }

  /** A valid name becomes its upper-cased parts, each padded with spaces to its field. */
  lemma ShortNameOf(base: seq<byte>, ext: seq<byte>)
    requires ValidParts(base, ext)
    ensures Fits(base + [DOT] + ext)
    ensures Converted(base + [DOT] + ext) == Padded(Upper(base), 8) + Padded(Upper(ext), 3)
  {
    var t := base + [DOT] + ext;
    DotIndexIs(base, ext);
    assert t[|base| + 1..] == ext && t[..|base|] == base;
    assert |base| == 8 ==> t[..8] == base;
  }

  lemma PaddedApart(s: seq<byte>, t: seq<byte>, n: nat)
    requires |s| <= n && |t| <= n && SPACE !in s && SPACE !in t
    ensures Padded(s, n) == Padded(t, n) <==> s == t
  {
    hide Padded;
    if |s| < |t| {
      PaddedAt(s, n, |s|);
      PaddedAt(t, n, |s|);
      assert t[|s|] in t;
    } else if |t| < |s| {
      PaddedAt(s, n, |t|);
      PaddedAt(t, n, |t|);
      assert s[|t|] in s;
    } else if s != t {
      var k :| 0 <= k < |s| && s[k] != t[k];
      PaddedAt(s, n, k);
      PaddedAt(t, n, k);
    }
  }

  lemma UpperKeepsSpaces(s: seq<byte>)
    requires SPACE !in s
    ensures SPACE !in Upper(s)
  {
    forall k | 0 <= k < |s| ensures Upper(s)[k] != SPACE {
      assert s[k] in s;
    }
  }

  /** Two valid names name the same directory entry exactly when they are equal ignoring case. */
  lemma ConvertAlikeIff(base: seq<byte>, ext: seq<byte>, base': seq<byte>, ext': seq<byte>)
    requires ValidParts(base, ext) && ValidParts(base', ext')
    ensures Fits(base + [DOT] + ext) && Fits(base' + [DOT] + ext')
    ensures Converted(base + [DOT] + ext) == Converted(base' + [DOT] + ext')
       <==> EqualIgnoringCase(base + [DOT] + ext, base' + [DOT] + ext')
  {
    ShortNameOf(base, ext);
    ShortNameOf(base', ext');
    UpperKeepsSpaces(base); UpperKeepsSpaces(base'); UpperKeepsSpaces(ext); UpperKeepsSpaces(ext');
    PaddedApart(Upper(base), Upper(base'), 8);
    PaddedApart(Upper(ext), Upper(ext'), 3);
    HalvesEqual(Padded(Upper(base), 8), Padded(Upper(ext), 3), Padded(Upper(base'), 8), Padded(Upper(ext'), 3));
    UpperEqualIff(base, base');
    UpperEqualIff(ext, ext');
    JoinedEqualIff(base, ext, base', ext');
  }

  lemma HalvesEqual(a: seq<byte>, b: seq<byte>, c: seq<byte>, d: seq<byte>)
    requires |a| == |c|
    ensures a + b == c + d <==> a == c && b == d
  {
    if a + b == c + d {
      assert (a + b)[..|a|] == a && (c + d)[..|a|] == c;
      assert (a + b)[|a|..] == b && (c + d)[|a|..] == d;
    }
  }

  lemma JoinedEqualIff(base: seq<byte>, ext: seq<byte>, base': seq<byte>, ext': seq<byte>)
    requires ValidParts(base, ext) && ValidParts(base', ext')
    ensures EqualIgnoringCase(base + [DOT] + ext, base' + [DOT] + ext')
       <==> EqualIgnoringCase(base, base') && EqualIgnoringCase(ext, ext')
  {
    var s, t := base + [DOT] + ext, base' + [DOT] + ext';
    if |base| < |base'| {
      assert s[|base|] == DOT && t[|base|] == base'[|base|] && base'[|base|] in base';
    } else if |base'| < |base| {
      assert t[|base'|] == DOT && s[|base'|] == base[|base'|] && base[|base'|] in base;
    } else if EqualIgnoringCase(s, t) {
      forall k | 0 <= k < |base| ensures SameLetter(base[k], base'[k]) {
        assert s[k] == base[k] && t[k] == base'[k];
      }
      forall k | 0 <= k < |ext| ensures SameLetter(ext[k], ext'[k]) {
        assert s[|base| + 1 + k] == ext[k] && t[|base| + 1 + k] == ext'[k];
      }
    }
  }

  /** A byte in upper case: 0x61 to 0x7A become 0x41 to 0x5A. */
  function InUpperCase(b: byte): byte {
    if 0x61 <= b <= 0x7A then b - 0x20 else b
  }

  /** The eleven bytes one by one, with `d` the place of the first 0x2E, or -1: the bytes before it fill the first eight,
      those behind it the last three, and what is left is 0x20. */
  lemma ConvertedInBytes(t: seq<byte>, d: int, k: nat)
    requires k < 11 && -1 <= d < |t| && (if d < 0 then 0x2E !in t else t[d] == 0x2E && 0x2E !in t[..d])
    ensures Converted(t)[k] ==
      if k < 8 then (if k < d then InUpperCase(t[k]) else 0x20)
      else if d + 1 + (k - 8) < |t| then InUpperCase(t[d + 1 + (k - 8)]) else 0x20
  {
    hide Upper, Converted, DotIndex, FilledByte;
    FirstDot(t, d);
    FilledIsConverted(t, k);
    FilledInBytes(t, d, k);
  }

  lemma FilledInBytes(t: seq<byte>, d: int, k: nat)
    requires k < 11 && -1 <= d < |t|
    ensures FilledByte(Upper(t), d, |t| - (d + 1), k) ==
      if k < 8 then (if k < d then InUpperCase(t[k]) else 0x20)
      else if d + 1 + (k - 8) < |t| then InUpperCase(t[d + 1 + (k - 8)]) else 0x20
  {
    hide Upper;
    var at := if k < 8 then k else d + 1 + (k - 8);
    if (if k < 8 then k < d else at < |t|) {
      UpperAt(t, at);
    }
  }

  /** The name a directory entry should have: the part before the first dot, or all of it, and the part behind. */
  function NameBase(t: seq<byte>): seq<byte> {
    if DotIndex(t) < 0 then t else t[..DotIndex(t)]
  }

  function NameExt(t: seq<byte>): seq<byte> {
    if DotIndex(t) < 0 then [] else t[DotIndex(t) + 1..]
  }

  /** A name whose parts fit their fields is converted to its padded short name exactly when it has a dot. */
  lemma ShortNameIff(t: seq<byte>)
    requires 1 <= |NameBase(t)| <= 8 && |NameExt(t)| <= 3 && SPACE !in t
    ensures Converted(t) == Padded(Upper(NameBase(t)), 8) + Padded(Upper(NameExt(t)), 3) <==> DOT in t
  {
    hide Padded, Upper, DotIndex;
    NoDot(t);
    if DOT in t {
      assert |t[..DotIndex(t)]| == 8 ==> t[..8] == t[..DotIndex(t)];
    } else {
      BlankBase(t);
      FirstOfPadded(t, NameExt(t));
    }
  }

  /** Without a dot the base field stays blank. */
  lemma BlankBase(t: seq<byte>)
    requires DOT !in t
    ensures Converted(t)[0] == SPACE
  {
    hide Upper;
    NoDot(t);
    PaddedAt(Upper(BaseOf(t, DotIndex(t))), 8, 0);
  }

  lemma FirstOfPadded(t: seq<byte>, ext: seq<byte>)
    requires 1 <= |t| <= 8 && |ext| <= 3 && SPACE !in t
    ensures (Padded(Upper(t), 8) + Padded(Upper(ext), 3))[0] != SPACE
  {
    hide Upper, Padded;
    UpperKeepsSpaces(t);
    PaddedAt(Upper(t), 8, 0);
    assert Upper(t)[0] in Upper(t);
  }
}

/** `kernel/fs/fat.c` as it runs: sector reads into buffers, handles advanced in place.
    Every reader is proved against the flat view of the volume in FileChains. */
module FatReader {
  import opened Words
  import opened Strings
  import opened Disk
  import opened FileChains
  import opened FatName
  import opened FatVolume
  import opened ReadPlan

  const NOT_FOUND: nat := 0xFFFF_FFFF
  const SLASH: byte := '/' as int
  const HEADER_SIZE: nat := 36                 // sizeof( fat_header_t )

  /** The boot-sector fields at their on-disk offsets. */
  function DecodeHeader(s: seq<byte>): Header
    requires |s| == HEADER_SIZE
  {
    Header(LittleEndian(s[11], s[12]), s[13], LittleEndian(s[14], s[15]), s[16],
           LittleEndian(s[17], s[18]), LittleEndian(s[22], s[23]))
  }

  /** The fields spelled out in bytes of the disk from `e` on. */
  function HeaderAt(m: seq<byte>, e: nat): Header
    requires e + HEADER_SIZE <= |m|
  {
    Header(m[e + 11] as int + 0x100 * m[e + 12] as int, m[e + 13], m[e + 14] as int + 0x100 * m[e + 15] as int, m[e + 16],
           m[e + 17] as int + 0x100 * m[e + 18] as int, m[e + 22] as int + 0x100 * m[e + 23] as int)
  }

  lemma HeaderBytes(m: seq<byte>, e: nat)
    requires e + HEADER_SIZE <= |m|
    ensures DecodeHeader(Slice(m, e, HEADER_SIZE)) == HeaderAt(m, e)
  {
    var s := Slice(m, e, HEADER_SIZE);
    assert forall j :: 0 <= j < HEADER_SIZE ==> s[j] == m[e + j];
  }

  /** `fat_file_ptr`: where a file starts, the cluster it has reached, and the offset in that cluster. */
  class FatHandle {
    var currentCluster: nat
    var nextCluster: nat
    var cluster: nat
    var offset: nat

    constructor (first: nat)
      ensures currentCluster == nextCluster == cluster == first && offset == 0
    {
      currentCluster, nextCluster, cluster, offset := first, first, first, 0;
    }

    /** The handle stands in the k-th cluster of `cs`, ready for a read. */
    predicate At(cs: seq<nat>, k: nat)
      reads this
    {
      k < |cs| && cluster == nextCluster == cs[k]
    }
  }

  /** `cs` is a file's whole chain. */
  ghost predicate FileOf(f: FlatFat, cs: seq<nat>) {
    cs != [] && Chain(f, cs[0], cs) && AllInData(f, cs)
  }

  /** The file position of offset `o` in the k-th cluster. */
  function Position(f: FlatFat, k: nat, o: nat): nat {
    f.size * k + o
  }

  /** The one-cluster buffer holds the k-th cluster of the file. */
  ghost predicate Loaded(buf: array<byte>, buffer: array<byte>, f: FlatFat, cs: seq<nat>, k: nat)
    reads buf
  {
    && buf != buffer && buf.Length == f.size && 0 < f.size < 0x1_0000
    && FileOf(f, cs) && k < |cs| && buf[..] == f.clusters[cs[k]]
  }

  class Fat {
    const disk: AtaDisk
    var header: Header
    var fatLbaStart: nat

    function View(): Volume
      reads this, disk
    {
      Volume(disk.image, fatLbaStart, header)
    }

    ghost predicate Ready()
      reads this, disk
    {
      disk.Valid() && Mounted(View())
    }

    ghost function Flat(): FlatFat
      reads this, disk
      requires Ready()
    {
      FlatOf(View())
    }

    /** `fat_init`, for the partition starting at block `lbaStart`. */
    constructor (ata: AtaDisk, lbaStart: nat)
      requires ata.Valid() && 512 * lbaStart + 36 <= |ata.image| && lbaStart < DWORD_LIMIT
      modifies ata, ata.tmpBuffer
      ensures disk == ata && disk.Valid() && fatLbaStart == lbaStart
      ensures header == HeaderAt(disk.image, 512 * lbaStart)
    {
      var raw := new byte[HEADER_SIZE];
      ata.ReadDisk(lbaStart, 0, raw, 0, HEADER_SIZE);
      assert raw[..] == Slice(ata.image, SECTOR * lbaStart, HEADER_SIZE);
      disk := ata;
      fatLbaStart := lbaStart;
      header := DecodeHeader(raw[..]);
      HeaderBytes(ata.image, SECTOR * lbaStart);
    }

    // -------------------------------------------------------------- clusters

    /** The entry of the flat table that follows `cluster`. */
    method GetNextCluster(cluster: nat) returns (next: nat)
      requires Ready() && cluster < |Flat().table|
      modifies disk, disk.tmpBuffer
      ensures disk.Valid() && next == Flat().table[cluster]
    {
      hide FlatOf, InData, Next, ReadStart, Slice, Mounted, LittleEndian, FatStart, Stored;
      ghost var v := View();
      EntryInSector(v, cluster);
      TableSector(v, cluster / 256);
      var buffer := new byte[SECTOR];
      var seg := cluster / 256;
      var off := cluster % 256;
      var fatSegment := FatStart(View());
      ghost var raw := buffer[..];
      disk.ReadDisk((fatSegment + seg) % DWORD_LIMIT, 0, buffer, 0, SECTOR);
      StoredWhole(raw, Slice(v.image, SECTOR * (fatSegment + seg), SECTOR));
      next := LittleEndian(buffer[2 * off], buffer[2 * off + 1]);
    }

    /** The sector loop every reader runs: cluster `cluster` lands at `at`. */
    method ReadCluster(cluster: nat, buffer: array<byte>, at: nat) returns (to: nat)
      requires Ready() && InData(Flat(), cluster) && buffer != disk.tmpBuffer
      requires at + Flat().size <= buffer.Length
      modifies disk, disk.tmpBuffer, buffer
      ensures disk.Valid() && to == at + Flat().size
      ensures buffer[..] == Stored(old(buffer[..]), at, Flat().clusters[cluster])
    {
      hide FlatOf, InData, ReadStart, Slice, ClusterSector, DataStart, Mounted, Stored;
      ghost var v, was := View(), buffer[..];
      ClusterIsWhole(v, cluster);
      ghost var bytes := FlatOf(v).clusters[cluster];
      var dataStart := DataStart(View());
      var i := 0;
      to := at;
      StoredNone(was, at, bytes, 0);
      while i < header.sectorPerCluster
        invariant i <= header.sectorPerCluster && disk.Valid() && to == at + SECTOR * i
        invariant buffer[..] == Stored(was, at, bytes[0..SECTOR * i])
      {
        hide FlatOf, InData, ReadStart, Slice, ClusterSector, DataStart, Mounted, Stored;
        SectorInCluster(v, cluster, i);
        var block := ClusterSector(dataStart, header.sectorPerCluster, cluster, i);
        WholeSector(block);
        ghost var before := buffer[..];
        disk.ReadDisk(block, 0, buffer, to, SECTOR);
        StoredNext(was, before, buffer[..], at, bytes, 0, SECTOR * i, SECTOR);
        to := to + SECTOR;
        i := i + 1;
      }
      assert bytes[0..|bytes|] == bytes;
    }

    // -------------------------------------------------------------- whole files

    /** `fat_readFile`: the whole chain of an entry is stored at `at`. */
    method ReadFile(entry: DirEntry, buffer: array<byte>, at: nat, ghost cs: seq<nat>)
      requires Ready() && Chain(Flat(), FirstCluster(entry), cs) && AllInData(Flat(), cs)
      requires buffer != disk.tmpBuffer && at + |Contents(Flat(), cs)| <= buffer.Length
      modifies disk, disk.tmpBuffer, buffer
      ensures disk.Valid()
      ensures buffer[..] == Stored(old(buffer[..]), at, Contents(Flat(), cs))
    {
      hide FlatOf, InData, Mounted, Contents, FirstCluster, Chain, Stored;
      ghost var flat, was := Flat(), buffer[..];
      ghost var whole := Contents(flat, cs);
      ghost var k := 0;
      var cluster := FirstCluster(entry);
      var to := at;
      ContentsSoFar(flat, cs, 0);
      ChainHead(flat, cluster, cs);
      StoredNone(was, at, whole, 0);
      while cluster < NO_CLUSTER
        invariant k <= |cs| && disk.Valid() && Ready() && Flat() == flat
        invariant k < |cs| ==> cluster == cs[k]
        invariant k < |cs| <==> cluster < NO_CLUSTER
        invariant to == at + flat.size * k && flat.size * k <= |whole|
        invariant buffer[..] == Stored(was, at, whole[0..flat.size * k])
        decreases |cs| - k
      {
        hide FlatOf, InData, Mounted, Contents, FirstCluster, Chain, Stored;
        ContentsSoFar(flat, cs, k);
        ChainStep(flat, FirstCluster(entry), cs, k);
        ghost var before := buffer[..];
        to := ReadCluster(cluster, buffer, to);
        StoredNext(was, before, buffer[..], at, whole, 0, flat.size * k, flat.size);
        cluster := GetNextCluster(cluster);
        k := k + 1;
      }
      ContentsSoFar(flat, cs, |cs|);
      assert whole[0..|whole|] == whole;
    }

    /** `fat_readSector`: the cluster `nextCluster` names is delivered and the handle advances; at an end mark
        nothing happens. */
    method ReadSector(handle: FatHandle, buffer: array<byte>, at: nat)
      requires Ready() && buffer != disk.tmpBuffer
      requires handle.nextCluster < NO_CLUSTER ==> InData(Flat(), handle.nextCluster) && at + Flat().size <= buffer.Length
      modifies disk, disk.tmpBuffer, buffer, handle`nextCluster
      ensures disk.Valid()
      ensures old(handle.nextCluster) >= NO_CLUSTER ==>
                handle.nextCluster == old(handle.nextCluster) && buffer[..] == old(buffer[..])
      ensures old(handle.nextCluster) < NO_CLUSTER ==>
                && handle.nextCluster == Next(Flat(), old(handle.nextCluster))
                && buffer[..] == Stored(old(buffer[..]), at, Flat().clusters[old(handle.nextCluster)])
    {
      hide FlatOf, Mounted;
      if handle.nextCluster < NO_CLUSTER {
        var _ := ReadCluster(handle.nextCluster, buffer, at);
        handle.nextCluster := GetNextCluster(handle.nextCluster);
      }
    }

    // -------------------------------------------------------------- streaming reads

    /** The last turn's copy: `size` bytes from `from`. */
    method CopyLast(buf: array<byte>, from: nat, buffer: array<byte>, at: nat, size: nat)
      requires buf != buffer && from + size <= buf.Length && at + size <= buffer.Length
      modifies buffer
      ensures buffer[..] == Stored(old(buffer[..]), at, buf[..][from..from + size])
    {
      var j := 0;
      while j < size
        invariant j <= size && buffer[at..at + j] == buf[from..from + j]
        invariant buffer[..at] == old(buffer[..at]) && buffer[at + j..] == old(buffer[at + j..])
      {
        buffer[at + j] := buf[from + j];
        j := j + 1;
        assert buffer[at..at + j] == buffer[at..at + (j - 1)] + [buf[from + (j - 1)]];
      }
      assert buffer[..] == buffer[..at] + buffer[at..at + size] + buffer[at + size..];
    }

    /** An earlier turn's copy: from the handle's offset to the end of the cluster, unless the request ends first. */
    method CopyRest(handle: FatHandle, buf: array<byte>, buffer: array<byte>, at: nat, size: nat)
        returns (to: nat, left: nat)
      requires buf != buffer && handle.offset < buf.Length < 0x1_0000 && buf.Length - handle.offset <= size
      requires at + (buf.Length - handle.offset) <= buffer.Length
      modifies buffer, handle`offset
      ensures handle.offset == 0 && to == at + (buf.Length - old(handle.offset)) && to - at + left == size
      ensures buffer[..] == Stored(old(buffer[..]), at, buf[..][old(handle.offset)..buf.Length])
    {
      ghost var from := handle.offset;
      to, left := at, size;
      var j := handle.offset;
      while j < buf.Length
        invariant from <= j <= buf.Length && to == at + (j - from) && left == size - (j - from)
        invariant handle.offset == j
        invariant buffer[at..to] == buf[from..j]
        invariant buffer[..at] == old(buffer[..at]) && buffer[to..] == old(buffer[to..])
      {
        if left == 0 {
          break;
        }
        buffer[to] := buf[j];
        to := to + 1;
        left := left - 1;
        handle.offset := (handle.offset + 1) % 0x1_0000;
        j := j + 1;
        assert buffer[at..to] == buffer[at..to - 1] + [buf[j - 1]];
      }
      SelfMod(buf.Length);
      handle.offset := handle.offset % buf.Length;
      assert buffer[..] == buffer[..at] + buffer[at..to] + buffer[to..];
    }

    /** The last turn of a read whose cluster is loaded: the bytes still wanted, in file terms. */
    method LastTurn(handle: FatHandle, buf: array<byte>, buffer: array<byte>, at: nat, left: nat,
                    ghost flat: FlatFat, ghost cs: seq<nat>, ghost k: nat) returns (to: nat)
      requires Loaded(buf, buffer, flat, cs, k) && handle.offset + left <= flat.size && at + left <= buffer.Length
      modifies buffer, handle`offset
      ensures to == at + left && Position(flat, k, handle.offset) == Position(flat, k, old(handle.offset)) + left
      ensures handle.offset == old(handle.offset) + left
      ensures Position(flat, k, handle.offset) <= |Contents(flat, cs)|
      ensures buffer[..] == Stored(old(buffer[..]), at,
                                   Contents(flat, cs)[Position(flat, k, old(handle.offset))..Position(flat, k, handle.offset)])
    {
      hide FileOf, Contents, Stored;
      FileRange(flat, cs, k, handle.offset, left);
      CopyLast(buf, handle.offset, buffer, at, left);
      handle.offset := (handle.offset + left) % 0x1_0000;
      to := at + left;
    }

    /** An earlier turn, in file terms: the rest of the loaded cluster. */
    method EarlierTurn(handle: FatHandle, buf: array<byte>, buffer: array<byte>, at: nat, size: nat,
                       ghost flat: FlatFat, ghost cs: seq<nat>, ghost k: nat) returns (to: nat, left: nat)
      requires Loaded(buf, buffer, flat, cs, k) && handle.offset < flat.size && flat.size - handle.offset <= size
      requires at + (flat.size - handle.offset) <= buffer.Length
      modifies buffer, handle`offset
      ensures handle.offset == 0 && to == at + (flat.size - old(handle.offset)) && to - at + left == size
      ensures Position(flat, k + 1, 0) == Position(flat, k, old(handle.offset)) + (to - at)
      ensures Position(flat, k + 1, 0) <= |Contents(flat, cs)|
      ensures buffer[..] == Stored(old(buffer[..]), at,
                                   Contents(flat, cs)[Position(flat, k, old(handle.offset))..Position(flat, k + 1, 0)])
    {
      hide FileOf, Contents, Stored;
      Multiples(flat.size, k, k + 1);
      FileRange(flat, cs, k, handle.offset, flat.size - handle.offset);
      to, left := CopyRest(handle, buf, buffer, at, size);
    }

    /** `fat_read`: a handle at file position p, in cluster k of its chain, delivers exactly the file's bytes
        p to p + size and ends at position p + size, in the cluster that position's last byte lies in. */
    method Read(handle: FatHandle, buffer: array<byte>, at: nat, size: nat, ghost flat: FlatFat, ghost cs: seq<nat>, ghost k: nat)
        returns (ghost k': nat, ghost copies: seq<Copy>)
      requires Ready() && flat == Flat() && flat.size > 0
      requires FileOf(flat, cs) && handle.At(cs, k)
      requires buffer != disk.tmpBuffer && at + size <= buffer.Length
      requires NonStraddle(handle.offset, size, flat.size)
      requires Position(flat, k, handle.offset) + size <= |Contents(flat, cs)|
      modifies disk, disk.tmpBuffer, buffer, handle
      ensures disk.Valid() && handle.currentCluster == old(handle.currentCluster)
      ensures handle.At(cs, k') && Position(flat, k', handle.offset) == old(Position(flat, k, handle.offset)) + size
      ensures if size == 0 then k' == k else 0 < handle.offset <= flat.size
      ensures copies == Plan(old(handle.offset), size, flat.size, Chunks(size, flat.size))
      ensures buffer[..] == Stored(old(buffer[..]), at,
                                   Contents(flat, cs)[old(Position(flat, k, handle.offset))..Position(flat, k', handle.offset)])
    {
      hide FlatOf, Mounted, InData, Next, Contents, FileOf, Chunks, NonStraddle, Turn, ClusterSize, Position,
        Stored, Plan, Makes;
      FileParts(flat, cs);
      ghost var file, was := Contents(flat, cs), buffer[..];
      ghost var o := handle.offset;
      ghost var p := Position(flat, k, o);
      SizeIsSmall(View());
      var sizeSector := ClusterSize(View());
      var len := Chunks(size, sizeSector);
      var cluster := handle.cluster;
      var buf := new byte[sizeSector];
      var left: nat, to := size, at;
      FirstTurn(sizeSector, o, size);
      StoredNone(buffer[..], at, file, p);
      var i := 0;
      k', copies := k, [];
      PlanEmpty(o, size, sizeSector);
      MakesNone(Plan(o, size, sizeSector, len));
      while i < len
        invariant disk.Valid() && Ready() && Flat() == flat && buf.Length == sizeSector
        invariant handle.currentCluster == old(handle.currentCluster)
        invariant len > 0 ==> i < len && Turn(sizeSector, o, size, i, handle.offset, left)
        invariant len == 0 ==> i == 0 && handle.offset == o && left == size && copies == []
        invariant k' == k + i && handle.At(cs, k') && cluster == handle.cluster
        invariant to + left == at + size && left <= size
        invariant Makes(copies, Plan(handle.offset, left, sizeSector, len - i), Plan(o, size, sizeSector, len))
        invariant buffer[..] == Stored(was, at, file[p..p + (size - left)])
      {
        hide FlatOf, Mounted, InData, Next, Contents, FileOf, Chunks, NonStraddle, Turn, ClusterSize, Position,
          Stored, Plan, Makes;
        TurnRoom(flat, o, size, i, handle.offset, left, k, |cs|);
        FileStep(flat, cs, k');
        ghost var raw := buf[..];
        var _ := ReadCluster(cluster, buf, 0);
        StoredWhole(raw, flat.clusters[cs[k']]);
        assert Loaded(buf, buffer, flat, cs, k');
        ghost var before, q, from := buffer[..], p + (size - left), handle.offset;
        if i == len - 1 {
          PlanLast(from, left, sizeSector);
          assert [Copy(from, left)] + [] == [Copy(from, left)];
          copies := AddCopy(copies, Copy(from, left), [], Plan(o, size, sizeSector, len));
          to := LastTurn(handle, buf, buffer, to, left, flat, cs, k');
          StoredNext(was, before, buffer[..], at, file, p, q, left);
          left := 0;
          break;
        } else {
          ghost var room := sizeSector - handle.offset;
          PlanFirst(from, left, sizeSector, len - i);
          copies := AddCopy(copies, Copy(from, room), Plan(0, left - room, sizeSector, len - i - 1),
                            Plan(o, size, sizeSector, len));
          to, left := EarlierTurn(handle, buf, buffer, to, left, flat, cs, k');
          StoredNext(was, before, buffer[..], at, file, p, q, room);
        }
        handle.nextCluster := GetNextCluster(handle.nextCluster);
        cluster := handle.nextCluster;
        handle.cluster := handle.nextCluster;
        i := i + 1;
        k' := k' + 1;
      }
    }

    // -------------------------------------------------------------- the root directory

    /** The scan of the root directory for the eleven bytes in `fname`. */
    method SearchRoot(fname: array<byte>) returns (found: bool, entry: DirEntry)
      requires Ready() && fname.Length >= 11 && fname != disk.tmpBuffer
      modifies disk, disk.tmpBuffer
      ensures disk.Valid() && Finds(View(), fname[..11], entry)
      ensures !found ==> entry == ZERO_ENTRY
    {
      hide RootEntry, Mounted, RootStart, Slice, ReadStart, Decode, Stored;
      ghost var v, name := View(), fname[..11];
      MountedSectors(v);
      var rootStart, rootSectors := RootStart(View()), header.rootDirEntries / (header.bytesPerSector / ENTRY_SIZE);
      var buffer := new byte[SECTOR];
      var i := 0;
      while i < rootSectors
        invariant i <= rootSectors && disk.Valid() && fname[..11] == name
        invariant forall q: nat :: q < 16 * i ==> RootEntry(v, q).name != name
      {
        hide RootEntry, Mounted, RootStart, Slice, ReadStart, Decode, Stored;
        RootSector(v, i);
        ghost var raw := buffer[..];
        disk.ReadDisk((rootStart + i) % DWORD_LIMIT, 0, buffer, 0, SECTOR);
        StoredWhole(raw, Slice(v.image, SECTOR * (rootStart + i), SECTOR));
        var j := 0;
        while j < 16
          invariant j <= 16 && fname[..11] == name
          invariant buffer[..] == Slice(v.image, SECTOR * (rootStart + i), SECTOR)
          invariant forall q: nat :: q < 16 * i + j ==> RootEntry(v, q).name != name
        {
          EntryInBuffer(v, i, j, buffer[..]);
          DecodedName(buffer[ENTRY_SIZE * j..ENTRY_SIZE * (j + 1)]);
          var differs := StrNCmp(buffer[ENTRY_SIZE * j..ENTRY_SIZE * (j + 1)], fname[..11], 11);
          assert fname[..11][..11] == name;
          if differs == 0 {
            return true, Decode(buffer[ENTRY_SIZE * j..ENTRY_SIZE * (j + 1)]);
          }
          j := j + 1;
        }
        i := i + 1;
      }
      return false, ZERO_ENTRY;
    }

    /** `entry` answers a search for the path `t`. */
    ghost predicate Answers(t: seq<byte>, entry: DirEntry)
      reads this, disk
    {
      Ready() && Fits(t) && Finds(View(), Converted(t), entry)
    }

    /** `fat_findFile` for a path without a slash: the first root entry whose name is the converted path,
        or a zeroed entry. */
    method FindFile(filename: array<byte>, ghost t: seq<byte>) returns (entry: DirEntry)
      requires Ready() && filename != disk.tmpBuffer
      requires PathName(filename[..], t)
      modifies disk, disk.tmpBuffer
      ensures disk.Valid() && Answers(t, entry)
      ensures forall k: nat :: FirstNamed(View(), Converted(t), k) ==>
        EntryByte(View(), k) + 32 <= |disk.image| && entry == FieldsAt(View(), k)
      ensures (forall k: nat :: k < 16 * (header.rootDirEntries / 16) ==> !NamedAt(View(), Converted(t), k)) ==>
        entry == DirEntry([0, 0, 0, 0, 0, 0, 0, 0, 0, 0, 0], 0, 0, 0, 0)
    {
      hide Mounted, Finds, Fits, Converted, Upper, Spells, CopiedTo, Overrun, FieldsAt, EntryByte, FirstNamed, NamedAt;
      SpelledBytes(filename[..], t);
      var fname := new byte[64];
      var locals := new byte[11];
      var sizeFilename := StrSize(filename, 0, t);
      var indexPath := 0;
      entry := ZERO_ENTRY;
      while indexPath <= sizeFilename
        invariant indexPath <= |t| + 1 && disk.Valid() && filename[..] == old(filename[..])
        invariant 0 < indexPath <= |t| ==> CopiedTo(fname[..], t, indexPath)
        invariant indexPath == |t| + 1 ==> entry == ZERO_ENTRY && Answers(t, entry)
      {
        hide Mounted, Finds, Fits, Converted, Upper, Spells, CopiedTo, Overrun, FieldsAt, EntryByte, FirstNamed;
        if filename[indexPath] == SLASH || filename[indexPath] == 0 {
          CopiedWhole(t, indexPath, fname[..], filename[..]);
          StoresInsideIff(t);
          ghost var _ := ConvertName(fname, locals, t);
          assert fname[..11] == Converted(t);
          fname[11] := 0;
          assert fname[..11] == Converted(t);
          var found: bool;
          found, entry := SearchRoot(fname);
          if found {
            FoundInBytes(View(), Converted(t), entry);
            return;
          }
          indexPath := indexPath + 1;
        } else {
          ghost var before := fname[..];
          fname[indexPath] := filename[indexPath];
          fname[indexPath + 1] := 0;
          indexPath := indexPath + 1;
          CopiedNext(before, fname[..], t, indexPath - 1);
        }
      }
      FoundInBytes(View(), Converted(t), entry);
    }

    /** `fat_fileOpen`: a handle at the start of the file found, or the marked handle for a directory. */
    method FileOpen(filename: array<byte>, ghost t: seq<byte>) returns (handle: FatHandle, ghost entry: DirEntry)
      requires Ready() && filename != disk.tmpBuffer
      requires PathName(filename[..], t)
      modifies disk, disk.tmpBuffer
      ensures disk.Valid() && Answers(t, entry) && fresh(handle)
      ensures handle.currentCluster == handle.cluster == handle.nextCluster && handle.offset == 0
      ensures handle.cluster == if entry.attributes / 0x10 % 2 == 0 then FirstCluster(entry) else NOT_FOUND
      ensures forall k: nat :: FirstNamed(View(), Converted(t), k) ==>
        var m, e := disk.image, EntryByte(View(), k);
        && e + 32 <= |m|
        && handle.cluster == if m[e + 11] / 0x10 % 2 == 0 then
             m[e + 26] as int + 0x100 * m[e + 27] as int + 0x1_0000 * m[e + 20] as int + 0x100_0000 * m[e + 21] as int
           else 0xFFFF_FFFF
      ensures (forall k: nat :: k < 16 * (header.rootDirEntries / 16) ==> !NamedAt(View(), Converted(t), k)) ==> handle.cluster == 0
    {
      hide Answers, Mounted, PathName, FirstNamed, NamedAt, Converted;
      var fdir := FindFile(filename, t);
      entry := fdir;
      if fdir.attributes / 0x10 % 2 == 0 {
        handle := new FatHandle(FirstCluster(fdir));
      } else {
        handle := new FatHandle(NOT_FOUND);
      }
    }
  }

  // ---------------------------------------------------------------- facts the loops use

  /** A path of one component that fits the name buffer. */
  predicate PathName(s: seq<byte>, t: seq<byte>) {
    Spells(s, 0, t) && 1 <= |t| < 64 && 0x2F !in t && Fits(t)
  }

  lemma WholeSector(lba: nat)
    ensures ReadStart(lba, 0) == SECTOR * lba
  {
  }

  lemma TableSector(v: Volume, seg: nat)
    requires Mounted(v) && SECTOR * (FatStart(v) + seg) + SECTOR <= |v.image|
    ensures (FatStart(v) + seg) % DWORD_LIMIT == FatStart(v) + seg
    ensures ReadStart(FatStart(v) + seg, 0) == SECTOR * (FatStart(v) + seg)
    ensures v.header.bytesPerSector >= ENTRY_SIZE
  {
  }

  lemma ClusterIsWhole(v: Volume, c: nat)
    requires Mounted(v) && InData(FlatOf(v), c)
    ensures v.header.bytesPerSector >= ENTRY_SIZE && c < |FlatOf(v).clusters|
    ensures |FlatOf(v).clusters[c]| == FlatOf(v).size == SECTOR * v.header.sectorPerCluster
  {
    hide FatStart, RootStart, DataStart, ClusterSize;
    Geometry(v);
  }

  lemma ContentsSoFar(v: FlatFat, cs: seq<nat>, k: nat)
    requires AllInData(v, cs) && k <= |cs|
    ensures v.size * k <= |Contents(v, cs)|
    ensures k == |cs| ==> v.size * k == |Contents(v, cs)|
    ensures v.size * k + v.size == v.size * (k + 1)
    ensures k < |cs| ==> v.size * (k + 1) <= |Contents(v, cs)|
    ensures k < |cs| ==> Contents(v, cs)[v.size * k..v.size * k + v.size] == v.clusters[cs[k]]
  {
    hide Contents;
    Multiples(v.size, k, |cs|);
    if k < |cs| {
      ContentsAt(v, cs, k, 0, v.size);
    }
  }

  lemma ChainHead(v: FlatFat, c: nat, cs: seq<nat>)
    requires Chain(v, c, cs)
    ensures 0 < |cs| ==> c == cs[0]
    ensures 0 < |cs| <==> c < NO_CLUSTER
  {
  }

  lemma ChainStep(v: FlatFat, c: nat, cs: seq<nat>, k: nat)
    requires Chain(v, c, cs) && AllInData(v, cs) && k < |cs|
    ensures InData(v, cs[k])
    ensures k + 1 < |cs| ==> Next(v, cs[k]) == cs[k + 1]
    ensures k + 1 < |cs| <==> Next(v, cs[k]) < NO_CLUSTER
  {
    ChainInData(v, c, cs);
  }

  lemma SelfMod(n: nat)
    requires n > 0
    ensures n % n == 0
  {
  }

  lemma SizeIsSmall(v: Volume)
    requires Mounted(v)
    ensures FlatOf(v).size == ClusterSize(v) && SECTOR <= ClusterSize(v) < 0x1_0000
  {
    Geometry(v);
  }

  /** The state of `fat_read` before turn `i`: its offset in the cluster and the bytes still wanted. */
  predicate Turn(s: nat, o: nat, size: nat, i: nat, offset: nat, left: nat)
    requires s > 0
  {
    && size > 0 && NonStraddle(o, size, s) && left + offset + s * i == size + o
    && (i == 0 ==> offset == o) && (i > 0 ==> offset == 0)
  }

  /** The copies made and those still planned are the whole plan. */
  predicate Makes(done: seq<Copy>, rest: seq<Copy>, all: seq<Copy>) {
    done + rest == all
  }

  lemma MakesNone(all: seq<Copy>)
    ensures Makes([], all, all)
    ensures all == [] ==> [] == all
  {
  }

  lemma AddCopy(done: seq<Copy>, c: Copy, rest: seq<Copy>, all: seq<Copy>) returns (more: seq<Copy>)
    requires Makes(done, [c] + rest, all)
    ensures Makes(more, rest, all) && (rest == [] ==> more == all)
  {
    more := done + [c];
  }

  lemma FirstTurn(s: nat, o: nat, size: nat)
    requires s > 0 && NonStraddle(o, size, s)
    ensures size > 0 ==> Turn(s, o, size, 0, o, size)
    ensures Chunks(size, s) == 0 <==> size == 0
  {
    if size > 0 {
      ChunksBound(size, s);
    }
  }

  /** Before the last turn the rest of the cluster is wanted in full, and there is a next cluster;
      in the last turn what is wanted fits. */
  lemma TurnRoom(f: FlatFat, o: nat, size: nat, i: nat, offset: nat, left: nat, k: nat, m: nat)
    requires f.size > 0 && Turn(f.size, o, size, i, offset, left) && i < Chunks(size, f.size)
    requires Position(f, k, o) + size <= f.size * m
    ensures offset < f.size && 0 < left <= size
    ensures i == Chunks(size, f.size) - 1 ==> offset + left <= f.size
    ensures i < Chunks(size, f.size) - 1 ==>
              f.size - offset <= left && k + i + 1 < m && Turn(f.size, o, size, i + 1, 0, left - (f.size - offset))
    ensures Position(f, k + i, offset) == Position(f, k, o) + (size - left)
  {
    hide Chunks;
    var s, n := f.size, Chunks(size, f.size);
    ChunksBound(size, s);
    Multiples(s, i, n - 1);
    Multiples(s, n - 1, n);
    Distribute(s, k, i);
    if i < n - 1 {
      Distribute(s, k + i, 1);
      LessFactor(s, k + i + 1, m);
    }
  }

  lemma Distribute(s: nat, k: nat, i: nat)
    ensures s * (k + i) == s * k + s * i
  {
  }

  lemma LessFactor(s: nat, x: nat, m: nat)
    requires s * x < s * m
    ensures x < m
  {
    if m <= x {
      Multiples(s, m, x);
      assert false;
    }
  }

  lemma FileParts(f: FlatFat, cs: seq<nat>)
    requires FileOf(f, cs)
    ensures AllInData(f, cs) && |Contents(f, cs)| == f.size * |cs|
  {
  }

  lemma FileStep(f: FlatFat, cs: seq<nat>, k: nat)
    requires FileOf(f, cs) && k < |cs|
    ensures InData(f, cs[k])
    ensures cs[k] < |f.table| && (k + 1 < |cs| ==> f.table[cs[k]] == cs[k + 1])
    ensures |f.clusters[cs[k]]| == f.size
  {
    ChainStep(f, cs[0], cs, k);
  }

  lemma FileRange(f: FlatFat, cs: seq<nat>, k: nat, o: nat, n: nat)
    requires FileOf(f, cs) && k < |cs| && o + n <= f.size
    ensures |f.clusters[cs[k]]| == f.size && Position(f, k, o) + n <= |Contents(f, cs)|
    ensures Contents(f, cs)[Position(f, k, o)..Position(f, k, o) + n] == f.clusters[cs[k]][o..o + n]
  {
    hide Contents, Chain;
    ContentsAt(f, cs, k, o, n);
  }

  lemma MountedSectors(v: Volume)
    requires Mounted(v)
    ensures v.header.bytesPerSector == SECTOR
  {
  }

  lemma RootSector(v: Volume, i: nat)
    requires Mounted(v) && i < RootSectors(v)
    ensures (RootStart(v) + i) % DWORD_LIMIT == RootStart(v) + i
    ensures ReadStart(RootStart(v) + i, 0) == SECTOR * (RootStart(v) + i)
    ensures SECTOR * (RootStart(v) + i) + SECTOR <= |v.image|
  {
    hide RootStart, Mounted;
    MountedSectors(v);
    assert 16 * i / 16 == i;
    RootWithin(v, 16 * i);
  }

  lemma EntryInBuffer(v: Volume, i: nat, j: nat, s: seq<byte>)
    requires Mounted(v) && i < RootSectors(v) && j < 16
    requires SECTOR * (RootStart(v) + i) + SECTOR <= |v.image|
    requires s == Slice(v.image, SECTOR * (RootStart(v) + i), SECTOR)
    ensures 16 * i + j < RootCount(v)
    ensures RootEntry(v, 16 * i + j) == Decode(s[ENTRY_SIZE * j..ENTRY_SIZE * (j + 1)])
  {
    hide RootStart, Decode, Slice;
    RootWithin(v, 16 * i + j);
    SubSlice(v.image, SECTOR * (RootStart(v) + i), SECTOR, ENTRY_SIZE * j, ENTRY_SIZE);
  }

  lemma DecodedName(s: seq<byte>)
    requires |s| == ENTRY_SIZE
    ensures Decode(s).name == s[..11]
  {
  }

  /** The first `n` bytes of the path have been copied and terminated. */
  predicate CopiedTo(fname: seq<byte>, t: seq<byte>, n: nat) {
    n < |fname| && n <= |t| && fname[..n] == t[..n] && fname[n] == 0
  }

  lemma CopiedNext(f: seq<byte>, g: seq<byte>, t: seq<byte>, n: nat)
    requires n < |t| && n + 1 < |f| && (0 < n ==> CopiedTo(f, t, n)) && g == f[n := t[n]][n + 1 := 0]
    ensures CopiedTo(g, t, n + 1)
  {
    assert t[..n + 1] == t[..n] + [t[n]];
    assert g[..n + 1] == f[..n] + [t[n]];
  }

  /** When the path's terminator is reached, the whole path has been copied. */
  lemma CopiedWhole(t: seq<byte>, n: nat, fname: seq<byte>, path: seq<byte>)
    requires Spells(path, 0, t) && SLASH !in t && 0 < |t| && n <= |t| < |path| && (path[n] == SLASH || path[n] == 0)
    requires 0 < n ==> CopiedTo(fname, t, n)
    ensures n == |t| && Spells(fname, 0, t)
  {
    SpelledBytes(path, t);
    assert forall k :: 0 <= k < |t| ==> t[k] in t;
    assert t[..|t|] == t;
    assert fname[0..0 + n] == fname[..n];
  }
}

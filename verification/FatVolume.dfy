/** The FAT16 volume `kernel/fs/fat.c` reads: the geometry it computes in 32-bit arithmetic, and the flat
    table, clusters and root directory that geometry denotes. */
module FatVolume {
  import opened Words
  import opened Disk
  import opened FileChains

  const ENTRY_SIZE: nat := 32                  // sizeof( fat_filedirectory_t )

  /** The boot-sector fields the reader uses. */
  datatype Header = Header(bytesPerSector: nat, sectorPerCluster: nat, reservedSector: nat, fatNumber: nat,
                           rootDirEntries: nat, sectorPerFat: nat)

  /** A disk image, the partition's first block and its header. */
  datatype Volume = Volume(image: seq<byte>, lbaStart: nat, header: Header)

  // ---------------------------------------------------------------- geometry, in 32-bit arithmetic

  function FatStart(v: Volume): nat {
    (v.lbaStart + v.header.reservedSector) % DWORD_LIMIT
  }

  function RootStart(v: Volume): nat {
    (FatStart(v) + v.header.fatNumber * v.header.sectorPerFat) % DWORD_LIMIT
  }

  function RootSectors(v: Volume): nat
    requires v.header.bytesPerSector >= ENTRY_SIZE
  {
    v.header.rootDirEntries / (v.header.bytesPerSector / ENTRY_SIZE)
  }

  function DataStart(v: Volume): nat
    requires v.header.bytesPerSector >= ENTRY_SIZE
  {
    (RootStart(v) + RootSectors(v)) % DWORD_LIMIT
  }

  function ClusterSize(v: Volume): nat {
    v.header.sectorPerCluster * v.header.bytesPerSector % DWORD_LIMIT
  }

  /** The block number computed for sector `i` of cluster `c`. */
  function ClusterSector(dataStart: nat, spc: nat, c: nat, i: nat): nat {
    (dataStart + (c - 2) % DWORD_LIMIT * spc + i) % DWORD_LIMIT
  }

  /** 512-byte sectors, a cluster below 64 KiB, and a disk that holds the tables and the root directory. */
  predicate Mounted(v: Volume) {
    var h := v.header;
    && |v.image| % SECTOR == 0 && |v.image| <= SECTOR * LBA_LIMIT
    && h.bytesPerSector == SECTOR && 1 <= h.sectorPerCluster < 128 && h.fatNumber >= 1
    && SECTOR * (v.lbaStart + h.reservedSector + h.fatNumber * h.sectorPerFat + h.rootDirEntries / 16) <= |v.image|
  }

  /** On a mounted volume no geometry computation wraps. */
  lemma Geometry(v: Volume)
    requires Mounted(v)
    ensures v.header.bytesPerSector == SECTOR && v.header.sectorPerCluster >= 1 && |v.image| <= SECTOR * LBA_LIMIT
    ensures FatStart(v) == v.lbaStart + v.header.reservedSector
    ensures RootStart(v) == FatStart(v) + v.header.fatNumber * v.header.sectorPerFat
    ensures DataStart(v) == RootStart(v) + RootSectors(v)
    ensures FatStart(v) + v.header.sectorPerFat <= RootStart(v)
    ensures SECTOR * DataStart(v) <= |v.image|
    ensures ClusterSize(v) == SECTOR * v.header.sectorPerCluster && SECTOR <= ClusterSize(v) < 0x1_0000
  {
    var h := v.header;
    var tables := h.fatNumber * h.sectorPerFat;
    AtLeastOne(h.fatNumber, h.sectorPerFat);
    assert FatStart(v) == v.lbaStart + h.reservedSector;
    assert RootStart(v) == FatStart(v) + tables;
    assert RootSectors(v) == h.rootDirEntries / 16;
  }

  lemma AtLeastOne(n: nat, m: nat)
    requires n >= 1
    ensures n * m >= m
  {
  }

  // ---------------------------------------------------------------- the flat view

  /** How many whole clusters the disk holds behind the root directory. */
  function ClusterCount(v: Volume): nat
    requires Mounted(v)
  {
    Geometry(v);
    (|v.image| / SECTOR - DataStart(v)) / v.header.sectorPerCluster
  }

  lemma WholeCluster(sectors: nat, start: nat, spc: nat, k: nat)
    requires start <= sectors && spc > 0 && k < (sectors - start) / spc
    ensures start + k * spc + spc <= sectors
  {
    var q := (sectors - start) / spc;
    assert (k + 1) * spc <= q * spc;
  }

  lemma TableWithin(v: Volume, c: nat)
    requires Mounted(v) && c < 256 * v.header.sectorPerFat
    ensures SECTOR * (FatStart(v) + c / 256) + SECTOR <= |v.image|
    ensures SECTOR * FatStart(v) + 2 * c + 1 < |v.image|
  {
    hide FatStart, RootStart, DataStart, ClusterSize;
    Geometry(v);
  }

  /** The place the code computes for cluster `c` lies on the disk; a reserved number's place may lie before it. */
  predicate OnDisk(v: Volume, c: nat)
    requires Mounted(v)
  {
    2 * v.header.sectorPerCluster <= DataStart(v) + c * v.header.sectorPerCluster && c < 2 + ClusterCount(v)
  }

  /** First byte of cluster `c`. */
  function ClusterAt(v: Volume, c: nat): nat
    requires Mounted(v) && OnDisk(v, c)
  {
    SECTOR * (DataStart(v) + c * v.header.sectorPerCluster - 2 * v.header.sectorPerCluster)
  }

  lemma ClusterWithin(v: Volume, c: nat)
    requires Mounted(v) && OnDisk(v, c)
    ensures ClusterAt(v, c) + ClusterSize(v) <= |v.image|
  {
    hide FatStart, RootStart, DataStart, ClusterSize;
    Geometry(v);
    var spc := v.header.sectorPerCluster;
    if c >= 2 {
      WholeCluster(|v.image| / SECTOR, DataStart(v), spc, c - 2);
      assert (c - 2) * spc == c * spc - 2 * spc;
    } else {
      assert c * spc <= spc;
    }
  }

  /** Data clusters follow one another from the end of the root directory. */
  lemma DataClusterAt(v: Volume, c: nat)
    requires Mounted(v) && 2 <= c < 2 + ClusterCount(v)
    ensures OnDisk(v, c) && ClusterAt(v, c) == SECTOR * DataStart(v) + ClusterSize(v) * (c - 2)
    ensures ClusterAt(v, c) == 512 * (v.lbaStart + v.header.reservedSector + v.header.fatNumber * v.header.sectorPerFat
                                      + v.header.rootDirEntries / 16 + (c - 2) * v.header.sectorPerCluster)
  {
    hide FatStart, RootStart, DataStart, ClusterSize;
    Geometry(v);
    var spc := v.header.sectorPerCluster;
    assert c * spc == (c - 2) * spc + 2 * spc && (c - 2) * spc >= 0;
    assert ClusterSize(v) * (c - 2) == SECTOR * ((c - 2) * spc);
  }

  function TableWord(v: Volume, c: nat): nat
    requires Mounted(v) && c < 256 * v.header.sectorPerFat
  {
    TableWithin(v, c);
    LittleEndian(v.image[SECTOR * FatStart(v) + 2 * c], v.image[SECTOR * FatStart(v) + 2 * c + 1])
  }

  function Cluster(v: Volume, c: nat): (s: seq<byte>)
    requires Mounted(v) && OnDisk(v, c)
    ensures |s| == ClusterSize(v)
  {
    ClusterWithin(v, c);
    Slice(v.image, ClusterAt(v, c), ClusterSize(v))
  }

  /** The first table as one array of words, and the clusters one after the other behind the root directory. */
  function FlatOf(v: Volume): (f: FlatFat)
    requires Mounted(v)
    ensures f.size == ClusterSize(v) && SECTOR <= f.size < 0x1_0000
  {
    Geometry(v);
    FlatFat(
      seq(256 * v.header.sectorPerFat, c requires 0 <= c < 256 * v.header.sectorPerFat => TableWord(v, c)),
      seq(2 + ClusterCount(v), c requires 0 <= c < 2 + ClusterCount(v) =>
            if OnDisk(v, c) then Cluster(v, c) else []),
      ClusterSize(v))
  }

  /** Word `c % 256` of the table's sector `c / 256` is entry `c` of the flat table. */
  lemma EntryInSector(v: Volume, c: nat)
    requires Mounted(v) && c < |FlatOf(v).table|
    ensures SECTOR * (FatStart(v) + c / 256) + SECTOR <= |v.image|
    ensures var s := Slice(v.image, SECTOR * (FatStart(v) + c / 256), SECTOR);
            FlatOf(v).table[c] == LittleEndian(s[2 * (c % 256)], s[2 * (c % 256) + 1])
  {
    TableWithin(v, c);
    WordInSlice(v.image, FatStart(v), c);
    assert FlatOf(v).table[c] == TableWord(v, c);
  }

  lemma WordInSlice(image: seq<byte>, start: nat, c: nat)
    requires SECTOR * (start + c / 256) + SECTOR <= |image| && SECTOR * start + 2 * c + 1 < |image|
    ensures var s := Slice(image, SECTOR * (start + c / 256), SECTOR);
            s[2 * (c % 256)] == image[SECTOR * start + 2 * c] && s[2 * (c % 256) + 1] == image[SECTOR * start + 2 * c + 1]
  {
    var o := 2 * (c % 256);
    assert SECTOR * (start + c / 256) + o == SECTOR * start + 2 * c;
  }

  /** The computed block is the cluster's i-th sector, on the disk, and its computation never wraps. */
  lemma SectorInCluster(v: Volume, c: nat, i: nat)
    requires Mounted(v) && InData(FlatOf(v), c) && i < v.header.sectorPerCluster
    ensures var block := ClusterSector(DataStart(v), v.header.sectorPerCluster, c, i);
            && block < LBA_LIMIT && SECTOR * block + SECTOR <= |v.image|
            && SECTOR * (i + 1) <= |FlatOf(v).clusters[c]|
            && Slice(v.image, SECTOR * block, SECTOR) == FlatOf(v).clusters[c][SECTOR * i..SECTOR * (i + 1)]
  {
    hide FatStart, RootStart, DataStart, ClusterSize, Slice, Mounted, ClusterCount, OnDisk, ClusterSector;
    Geometry(v);
    InDataOnDisk(v, c);
    ClusterWithin(v, c);
    BlockIsExact(|v.image|, DataStart(v), v.header.sectorPerCluster, c, i);
    SubSlice(v.image, ClusterAt(v, c), ClusterSize(v), SECTOR * i, SECTOR);
  }

  lemma InDataOnDisk(v: Volume, c: nat)
    requires Mounted(v) && InData(FlatOf(v), c)
    ensures OnDisk(v, c) && FlatOf(v).clusters[c] == Cluster(v, c)
    ensures 2 * v.header.sectorPerCluster <= DataStart(v) + c * v.header.sectorPerCluster
  {
    hide FatStart, RootStart, DataStart, ClusterSize, Slice, ClusterCount;
  }

  /** Written with a 32-bit `c - 2`, the block number comes out right for the reserved numbers too. */
  lemma BlockIsExact(bytes: nat, start: nat, spc: nat, c: nat, i: nat)
    requires c < NO_CLUSTER && i < spc && bytes <= SECTOR * LBA_LIMIT && 2 * spc <= start + c * spc
    requires SECTOR * (start + c * spc - 2 * spc) + SECTOR * spc <= bytes
    ensures ClusterSector(start, spc, c, i) == start + c * spc - 2 * spc + i < LBA_LIMIT
    ensures SECTOR * ClusterSector(start, spc, c, i) == SECTOR * (start + c * spc - 2 * spc) + SECTOR * i
  {
    var first := start + c * spc - 2 * spc;
    SmallSum(bytes, 0, first, spc, i);
    if c >= 2 {
      assert (c - 2) % DWORD_LIMIT == c - 2;
      assert (c - 2) * spc == c * spc - 2 * spc;
    } else {
      assert (c - 2) % DWORD_LIMIT == DWORD_LIMIT + c - 2;
      assert (DWORD_LIMIT + c - 2) * spc == spc * DWORD_LIMIT + (c * spc - 2 * spc);
      WholeTurns(first + i, spc);
    }
  }

  lemma WholeTurns(x: nat, n: nat)
    requires x < DWORD_LIMIT
    ensures (n * DWORD_LIMIT + x) % DWORD_LIMIT == x
    decreases n
  {
    if n > 0 {
      WholeTurns(x, n - 1);
      assert (n * DWORD_LIMIT + x) == ((n - 1) * DWORD_LIMIT + x) + DWORD_LIMIT;
    }
  }

  lemma SmallSum(bytes: nat, start: nat, p: nat, spc: nat, i: nat)
    requires i < spc && bytes <= SECTOR * LBA_LIMIT && SECTOR * (start + p) + SECTOR * spc <= bytes
    ensures (start + p + i) % DWORD_LIMIT == start + p + i < LBA_LIMIT
  {
  }

  // ---------------------------------------------------------------- the root directory

  /** The fields of a directory entry the reader uses. */
  datatype DirEntry = DirEntry(name: seq<byte>, attributes: nat, highCluster: nat, lowCluster: nat, size: nat)

  const ZERO_ENTRY: DirEntry := DirEntry([0, 0, 0, 0, 0, 0, 0, 0, 0, 0, 0], 0, 0, 0, 0)

  function Decode(s: seq<byte>): DirEntry
    requires |s| == ENTRY_SIZE
  {
    DirEntry(s[..11], s[11], LittleEndian(s[20], s[21]), LittleEndian(s[26], s[27]),
             LittleEndian(s[28], s[29]) + 0x1_0000 * LittleEndian(s[30], s[31]))
  }

  /** The number of root entries that are searched: those of the whole sectors. */
  function RootCount(v: Volume): nat
    requires Mounted(v)
  {
    16 * RootSectors(v)
  }

  lemma RootWithin(v: Volume, k: nat)
    requires Mounted(v) && k < RootCount(v)
    ensures SECTOR * (RootStart(v) + k / 16) + SECTOR <= |v.image|
    ensures SECTOR * RootStart(v) + ENTRY_SIZE * k + ENTRY_SIZE <= |v.image|
    ensures RootStart(v) + k / 16 < LBA_LIMIT
  {
    hide FatStart, RootStart, DataStart, ClusterSize;
    Geometry(v);
  }

  /** Entry `k` of the root directory. */
  function RootEntry(v: Volume, k: nat): DirEntry
    requires Mounted(v) && k < RootCount(v)
  {
    RootWithin(v, k);
    Decode(Slice(v.image, SECTOR * RootStart(v) + ENTRY_SIZE * k, ENTRY_SIZE))
  }

  /** What a search for `name` returns: the first entry of that name, all zeros when there is none. */
  ghost predicate Finds(v: Volume, name: seq<byte>, entry: DirEntry)
    requires Mounted(v)
  {
    || (exists k: nat :: k < RootCount(v) && RootEntry(v, k) == entry && entry.name == name
                      && forall j: nat :: j < k ==> RootEntry(v, j).name != name)
    || (entry == ZERO_ENTRY && forall j: nat :: j < RootCount(v) ==> RootEntry(v, j).name != name)
  }

  /** A search has one answer. */
  lemma FindsOne(v: Volume, name: seq<byte>, a: DirEntry, b: DirEntry)
    requires Mounted(v) && Finds(v, name, a) && Finds(v, name, b)
    ensures a == b
  {
    hide RootEntry, RootCount, Mounted;
  }

  /** The first cluster an entry names. */
  function FirstCluster(e: DirEntry): nat {
    e.highCluster * 0x1_0000 + e.lowCluster
  }

  // ---------------------------------------------------------------- places on the disk, from the header fields alone

  /** First sector of the data area: behind the reserved sectors, the tables and the root directory. */
  function DataSector(v: Volume): nat {
    v.lbaStart + v.header.reservedSector + v.header.fatNumber * v.header.sectorPerFat + v.header.rootDirEntries / 16
  }

  /** Entry `c` of the table is the word at byte 2 * c behind the reserved sectors, low byte first. */
  lemma TableInBytes(v: Volume, c: nat)
    requires Mounted(v) && c < 256 * v.header.sectorPerFat
    ensures |FlatOf(v).table| == 256 * v.header.sectorPerFat
    ensures var e := 512 * (v.lbaStart + v.header.reservedSector) + 2 * c;
      e + 1 < |v.image| && FlatOf(v).table[c] == v.image[e] as int + 0x100 * v.image[e + 1] as int
  {
    hide ClusterSize, DataStart, RootStart, Mounted;
    Geometry(v);
    TableWithin(v, c);
  }

  /** First byte of data cluster `c`: cluster 2 is first, and each is sectorPerCluster sectors behind the one before. */
  function ClusterByte(v: Volume, c: nat): nat
    requires c >= 2
  {
    512 * (DataSector(v) + (c - 2) * v.header.sectorPerCluster)
  }

  /** Cluster `c` is the 512 * sectorPerCluster bytes from there on. */
  lemma ClusterInBytes(v: Volume, c: nat)
    requires Mounted(v) && 2 <= c < |FlatOf(v).clusters|
    ensures FlatOf(v).size == 512 * v.header.sectorPerCluster
    ensures ClusterByte(v, c) + FlatOf(v).size <= |v.image|
    ensures FlatOf(v).clusters[c] == v.image[ClusterByte(v, c)..ClusterByte(v, c) + FlatOf(v).size]
  {
    hide FatStart, RootStart, DataStart, ClusterSize, RootSectors, Mounted, ClusterAt;
    Geometry(v);
    FlatCount(v);
    DataExactly(v);
    DataClusterAt(v, c);
    ClusterWithin(v, c);
    SameByte(v, c);
  }

  lemma SameByte(v: Volume, c: nat)
    requires c >= 2 && v.header.bytesPerSector >= ENTRY_SIZE && DataStart(v) == DataSector(v)
    requires ClusterSize(v) == SECTOR * v.header.sectorPerCluster
    ensures SECTOR * DataStart(v) + ClusterSize(v) * (c - 2) == ClusterByte(v, c)
  {
    hide DataStart, ClusterSize, DataSector;
    var spc := v.header.sectorPerCluster;
    assert ClusterSize(v) * (c - 2) == 512 * ((c - 2) * spc);
  }

  /** As many clusters as the rest of the disk holds, behind the two reserved numbers. */
  lemma FlatCount(v: Volume)
    requires Mounted(v)
    ensures |FlatOf(v).clusters| == 2 + ClusterCount(v)
    ensures DataSector(v) <= |v.image| / 512 && |FlatOf(v).clusters| == 2 + (|v.image| / 512 - DataSector(v)) / v.header.sectorPerCluster
  {
    hide FatStart, RootStart, DataStart, ClusterSize, RootSectors, Mounted, DataSector;
    Geometry(v);
    RootSectorsExactly(v);
    DataExactly(v);
  }

  lemma DataExactly(v: Volume)
    requires Mounted(v)
    ensures DataStart(v) == DataSector(v)
  {
    hide FatStart, RootStart, DataStart, ClusterSize;
    Geometry(v);
    RootSectorsExactly(v);
  }

  lemma RootSectorsExactly(v: Volume)
    requires Mounted(v)
    ensures RootSectors(v) == v.header.rootDirEntries / 16 && RootCount(v) == 16 * (v.header.rootDirEntries / 16)
  {
  }

  /** First byte of root entry `k`. */
  function EntryByte(v: Volume, k: nat): nat {
    512 * (v.lbaStart + v.header.reservedSector + v.header.fatNumber * v.header.sectorPerFat) + 32 * k
  }

  /** The search covers the entries of the whole root sectors, and reads each field at its bytes. */
  lemma EntryInBytes(v: Volume, k: nat)
    requires Mounted(v) && k < 16 * (v.header.rootDirEntries / 16)
    ensures k < RootCount(v) == 16 * (v.header.rootDirEntries / 16) && EntryByte(v, k) + 32 <= |v.image|
    ensures RootEntry(v, k) == FieldsAt(v, k)
  {
    hide RootStart, FatStart, DataStart, ClusterSize, Mounted;
    Geometry(v);
    RootSectorsExactly(v);
    RootWithin(v, k);
    var e := EntryByte(v, k);
    var s := Slice(v.image, e, ENTRY_SIZE);
    assert s[..11] == v.image[e..e + 11];
    assert forall j :: 0 <= j < 32 ==> s[j] == v.image[e + j];
  }

  /** The name, the attributes, the two words of the first cluster and the size, spelled out in bytes. */
  function FieldsAt(v: Volume, k: nat): DirEntry
    requires EntryByte(v, k) + 32 <= |v.image|
  {
    var e, m := EntryByte(v, k), v.image;
    DirEntry(m[e..e + 11], m[e + 11], m[e + 20] as int + 0x100 * m[e + 21] as int, m[e + 26] as int + 0x100 * m[e + 27] as int,
             m[e + 28] as int + 0x100 * m[e + 29] as int + 0x1_0000 * m[e + 30] as int + 0x100_0000 * m[e + 31] as int)
  }

  /** The eleven bytes at root entry `k` are `name`. */
  predicate NamedAt(v: Volume, name: seq<byte>, k: nat) {
    EntryByte(v, k) + 32 <= |v.image| && v.image[EntryByte(v, k)..EntryByte(v, k) + 11] == name
  }

  /** Root entry `k` is the first of that name. */
  ghost predicate FirstNamed(v: Volume, name: seq<byte>, k: nat) {
    k < 16 * (v.header.rootDirEntries / 16) && NamedAt(v, name, k) && forall j: nat :: j < k ==> !NamedAt(v, name, j)
  }

  /** What a search finds, from the bytes of the disk. */
  lemma FoundInBytes(v: Volume, name: seq<byte>, entry: DirEntry)
    requires Mounted(v) && Finds(v, name, entry)
    ensures forall k: nat :: FirstNamed(v, name, k) ==> EntryByte(v, k) + 32 <= |v.image| && entry == FieldsAt(v, k)
    ensures (forall k: nat :: k < 16 * (v.header.rootDirEntries / 16) ==> !NamedAt(v, name, k)) ==>
      entry == DirEntry([0, 0, 0, 0, 0, 0, 0, 0, 0, 0, 0], 0, 0, 0, 0)
  {
    hide RootEntry, Mounted, FieldsAt, EntryByte;
    forall k: nat | k < 16 * (v.header.rootDirEntries / 16)
      ensures k < RootCount(v) && (NamedAt(v, name, k) <==> RootEntry(v, k).name == name)
      ensures EntryByte(v, k) + 32 <= |v.image| && RootEntry(v, k) == FieldsAt(v, k)
    {
      EntryInBytes(v, k);
      FieldName(v, k);
    }
    RootSectorsExactly(v);
    forall k: nat | FirstNamed(v, name, k) ensures EntryByte(v, k) + 32 <= |v.image| && entry == FieldsAt(v, k) {
      assert Finds(v, name, RootEntry(v, k));
      FindsOne(v, name, entry, RootEntry(v, k));
    }
  }

  lemma FieldName(v: Volume, k: nat)
    requires EntryByte(v, k) + 32 <= |v.image|
    ensures FieldsAt(v, k).name == v.image[EntryByte(v, k)..EntryByte(v, k) + 11]
  {
  }

  /** What an entry's chain delivers is empty exactly when the entry's first cluster is an end mark. The size is not
      looked at, so an empty file, whose entry names cluster 0, delivers something; and so does the zeroed entry that
      a search which finds nothing leaves. */
  lemma EntryDeliversNothingIff(v: FlatFat, e: DirEntry, cs: seq<nat>)
    requires Chain(v, FirstCluster(e), cs) && v.size > 0
    ensures AllInData(v, cs) && (Contents(v, cs) == [] <==> FirstCluster(e) >= 0xFFF8)
    ensures e == ZERO_ENTRY ==> Contents(v, cs) != []
  {
    hide Chain, Contents, InData;
    DeliversNothingIff(v, FirstCluster(e), cs);
  }
}

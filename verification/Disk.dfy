/** `kernel/fs/disk.c`: the primary ATA disk read through its address registers and data port. */
module Disk {
  import opened Words

  const SECTOR: nat := 512
  const LBA_LIMIT: nat := 0x1000_0000          // 28 address bits reach the drive

  /** `image[start..start + size]`. */
  function Slice(image: seq<byte>, start: nat, size: nat): (s: seq<byte>)
    requires start + size <= |image|
    ensures |s| == size
  {
    image[start..start + size]
  }

  lemma SliceIs(image: seq<byte>, start: nat, size: nat)
    requires start + size <= |image|
    ensures Slice(image, start, size) == image[start..start + size]
  {
  }

  lemma SubSlice(image: seq<byte>, start: nat, size: nat, o: nat, n: nat)
    requires start + size <= |image| && o + n <= size
    ensures Slice(image, start, size)[o..o + n] == Slice(image, start + o, n)
  {
    var a, b := Slice(image, start, size)[o..o + n], Slice(image, start + o, n);
    forall k | 0 <= k < n ensures a[k] == b[k] {
      assert a[k] == image[start..start + size][o + k] == image[start + o + k];
    }
  }

  lemma StillWithin(image: seq<byte>, lba: nat, offset: nat, size: nat)
    requires |image| % SECTOR == 0 && |image| <= SECTOR * LBA_LIMIT && size > 0
    requires ReadStart(lba, offset) + size <= |image|
    ensures lba < LBA_LIMIT && SECTOR * (lba + 1) <= |image|
  {
  }

  /** After the bytes of one sector are taken, the read continues at the start of the next. */
  lemma ReadNext(lba: nat, offset: nat, size: nat)
    ensures offset < SECTOR ==> ReadStart(lba, offset) == SECTOR * lba + offset
    ensures ReadStart(lba + 1, 0) == ReadStart(lba, offset) + if offset >= SECTOR then 0 else SECTOR - offset
  {
  }

  /** Buffer contents `was` with `s` stored at `at`. */
  function Stored(was: seq<byte>, at: nat, s: seq<byte>): (r: seq<byte>)
    requires at + |s| <= |was|
    ensures |r| == |was|
  {
    was[..at] + s + was[at + |s|..]
  }

  lemma StoredWhole(was: seq<byte>, s: seq<byte>)
    requires |s| == |was|
    ensures Stored(was, 0, s) == s
  {
  }

  lemma StoredNone(was: seq<byte>, at: nat, file: seq<byte>, p: nat)
    requires at <= |was| && p <= |file|
    ensures Stored(was, at, file[p..p]) == was
  {
  }

  /** Storing the next bytes of a file behind those already stored. */
  lemma StoredNext(was: seq<byte>, b: seq<byte>, c: seq<byte>, at: nat, file: seq<byte>, p: nat, q: nat, n: nat)
    requires p <= q && q + n <= |file| && at + (q + n - p) <= |was| == |b|
    requires b == Stored(was, at, file[p..q])
    requires c == Stored(b, at + (q - p), file[q..q + n])
    ensures c == Stored(was, at, file[p..q + n])
  {
    assert file[p..q + n] == file[p..q] + file[q..q + n];
    assert b[..at + (q - p)] == was[..at] + file[p..q];
    assert b[at + (q + n - p)..] == was[at + (q + n - p)..];
  }

  function LittleEndian(low: byte, high: byte): (w: nat)
    ensures w < 0x10000
  {
    low + 0x100 * high
  }

  /** Where a read at `offset` into sector `lba` starts: an offset past the sector is cut to its end. */
  function ReadStart(lba: nat, offset: nat): nat {
    SECTOR * lba + if offset < SECTOR then offset else SECTOR
  }

  /** The four address fields together hold the low 28 bits of a block number. */
  lemma AddressFields(lba: nat)
    ensures lba / 0x100_0000 % 0x10 * 0x100_0000 + lba / 0x1_0000 % 0x100 * 0x1_0000
          + lba / 0x100 % 0x100 * 0x100 + lba % 0x100 == lba % LBA_LIMIT
  {
    var a, b, c := lba / 0x100, lba / 0x1_0000, lba / 0x100_0000;
    assert b == a / 0x100 && c == b / 0x100;
    var q := c / 0x10;
    assert lba == q * LBA_LIMIT + (c % 0x10 * 0x100_0000 + b % 0x100 * 0x1_0000 + a % 0x100 * 0x100 + lba % 0x100);
    Quotient(lba, q, c % 0x10 * 0x100_0000 + b % 0x100 * 0x1_0000 + a % 0x100 * 0x100 + lba % 0x100, LBA_LIMIT);
  }

  class AtaDisk {
    const image: seq<byte>
    const tmpBuffer: array<byte>
    // what the ports hold
    var drive: nat
    var lbaLow: nat
    var lbaMid: nat
    var lbaHigh: nat
    var pending: seq<byte>

    ghost predicate Valid()
      reads this
    {
      tmpBuffer.Length == SECTOR && |image| % SECTOR == 0 && |image| <= SECTOR * LBA_LIMIT
    }

    constructor (contents: seq<byte>)
      requires |contents| % SECTOR == 0 && |contents| <= SECTOR * LBA_LIMIT
      ensures Valid() && image == contents && fresh(tmpBuffer)
    {
      image := contents;
      tmpBuffer := new byte[SECTOR];
      drive, lbaLow, lbaMid, lbaHigh := 0xE0, 0, 0, 0;
      pending := [];
    }

    /** `ata_init_pio` and the read command: the drive takes four bits of the address from its drive
        register and eight from each address register, then offers that sector at the data port. */
    method StartRead(lba: nat)
      requires Valid() && SECTOR * (lba % LBA_LIMIT + 1) <= |image|
      modifies this
      ensures pending == Slice(image, SECTOR * (lba % LBA_LIMIT), SECTOR)
    {
      drive := 0xE0 + lba / 0x100_0000 % 0x10;
      lbaLow := lba % 0x100;
      lbaMid := lba / 0x100 % 0x100;
      lbaHigh := lba / 0x1_0000 % 0x100;
      var address := (drive - 0xE0) * 0x100_0000 + lbaHigh * 0x1_0000 + lbaMid * 0x100 + lbaLow;
      AddressFields(lba);
      pending := image[SECTOR * address..SECTOR * address + SECTOR];
    }

    /** One `port_inw` on the data port. */
    method DataWord() returns (w: nat)
      requires |pending| >= 2
      modifies `pending
      ensures w == LittleEndian(old(pending)[0], old(pending)[1])
      ensures pending == old(pending)[2..]
    {
      w := LittleEndian(pending[0], pending[1]);
      pending := pending[2..];
    }

    /** The word loop: the sector lands in the static buffer. */
    method FillTmpBuffer(lba: nat)
      requires Valid() && lba < LBA_LIMIT && SECTOR * (lba + 1) <= |image|
      modifies this, tmpBuffer
      ensures tmpBuffer[..] == Slice(image, SECTOR * lba, SECTOR)
    {
      StartRead(lba);
      ghost var sector := pending;
      var i := 0;
      while i < 256
        invariant i <= 256 && pending == sector[2 * i..]
        invariant forall k :: 0 <= k < 2 * i ==> tmpBuffer[k] == sector[k]
      {
        var w := DataWord();
        tmpBuffer[2 * i] := w % 0x100;
        tmpBuffer[2 * i + 1] := w / 0x100;
        i := i + 1;
      }
      assert tmpBuffer[..] == sector;
    }

    /** The copying loop over one sector: everything from `offset`, or `size` bytes if those are fewer. */
    method CopyOut(offset: nat, buffer: array<byte>, at: nat, size: nat) returns (n: nat)
      requires Valid() && buffer != tmpBuffer && at + size <= buffer.Length
      modifies buffer
      ensures n == (if offset >= SECTOR then 0 else if size < SECTOR - offset then size else SECTOR - offset)
      ensures buffer[..at] == old(buffer[..at]) && buffer[at + n..] == old(buffer[at + n..])
      ensures n > 0 ==> buffer[at..at + n] == tmpBuffer[offset..offset + n]
    {
      n := 0;
      var i := offset;
      while i < SECTOR && n < size
        invariant i == offset + n && n <= size && (n > 0 ==> i <= SECTOR)
        invariant forall k :: 0 <= k < buffer.Length && (k < at || at + n <= k) ==> buffer[k] == old(buffer[k])
        invariant n > 0 ==> buffer[at..at + n] == tmpBuffer[offset..offset + n]
      {
        buffer[at + n] := tmpBuffer[i];
        n := n + 1;
        i := i + 1;
        assert buffer[at..at + n] == buffer[at..at + (n - 1)] + [tmpBuffer[i - 1]];
        assert tmpBuffer[offset..offset + n] == tmpBuffer[offset..offset + (n - 1)] + [tmpBuffer[i - 1]];
      }
    }

    /** One turn of the outer loop: the sector is fetched and its part of the range copied out. */
    method TakeSector(lba: nat, offset: nat, buffer: array<byte>, at: nat, size: nat) returns (n: nat)
      requires Valid() && buffer != tmpBuffer && at + size <= buffer.Length && size > 0
      requires ReadStart(lba, offset) + size <= |image|
      modifies this, tmpBuffer, buffer
      ensures n == (if offset >= SECTOR then 0 else if size < SECTOR - offset then size else SECTOR - offset)
      ensures buffer[..] == Stored(old(buffer[..]), at, image[ReadStart(lba, offset)..ReadStart(lba, offset) + n])
    {
      hide Slice;
      StillWithin(image, lba, offset, size);
      FillTmpBuffer(lba);
      ghost var sector := tmpBuffer[..];
      n := CopyOut(offset, buffer, at, size);
      if n > 0 {
        SubSlice(image, SECTOR * lba, SECTOR, offset, n);
        assert tmpBuffer[offset..offset + n] == sector[offset..offset + n];
        SliceIs(image, ReadStart(lba, offset), n);
      }
      assert buffer[..] == buffer[..at] + buffer[at..at + n] + buffer[at + n..];
    }

    /** Reading `size` bytes from `offset` into sector `lba` stores that slice of the disk at `at`. */
    method ReadDisk(lba0: nat, offset0: nat, buffer: array<byte>, at: nat, size0: nat)
      requires Valid() && buffer != tmpBuffer && at + size0 <= buffer.Length
      requires lba0 < DWORD_LIMIT && offset0 < 0x8000_0000
      requires ReadStart(lba0, offset0) + size0 <= |image|
      modifies this, tmpBuffer, buffer
      ensures buffer[..] == Stored(old(buffer[..]), at, Slice(image, ReadStart(lba0, offset0), size0))
    {
      hide Slice, ReadStart, Stored;
      var lba: nat, offset: nat, size: nat := lba0, offset0, size0;
      ghost var was, start := buffer[..], ReadStart(lba0, offset0);
      var to := at;
      StoredNone(was, at, image, start);
      while size > 0
        invariant to + size == at + size0 && to >= at
        invariant size > 0 ==> ReadStart(lba, offset) == start + (to - at)
        invariant buffer[..] == Stored(was, at, image[start..start + (to - at)])
        decreases size, offset
      {
        hide Slice, ReadStart, Stored;
        StillWithin(image, lba, offset, size);
        ghost var before := buffer[..];
        var n := TakeSector(lba, offset, buffer, to, size);
        StoredNext(was, before, buffer[..], at, image, start, start + (to - at), n);
        ReadNext(lba, offset, size);
        to := to + n;
        size := size - n;
        offset := 0;
        lba := (lba + 1) % DWORD_LIMIT;
      }
      SliceIs(image, start, size0);
    }
  }
}

/** The frame bitmap as bytes, and the plain sequence of marks it stands for. */
module Bitmap {
  import opened PageTables

  const BITMAP_SIZE: nat := 0x1000

  /** `(b >> j) & 1`. */
  predicate Bit(b: bv8, j: nat)
    requires j < 8
  {
    (b >> j) & 1 == 1
  }

  /** `b | 1 << j`. */
  function WithBit(b: bv8, j: nat): (r: bv8)
    requires j < 8
  {
    b | ((1 as bv8) << j)
  }

  /** `b & ~(1 << j)`. */
  function WithoutBit(b: bv8, j: nat): (r: bv8)
    requires j < 8
  {
    b & !((1 as bv8) << j)
  }

  /** Bit 0 is the lowest. */
  lemma ByteMasks(b: bv8)
    ensures Bit(b, 0) == (b & 0x01 != 0) && WithBit(b, 0) == b | 0x01 && WithoutBit(b, 0) == b & 0xFE
    ensures Bit(b, 1) == (b & 0x02 != 0) && WithBit(b, 1) == b | 0x02 && WithoutBit(b, 1) == b & 0xFD
    ensures Bit(b, 2) == (b & 0x04 != 0) && WithBit(b, 2) == b | 0x04 && WithoutBit(b, 2) == b & 0xFB
    ensures Bit(b, 3) == (b & 0x08 != 0) && WithBit(b, 3) == b | 0x08 && WithoutBit(b, 3) == b & 0xF7
    ensures Bit(b, 4) == (b & 0x10 != 0) && WithBit(b, 4) == b | 0x10 && WithoutBit(b, 4) == b & 0xEF
    ensures Bit(b, 5) == (b & 0x20 != 0) && WithBit(b, 5) == b | 0x20 && WithoutBit(b, 5) == b & 0xDF
    ensures Bit(b, 6) == (b & 0x40 != 0) && WithBit(b, 6) == b | 0x40 && WithoutBit(b, 6) == b & 0xBF
    ensures Bit(b, 7) == (b & 0x80 != 0) && WithBit(b, 7) == b | 0x80 && WithoutBit(b, 7) == b & 0x7F
  {
  }

  lemma WithBitEffect(b: bv8, j: nat, k: nat)
    requires j < 8 && k < 8
    ensures Bit(WithBit(b, j), k) == (k == j || Bit(b, k))
  {
    BitOfOr(b, (1 as bv8) << j, k);
    OneBit(j, k);
  }

  lemma BitOfOr(b: bv8, m: bv8, k: nat)
    requires k < 8
    ensures Bit(b | m, k) == (Bit(b, k) || Bit(m, k))
  {
    if k < 4 {
      if k < 2 {
        assert k == 0 || k == 1;
      } else {
        assert k == 2 || k == 3;
      }
    } else if k < 6 {
      assert k == 4 || k == 5;
    } else {
      assert k == 6 || k == 7;
    }
  }

  lemma BitOfAndNot(b: bv8, m: bv8, k: nat)
    requires k < 8
    ensures Bit(b & !m, k) == (Bit(b, k) && !Bit(m, k))
  {
    if k < 4 {
      if k < 2 {
        assert k == 0 || k == 1;
      } else {
        assert k == 2 || k == 3;
      }
    } else if k < 6 {
      assert k == 4 || k == 5;
    } else {
      assert k == 6 || k == 7;
    }
  }

  lemma OneBit(j: nat, k: nat)
    requires j < 8 && k < 8
    ensures Bit((1 as bv8) << j, k) == (k == j)
  {
  }

  lemma WithoutBitEffect(b: bv8, j: nat, k: nat)
    requires j < 8 && k < 8
    ensures Bit(WithoutBit(b, j), k) == (k != j && Bit(b, k))
  {
    BitOfAndNot(b, (1 as bv8) << j, k);
    OneBit(j, k);
  }

  lemma FullByte(b: bv8)
    ensures b == 0xFF <==> forall j :: 0 <= j < 8 ==> Bit(b, j)
  {
    if forall j :: 0 <= j < 8 ==> Bit(b, j) {
      assert Bit(b, 0) && Bit(b, 1) && Bit(b, 2) && Bit(b, 3) && Bit(b, 4) && Bit(b, 5) && Bit(b, 6) && Bit(b, 7);
    }
  }

  lemma ZeroByte(j: nat)
    requires j < 8
    ensures !Bit(0, j)
  {
  }

  /** Mark k of the bitmap is bit k % 8 of byte k / 8. */
  function Bits(bytes: seq<bv8>): (marks: seq<bool>)
    ensures |marks| == 8 * |bytes|
  {
    seq(8 * |bytes|, k requires 0 <= k < 8 * |bytes| => Bit(bytes[k / 8], k % 8))
  }

  lemma BitsSet(bytes: seq<bv8>, i: nat, j: nat)
    requires i < |bytes| && j < 8
    ensures Bits(bytes[i := WithBit(bytes[i], j)]) == Bits(bytes)[8 * i + j := true]
  {
    hide WithBit, Bit;
    var a, b := Bits(bytes[i := WithBit(bytes[i], j)]), Bits(bytes)[8 * i + j := true];
    forall k | 0 <= k < 8 * |bytes| ensures a[k] == b[k] {
      WithBitEffect(bytes[i], j, k % 8);
      assert k / 8 == i && k % 8 == j <==> k == 8 * i + j;
    }
  }

  lemma BitsClear(bytes: seq<bv8>, i: nat, j: nat)
    requires i < |bytes| && j < 8
    ensures Bits(bytes[i := WithoutBit(bytes[i], j)]) == Bits(bytes)[8 * i + j := false]
  {
    hide WithoutBit, Bit;
    var a, b := Bits(bytes[i := WithoutBit(bytes[i], j)]), Bits(bytes)[8 * i + j := false];
    forall k | 0 <= k < 8 * |bytes| ensures a[k] == b[k] {
      WithoutBitEffect(bytes[i], j, k % 8);
      assert k / 8 == i && k % 8 == j <==> k == 8 * i + j;
    }
  }

  lemma BitAt(bytes: seq<bv8>, i: nat, j: nat)
    requires i < |bytes| && j < 8
    ensures Bits(bytes)[8 * i + j] == Bit(bytes[i], j)
  {
    hide Bit;
    assert (8 * i + j) / 8 == i && (8 * i + j) % 8 == j;
  }

  lemma FreeCountNext(used: seq<bool>, k: nat)
    requires k < |used|
    ensures FreeCount(used[..k + 1]) == FreeCount(used[..k]) + (if used[k] then 0 else 1)
  {
    assert used[..k + 1][..k] == used[..k];
  }

  lemma {:induction false} FreeCountFull(used: seq<bool>, k: nat, n: nat)
    requires k + n <= |used| && forall j :: k <= j < k + n ==> used[j]
    ensures FreeCount(used[..k + n]) == FreeCount(used[..k])
  {
    if n > 0 {
      FreeCountFull(used, k, n - 1);
      FreeCountNext(used, k + n - 1);
    }
  }
}

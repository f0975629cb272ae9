/** Machine words as natural numbers, and the two bit operations the page code applies to table entries. */
module Words {
  type byte = x: int | 0 <= x < 0x100

  const WORD_LIMIT: nat := 0x1_0000_0000_0000_0000
  const DWORD_LIMIT: nat := 0x1_0000_0000
  const PAGE_SIZE: nat := 0x1000

  /** Quotient and remainder, from a decomposition. */
  lemma Quotient(x: nat, q: nat, r: nat, m: nat)
    requires x == q * m + r && r < m
    ensures x / m == q && x % m == r
  {
    SameQuotient(x / m, x % m, q, r, m);
  }

  lemma SameQuotient(d: nat, e: nat, q: nat, r: nat, m: nat)
    requires d * m + e == q * m + r && e < m && r < m
    ensures d == q && e == r
  {
    if d < q {
      Product(d + 1, q, m);
    } else if q < d {
      Product(q + 1, d, m);
    }
  }

  lemma Product(a: nat, b: nat, m: nat)
    requires 0 < a <= b
    ensures a * m <= b * m && a * m == (a - 1) * m + m
  {
    assert (b - a) * m >= 0;
    assert b * m == a * m + (b - a) * m;
  }

  /** Bitwise `|` on words. */
  function BitOr(a: nat, b: nat): nat
    decreases a
  {
    if a == 0 then b else 2 * BitOr(a / 2, b / 2) + (if a % 2 == 1 || b % 2 == 1 then 1 else 0)
  }

  /** `x & ~0x1FF`: how the kernel recovers an address from a table entry. */
  function ClearLowNine(x: nat): nat {
    x - x % 0x200
  }

  function Pow2(k: nat): (r: nat)
    ensures r > 0
  {
    if k == 0 then 1 else 2 * Pow2(k - 1)
  }

  lemma {:induction false} BitOrZero(a: nat)
    ensures BitOr(a, 0) == a
  {
    if a != 0 {
      BitOrZero(a / 2);
    }
  }

  /** Or-ing a value that fits below the lowest set bit of the other operand is addition. */
  lemma {:induction false} BitOrDisjoint(k: nat, q: nat, b: nat)
    requires b < Pow2(k)
    ensures BitOr(q * Pow2(k), b) == q * Pow2(k) + b
  {
    var a := q * Pow2(k);
    if k == 0 {
      BitOrZero(a);
    } else if a != 0 {
      assert a == 2 * (q * Pow2(k - 1));
      BitOrDisjoint(k - 1, q, b / 2);
    }
  }

  lemma BitOrOdd(a: nat, b: nat)
    requires b % 2 == 1
    ensures BitOr(a, b) % 2 == 1
  {
  }

  predicate HasBit(x: nat, k: nat) {
    if k == 0 then x % 2 == 1 else HasBit(x / 2, k - 1)
  }

  /** `x | 1 << k` on a word. */
  function SetBit(x: nat, k: nat): (r: nat) {
    if k == 0 then x - x % 2 + 1 else 2 * SetBit(x / 2, k - 1) + x % 2
  }

  /** `x & ~(1 << k)` on a word. */
  function ClearBit(x: nat, k: nat): (r: nat) {
    if k == 0 then x - x % 2 else 2 * ClearBit(x / 2, k - 1) + x % 2
  }

  lemma {:induction false} ClearBitIff(x: nat, k: nat)
    ensures ClearBit(x, k) == x <==> !HasBit(x, k)
  {
    if k > 0 {
      ClearBitIff(x / 2, k - 1);
    }
  }

  lemma {:induction false} SetBitIff(x: nat, k: nat)
    ensures SetBit(x, k) == x <==> HasBit(x, k)
  {
    if k > 0 {
      SetBitIff(x / 2, k - 1);
    }
  }

  /** A page-aligned address carrying flags below 0x200 is a sum, and `& ~0x1FF` recovers the address. */
  lemma EntryRecovers(frame: nat, flags: nat)
    requires flags < 0x200
    ensures BitOr(frame * PAGE_SIZE, flags) == frame * PAGE_SIZE + flags
    ensures ClearLowNine(BitOr(frame * PAGE_SIZE, flags)) == frame * PAGE_SIZE
  {
    hide ClearLowNine, BitOr;
    assert Pow2(12) == 0x1000;
    BitOrDisjoint(12, frame, flags);
    LowNine(frame, flags);
  }

  lemma LowNine(frame: nat, flags: nat)
    requires flags < 0x200
    ensures ClearLowNine(frame * PAGE_SIZE + flags) == frame * PAGE_SIZE
  {
    Quotient(frame * PAGE_SIZE + flags, 8 * frame, flags, 0x200);
  }

  lemma OrStep(a: nat, b: nat)
    ensures BitOr(2 * a, 2 * b + 1) == 2 * BitOr(a, b) + 1
    ensures BitOr(2 * a + 1, 2 * b) == 2 * BitOr(a, b) + 1
  {
    assert (2 * a + 1) / 2 == a && (2 * b + 1) / 2 == b;
    if a == 0 {
      assert BitOr(0, b) == b;
    }
  }

  /** Setting bits 0 and 1 of a multiple of four. */
  lemma OrLowBits(k: nat)
    ensures BitOr(BitOr(4 * k, 1), 2) == 4 * k + 3
  {
    hide BitOr;
    OrStep(2 * k, 0);
    BitOrZero(2 * k);
    OrStep(2 * k, 1);
    OrStep(k, 0);
    BitOrZero(k);
  }

  /** The same two bits set in the other order. */
  lemma OrLowBitsReversed(k: nat)
    ensures BitOr(BitOr(4 * k, 2), 1) == 4 * k + 3
  {
    hide BitOr;
    BitOrZero(k);
    OrStep(k, 0);
    OrEven(2 * k, 1);
    BitOrZero(2 * k + 1);
    OrStep(2 * k + 1, 0);
  }

  lemma OrEven(a: nat, b: nat)
    ensures BitOr(2 * a, 2 * b) == 2 * BitOr(a, b)
  {
    if a == 0 {
      assert BitOr(0, b) == b;
    } else {
      assert 2 * a / 2 == a && 2 * b / 2 == b;
    }
  }

  // ---------------------------------------------------------------- bits as arithmetic

  lemma HalfThenPow(x: nat, k: nat)
    requires k > 0
    ensures x / Pow2(k) == x / 2 / Pow2(k - 1)
  {
    var p, q := Pow2(k - 1), x / 2 / Pow2(k - 1);
    var r := x / 2 % p;
    assert x / 2 == q * p + r;
    assert x == q * (2 * p) + (2 * r + x % 2);
    Quotient(x, q, 2 * r + x % 2, 2 * p);
  }

  /** Bit k is set when dividing by 2^k leaves an odd number; setting it adds 2^k and clearing it takes 2^k away. */
  lemma {:induction false} BitsExactly(x: nat, k: nat)
    ensures HasBit(x, k) <==> x / Pow2(k) % 2 == 1
    ensures SetBit(x, k) == x + if HasBit(x, k) then 0 else Pow2(k)
    ensures ClearBit(x, k) == x - if HasBit(x, k) then Pow2(k) else 0
  {
    if k > 0 {
      BitsExactly(x / 2, k - 1);
      HalfThenPow(x, k);
    }
  }

  /** `|` sets the bits set on either side. */
  lemma {:induction false} BitOrBits(a: nat, b: nat, k: nat)
    ensures HasBit(BitOr(a, b), k) <==> HasBit(a, k) || HasBit(b, k)
    decreases k
  {
    if a == 0 {
      ZeroHasNoBits(k);
    } else if k > 0 {
      BitOrBits(a / 2, b / 2, k - 1);
    }
  }

  lemma {:induction false} ZeroHasNoBits(k: nat)
    ensures !HasBit(0, k)
  {
    if k > 0 {
      ZeroHasNoBits(k - 1);
    }
  }
}

/** `kernel/string.c`: C strings in byte arrays, and the decimal printer and parser. */
module Strings {
  import opened Words

  const MINUS: byte := '-' as int
  const ZERO: byte := '0' as int
  const INT_MAX: int := 0x7FFF_FFFF
  const INT_MIN: int := -0x8000_0000

  /** The result of 32-bit signed arithmetic whose exact result is `x`. */
  function Wrap32(x: int): (r: int)
    ensures INT_MIN <= r <= INT_MAX && (INT_MIN <= x <= INT_MAX ==> r == x)
  {
    (x - INT_MIN) % 0x1_0000_0000 + INT_MIN
  }

  /** A byte read as a signed `char`. */
  function SignedChar(b: byte): int {
    if b < 0x80 then b else b - 0x100
  }

  /** `t` is what a C string starting at `at` spells. */
  predicate Spells(s: seq<byte>, at: nat, t: seq<byte>) {
    && at + |t| < |s| && s[at..at + |t|] == t && s[at + |t|] == 0
    && 0 !in t
  }

  method StrSize(buffer: array<byte>, at: nat, ghost t: seq<byte>) returns (index: nat)
    requires Spells(buffer[..], at, t)
    ensures index == |t|
  {
    assert forall k :: 0 <= k < |t| ==> t[k] == buffer[..][at..at + |t|][k];
    index := 0;
    while buffer[at + index] != 0
      invariant index <= |t|
      decreases |t| - index
    {
      index := index + 1;
    }
  }

  lemma SpelledBytes(s: seq<byte>, t: seq<byte>)
    requires Spells(s, 0, t)
    ensures |t| < |s| && s[|t|] == 0 && forall k :: 0 <= k < |t| ==> s[k] == t[k]
  {
    assert s[0..0 + |t|] == t;
  }

  // ---------------------------------------------------------------- reversal and case

  function Reversed(s: seq<byte>): (r: seq<byte>)
    ensures |r| == |s|
  {
    if s == [] then [] else Reversed(s[1..]) + [s[0]]
  }

  lemma {:induction false} ReversedAt(s: seq<byte>, k: nat)
    requires k < |s|
    ensures Reversed(s)[k] == s[|s| - 1 - k]
  {
    if k < |s| - 1 {
      ReversedAt(s[1..], k);
    }
  }

  lemma {:induction false} ReversedEnd(s: seq<byte>, b: byte)
    ensures Reversed(s + [b]) == [b] + Reversed(s)
  {
    if s != [] {
      assert (s + [b])[1..] == s[1..] + [b];
      ReversedEnd(s[1..], b);
    }
  }

  method StrRev(buffer: array<byte>, ghost t: seq<byte>)
    requires Spells(buffer[..], 0, t)
    modifies buffer
    ensures buffer[..] == Reversed(t) + old(buffer[|t|..])
  {
    hide *;
    SpelledBytes(buffer[..], t);
    var n := StrSize(buffer, 0, t);
    var i: int, j: int := 0, n - 1;
    while i < j
      invariant 0 <= i <= n && j == n - 1 - i && i <= j + 1
      invariant forall k :: 0 <= k < i ==> buffer[k] == t[n - 1 - k] && buffer[n - 1 - k] == t[k]
      invariant forall k :: i <= k < n - i ==> buffer[k] == t[k]
      invariant buffer[n..] == old(buffer[n..])
    {
      var tmp := buffer[i];
      buffer[i] := buffer[j];
      buffer[j] := tmp;
      i := i + 1;
      j := j - 1;
    }
    forall k | 0 <= k < n ensures buffer[k] == Reversed(t)[k] {
      ReversedAt(t, k);
    }
    assert buffer[..n] == Reversed(t);
    assert buffer[..] == buffer[..n] + buffer[n..];
  }

  function UpperByte(b: byte): (u: byte) {
    if 'a' as int <= b <= 'z' as int then b - 'a' as int + 'A' as int else b
  }

  /** `s` in upper case. */
  function Upper(s: seq<byte>): (u: seq<byte>)
    ensures |u| == |s|
  {
    seq(|s|, k requires 0 <= k < |s| => UpperByte(s[k]))
  }

  method StrUpper(text: array<byte>, ghost t: seq<byte>)
    requires Spells(text[..], 0, t)
    modifies text
    ensures text[..] == Upper(t) + old(text[|t|..])
    ensures forall k :: 0 <= k < |t| ==> text[k] == if 0x61 <= t[k] <= 0x7A then t[k] - 0x20 else t[k]
  {
    var size := StrSize(text, 0, t);
    assert forall k :: 0 <= k < size ==> text[k] == text[..][0..size][k];
    var i := 0;
    while i < size
      invariant i <= size
      invariant forall k :: 0 <= k < i ==> text[k] == UpperByte(t[k])
      invariant forall k :: i <= k < size ==> text[k] == t[k]
      invariant text[size..] == old(text[size..])
    {
      if 'a' as int <= text[i] <= 'z' as int {
        text[i] := text[i] - 'a' as int + 'A' as int;
      }
      i := i + 1;
    }
    assert text[..size] == Upper(t);
  }

  /** Equality of the first `size` bytes: `strncmp( a, b, size ) == 0`. */
  method StrNCmp(a: seq<byte>, b: seq<byte>, size: nat) returns (r: int)
    requires size <= |a| && size <= |b|
    ensures r == (if a[..size] == b[..size] then 0 else 1)
  {
    var i := 0;
    while i < size
      invariant i <= size && a[..i] == b[..i]
    {
      if a[i] != b[i] {
        assert a[..size][i] != b[..size][i];
        return 1;
      }
      i := i + 1;
    }
    return 0;
  }

  // ---------------------------------------------------------------- printing

  /** Decimal notation, most significant digit first. */
  function Decimal(v: nat): (s: seq<byte>)
    ensures s != [] && 0 !in s && MINUS !in s
  {
    if v < 10 then [ZERO + v] else Decimal(v / 10) + [ZERO + v % 10]
  }

  /** The digits in the order the printing loop emits them. */
  function DigitsLow(v: nat): (s: seq<byte>)
    ensures 0 !in s
  {
    if v == 0 then [] else [ZERO + v % 10] + DigitsLow(v / 10)
  }

  lemma {:induction false} DigitsReverse(v: nat)
    requires v > 0
    ensures Reversed(DigitsLow(v)) == Decimal(v)
  {
    if v >= 10 {
      DigitsReverse(v / 10);
    } else {
      assert DigitsLow(v) == [ZERO + v];
      assert Reversed([ZERO + v]) == [ZERO + v];
    }
  }

  /** What `intstr` leaves in its buffer: the least value, whose negation overflows, prints as a lone sign. */
  function Printed(v: int): (s: seq<byte>)
    requires INT_MIN <= v <= INT_MAX
    ensures 0 !in s && s != []
  {
    if v == INT_MIN then [MINUS]
    else if v < 0 then [MINUS] + Decimal(-v)
    else Decimal(v)
  }

  /** The digits `intstr` emits for its non-negated value, low digit first; a negative value emits none. */
  function Magnitude(value: int): (t: seq<byte>)
    ensures 0 !in t
  {
    if value == 0 then [ZERO] else if value > 0 then DigitsLow(value) else []
  }

  /** The digit loop of `intstr`. */
  method EmitDigits(magnitude: int, buffer: array<byte>) returns (index: nat)
    requires |Magnitude(magnitude)| <= buffer.Length
    modifies buffer
    ensures index == |Magnitude(magnitude)|
    ensures buffer[..index] == Magnitude(magnitude) && buffer[index..] == old(buffer[index..])
  {
    hide DigitsLow, Magnitude;
    var value := magnitude;
    index := 0;
    MagnitudeParts(magnitude);
    if value != 0 {
      ghost var t: seq<byte> := [];
      while value > 0
        invariant index == |t| <= |Magnitude(magnitude)|
        invariant t + DigitsLow(if value > 0 then value else 0) == Magnitude(magnitude)
        invariant buffer[..index] == t && buffer[index..] == old(buffer[index..])
      {
        hide DigitsLow, Magnitude;
        DigitsNext(value);
        assert t + ([ZERO + value % 10] + DigitsLow(value / 10)) == (t + [ZERO + value % 10]) + DigitsLow(value / 10);
        var c := value % 10 + ZERO;
        buffer[index] := c;
        index := index + 1;
        t := t + [c];
        value := value / 10;
        assert buffer[..index] == t;
      }
      DigitsNext(0);
      assert t + [] == t;
    } else {
      buffer[index] := ZERO;
      index := index + 1;
      assert buffer[..index] == [ZERO];
    }
  }

  lemma DigitsNext(v: nat)
    ensures DigitsLow(v) == if v == 0 then [] else [ZERO + v % 10] + DigitsLow(v / 10)
  {
  }

  lemma MagnitudeParts(value: int)
    ensures Magnitude(value) == if value == 0 then [ZERO] else DigitsLow(if value > 0 then value else 0)
  {
  }

  method IntStr(v: int, buffer: array<byte>)
    requires INT_MIN <= v <= INT_MAX && |Printed(v)| < buffer.Length
    modifies buffer
    ensures buffer[..] == Printed(v) + [0] + old(buffer[|Printed(v)| + 1..])
  {
    hide *;
    PrintedReversed(v);
    var value := v;
    var sign := if value >= 0 then 1 else 0;
    if sign == 0 {
      value := Wrap32(value * -1);
    }
    EmittedParts(v, value, sign);
    var index := EmitDigits(value, buffer);
    ghost var t := Magnitude(value);
    if sign == 0 {
      buffer[index] := MINUS;
      index := index + 1;
      t := t + [MINUS];
    }
    assert buffer[..index] == t == Emitted(v);
    buffer[index] := 0;
    TerminatedSpells(buffer[..], t);
    StrRev(buffer, t);
  }

  lemma TerminatedSpells(s: seq<byte>, t: seq<byte>)
    requires |t| < |s| && s[..|t|] == t && s[|t|] == 0 && 0 !in t
    ensures Spells(s, 0, t)
  {
  }

  /** The string built before the final reversal. */
  function Emitted(v: int): (t: seq<byte>)
    requires INT_MIN <= v <= INT_MAX
    ensures 0 !in t
  {
    if v < 0 then Magnitude(Wrap32(-v)) + [MINUS] else Magnitude(v)
  }

  lemma PrintedReversed(v: int)
    requires INT_MIN <= v <= INT_MAX
    ensures Reversed(Emitted(v)) == Printed(v) && |Emitted(v)| == |Printed(v)|
  {
    if v == INT_MIN {
      assert Wrap32(-v) == INT_MIN;
      ReversedEnd([], MINUS);
    } else if v < 0 {
      DigitsReverse(-v);
      ReversedEnd(DigitsLow(-v), MINUS);
    } else if v > 0 {
      DigitsReverse(v);
    } else {
      assert Reversed([ZERO]) == [ZERO];
    }
  }

  lemma EmittedParts(v: int, value: int, sign: int)
    requires INT_MIN <= v <= INT_MAX && sign == (if v >= 0 then 1 else 0)
    requires value == if sign == 0 then Wrap32(v * -1) else v
    ensures Emitted(v) == Magnitude(value) + (if sign == 0 then [MINUS] else [])
  {
    assert v >= 0 ==> Magnitude(value) + [] == Magnitude(value);
  }

  // ---------------------------------------------------------------- parsing

  /** The number the parsing loop holds after reading `s`, in 32-bit arithmetic. */
  function Accumulated(s: seq<byte>): (val: int)
    ensures INT_MIN <= val <= INT_MAX
  {
    if s == [] then 0
    else Wrap32(Wrap32(Accumulated(s[..|s| - 1]) * 10) + (SignedChar(s[|s| - 1]) - ZERO))
  }

  function Parsed(t: seq<byte>): int {
    if t != [] && t[0] == MINUS then Wrap32(Accumulated(t[1..]) * -1) else Accumulated(t)
  }

  method StrInt(text: array<byte>, ghost t: seq<byte>) returns (val: int)
    requires Spells(text[..], 0, t)
    ensures val == Parsed(t)
  {
    hide Spells, Wrap32, Accumulated;
    SpelledBytes(text[..], t);
    var len := StrSize(text, 0, t);
    val := 0;
    var index: nat := 0;
    var sign := 0;
    if text[index] == MINUS {
      sign := 1;
      index := index + 1;
    }
    ghost var digits := t[index..];
    AccumulatedNext(digits, 0);
    while index < len
      invariant len - |digits| <= index <= len
      invariant val == Accumulated(digits[..index - (len - |digits|)])
    {
      AccumulatedNext(digits, index - (len - |digits|));
      var v := text[index];
      val := Wrap32(val * 10);
      val := Wrap32(val + (SignedChar(v) - ZERO));
      index := index + 1;
    }
    assert digits[..|digits|] == digits;
    if sign == 1 {
      val := Wrap32(val * -1);
    }
  }

  lemma AccumulatedNext(s: seq<byte>, n: nat)
    requires n <= |s|
    ensures Accumulated(s[..0]) == 0
    ensures n < |s| ==> Accumulated(s[..n + 1]) == Wrap32(Wrap32(Accumulated(s[..n]) * 10) + (SignedChar(s[n]) - ZERO))
  {
    if n < |s| {
      assert s[..n + 1][..n] == s[..n];
    }
  }

  // ---------------------------------------------------------------- the round trip

  /** Reading back a decimal numeral gives its value, and no step of the accumulation overflows:
      the number held after each prefix is that of the numeral cut there. */
  lemma {:induction false} DecimalReads(v: nat)
    requires v <= INT_MAX
    ensures Accumulated(Decimal(v)) == v
  {
    var s := Decimal(v);
    if v < 10 {
      assert s[..|s| - 1] == [];
      assert Accumulated([]) == 0;
    } else {
      DecimalReads(v / 10);
      assert s[..|s| - 1] == Decimal(v / 10);
    }
  }

  /** Exact value of a numeral, without any wrapping. */
  function Exact(s: seq<byte>): int {
    if s == [] then 0 else Exact(s[..|s| - 1]) * 10 + (SignedChar(s[|s| - 1]) - ZERO)
  }

  /** No intermediate result of the parsing loop leaves the 32-bit range on a printed magnitude. */
  lemma {:induction false} NoOverflow(v: nat, n: nat)
    requires v <= INT_MAX && n <= |Decimal(v)|
    ensures 0 <= Exact(Decimal(v)[..n]) <= v
    ensures n < |Decimal(v)| ==> Exact(Decimal(v)[..n]) * 10 <= v
  {
    var s := Decimal(v);
    if n == |s| {
      assert s[..n] == s;
      ExactDecimal(v);
    } else if v < 10 {
      assert s[..n] == [];
    } else {
      NoOverflow(v / 10, n);
      assert s[..n] == Decimal(v / 10)[..n];
    }
  }

  lemma {:induction false} ExactDecimal(v: nat)
    ensures Exact(Decimal(v)) == v
  {
    var s := Decimal(v);
    if v < 10 {
      assert s[..|s| - 1] == [];
    } else {
      ExactDecimal(v / 10);
      assert s[..|s| - 1] == Decimal(v / 10);
    }
  }

  /** Parsing inverts printing for every 32-bit value except the least. */
  lemma RoundTripIff(v: int)
    requires INT_MIN <= v <= INT_MAX
    ensures Parsed(Printed(v)) == v <==> v != INT_MIN
  {
    var s := Printed(v);
    if v == INT_MIN {
      assert s[1..] == [];
      assert Accumulated([]) == 0;
    } else if v < 0 {
      DecimalReads(-v);
      assert s[1..] == Decimal(-v);
    } else {
      DecimalReads(v);
      assert s[0] in s;
    }
  }

  /** Distinct values print differently. */
  lemma PrintedInjective(v: int, w: int)
    requires INT_MIN <= v <= INT_MAX && INT_MIN <= w <= INT_MAX && Printed(v) == Printed(w)
    ensures v == w
  {
    RoundTripIff(v);
    RoundTripIff(w);
    SignAlone();
  }

  lemma SignAlone()
    ensures Parsed([MINUS]) == 0 && Printed(0) != [MINUS]
  {
    assert [MINUS][1..] == [];
    assert Accumulated([]) == 0;
  }

  // ---------------------------------------------------------------- numerals as bytes

  function Pow10(k: nat): (p: nat)
    ensures p > 0
  {
    if k == 0 then 1 else 10 * Pow10(k - 1)
  }

  /** Every byte is one of the ten from 0x30 to 0x39. */
  predicate AllDigits(s: seq<byte>) {
    forall k :: 0 <= k < |s| ==> 0x30 <= s[k] <= 0x39
  }

  /** The number a string of digits denotes: each digit times the power of ten of its place. */
  function Value(s: seq<byte>): (v: nat)
    requires AllDigits(s)
  {
    if s == [] then 0 else (s[0] as int - 0x30) * Pow10(|s| - 1) + Value(s[1..])
  }

  lemma {:induction false} ValueLast(s: seq<byte>, d: byte)
    requires AllDigits(s) && 0x30 <= d <= 0x39
    ensures AllDigits(s + [d]) && Value(s + [d]) == 10 * Value(s) + (d as int - 0x30)
  {
    if s == [] {
      assert ([] + [d])[1..] == [] && [] + [d] == [d];
      assert Pow10(0) == 1;
    } else {
      assert (s + [d])[1..] == s[1..] + [d];
      ValueLast(s[1..], d);
      Tenfold(s[0] as int - 0x30, Pow10(|s| - 1));
    }
  }

  lemma Tenfold(d: nat, p: nat)
    ensures d * (10 * p) == 10 * (d * p)
  {
  }

  /** A printed magnitude is its value in digits, without a leading zero. */
  lemma {:induction false} DecimalInBytes(v: nat)
    ensures AllDigits(Decimal(v)) && Value(Decimal(v)) == v
    ensures v > 0 ==> Decimal(v)[0] != 0x30
    ensures v == 0 ==> Decimal(v) == [0x30]
  {
    if v < 10 {
      ValueLast([], Decimal(v)[0]);
      assert [] + Decimal(v) == Decimal(v);
    } else {
      DecimalInBytes(v / 10);
      ValueLast(Decimal(v / 10), Decimal(v)[|Decimal(v)| - 1]);
      assert Decimal(v) == Decimal(v / 10) + [Decimal(v)[|Decimal(v)| - 1]];
    }
  }

  /** What `intstr` prints, in bytes: digits of the value, no leading zero, and 0x2D in front of a negative one; the
      least value prints as 0x2D alone. */
  lemma PrintedInBytes(v: int)
    requires INT_MIN <= v <= INT_MAX
    ensures v >= 0 ==> AllDigits(Printed(v)) && Value(Printed(v)) == v && (Printed(v)[0] == 0x30 ==> v == 0 && |Printed(v)| == 1)
    ensures v < 0 ==> Printed(v)[0] == 0x2D
    ensures INT_MIN < v < 0 ==>
      AllDigits(Printed(v)[1..]) && Value(Printed(v)[1..]) == -v && Printed(v)[1..] != [] && Printed(v)[1] != 0x30
    ensures v == INT_MIN ==> Printed(v) == [0x2D]
  {
    hide Decimal, Value;
    if v >= 0 {
      DecimalInBytes(v);
    } else if v > INT_MIN {
      DecimalInBytes(-v);
      assert Printed(v)[1..] == Decimal(-v);
    }
  }

  lemma {:induction false} DigitsAccumulate(s: seq<byte>)
    requires AllDigits(s) && Value(s) < 0x8000_0000
    ensures Accumulated(s) == Value(s)
    decreases |s|
  {
    hide Wrap32, Value;
    if s == [] {
      NoDigits();
    } else {
      var n := |s| - 1;
      ValueLast(s[..n], s[n]);
      assert s[..n] + [s[n]] == s;
      DigitsAccumulate(s[..n]);
      AccumulatedNext(s, n);
      assert s[..n + 1] == s;
    }
  }

  lemma NoDigits()
    ensures AllDigits([]) && Value([]) == 0 && Accumulated([]) == 0
  {
  }

  /** `strint` reads any string of digits below 2^31 as its value, and as its negation behind 0x2D. */
  lemma ParsedInBytes(s: seq<byte>)
    requires AllDigits(s) && Value(s) < 0x8000_0000
    ensures Parsed(s) == Value(s) && Parsed([0x2D] + s) == -(Value(s) as int)
  {
    hide Value, Accumulated;
    DigitsAccumulate(s);
    assert ([0x2D] + s)[1..] == s && ([0x2D] + s)[0] == 0x2D;
  }

  /** The wrapped result differs from the exact one by a multiple of 2^32, and a `char` from its byte by one of 2^8. */
  lemma WrapsByWords(x: int, b: byte)
    ensures (Wrap32(x) - x) % 0x1_0000_0000 == 0 && -0x8000_0000 <= Wrap32(x) < 0x8000_0000
    ensures (SignedChar(b) - b as int) % 0x100 == 0 && -0x80 <= SignedChar(b) < 0x80
  {
    var m := 0x1_0000_0000;
    assert (x - INT_MIN) % m == (x - INT_MIN) - (x - INT_MIN) / m * m;
    assert Wrap32(x) - x == -((x - INT_MIN) / m) * m;
  }
}

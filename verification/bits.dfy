/** Words, powers of two and the LSB-first bit numbering that DEFLATE uses. */
module Bits {

  type byte = x: int | 0 <= x < 256

  function Pow2(n: nat): (p: nat)
    ensures p >= 1
  {
    if n == 0 then 1 else 2 * Pow2(n - 1)
  }

  lemma {:induction false} Pow2Add(a: nat, b: nat)
    ensures Pow2(a + b) == Pow2(a) * Pow2(b)
  {
    if a > 0 {
      Pow2Add(a - 1, b);
      assert Pow2(a + b) == 2 * (Pow2(a - 1) * Pow2(b));
    }
  }

  lemma {:induction false} Pow2Monotone(a: nat, b: nat)
    requires a <= b
    ensures Pow2(a) <= Pow2(b)
  {
    if a < b { Pow2Monotone(a, b - 1); }
  }

  /** `c` shifted right by `k` bits. */
  function Shr(c: nat, k: nat): nat
    decreases k
  {
    if k == 0 then c else Shr(c / 2, k - 1)
  }

  /** Shifting one bit further drops the lowest remaining bit. */
  lemma {:induction false} ShrNext(c: nat, k: nat)
    ensures Shr(c, k) == Shr(c, k) % 2 + 2 * Shr(c, k + 1)
    decreases k
  {
    if k == 0 {
      assert Shr(c, 1) == Shr(c / 2, 0);
    } else {
      ShrNext(c / 2, k - 1);
    }
  }

  lemma {:induction false} ShrAtLeast(c: nat, q: nat, k: nat)
    requires c >= q * Pow2(k)
    ensures Shr(c, k) >= q
    decreases k
  {
    if k > 0 {
      Double(q, Pow2(k - 1));
      Swap2(q, Pow2(k - 1));
      ShrAtLeast(c / 2, q, k - 1);
    }
  }

  lemma {:induction false} ShrZero(c: nat, k: nat)
    requires c < Pow2(k)
    ensures Shr(c, k) == 0
    decreases k
  {
    if k > 0 { ShrZero(c / 2, k - 1); }
  }

  lemma Double(x: nat, y: nat)
    ensures 2 * (x * y) == (2 * x) * y
  {
  }

  lemma Swap2(f: nat, p: nat)
    ensures f * (2 * p) == (2 * f) * p
  {
  }

  /** Bitwise or of two words. */
  function Or(a: nat, b: nat): nat
    decreases a + b
  {
    if a == 0 && b == 0 then 0
    else (if a % 2 == 1 || b % 2 == 1 then 1 else 0) + 2 * Or(a / 2, b / 2)
  }

  lemma {:induction false} OrZero(b: nat)
    ensures Or(0, b) == b
  {
    if b > 0 { OrZero(b / 2); }
  }

  /** Or-ing in a value shifted past every set bit is an addition. */
  lemma {:induction false} OrShifted(a: nat, b: nat, k: nat)
    requires a < Pow2(k)
    ensures Or(a, b * Pow2(k)) == a + b * Pow2(k)
  {
    if k == 0 {
      OrZero(b);
    } else {
      var h := b * Pow2(k - 1);
      assert b * Pow2(k) == 2 * h;
      OrShifted(a / 2, b, k - 1);
      assert (2 * h) / 2 == h;
    }
  }

  lemma {:induction false} OrBound(a: nat, b: nat, k: nat)
    requires a < Pow2(k) && b < Pow2(k)
    ensures Or(a, b) < Pow2(k)
    decreases k
  {
    if k > 0 { OrBound(a / 2, b / 2, k - 1); }
  }

  /** Bit `p` of the input, numbered from the least significant bit of byte 0; zero past the end. */
  function Bit(input: seq<byte>, p: nat): (b: nat)
    ensures b <= 1
  {
    if p / 8 < |input| then Shr(input[p / 8], p % 8) % 2 else 0
  }

  /** The `n`-bit number stored at bit position `p`, least significant bit first. */
  function Field(input: seq<byte>, p: nat, n: nat): (v: nat)
    ensures v < Pow2(n)
    decreases n
  {
    if n == 0 then 0 else Bit(input, p) + 2 * Field(input, p + 1, n - 1)
  }

  lemma {:induction false} FieldSplit(input: seq<byte>, p: nat, a: nat, b: nat)
    ensures Field(input, p, a + b) == Field(input, p, a) + Pow2(a) * Field(input, p + a, b)
    decreases a
  {
    hide Bit;
    if a > 0 {
      FieldSplit(input, p + 1, a - 1, b);
      Double(Pow2(a - 1), Field(input, p + a, b));
    }
  }

  /** Cutting a field in two is masking and shifting. */
  lemma FieldCut(input: seq<byte>, p: nat, a: nat, b: nat)
    ensures Field(input, p, a + b) % Pow2(a) == Field(input, p, a)
    ensures Shr(Field(input, p, a + b), a) == Field(input, p + a, b)
  {
    FieldSplit(input, p, a, b);
    DivModUnique(Field(input, p, a + b), Pow2(a), Field(input, p + a, b), Field(input, p, a));
    FieldShr(input, p, a, b);
  }

  lemma {:induction false} FieldShr(input: seq<byte>, p: nat, a: nat, b: nat)
    ensures Shr(Field(input, p, a + b), a) == Field(input, p + a, b)
    decreases a
  {
    hide Bit;
    if a > 0 { FieldShr(input, p + 1, a - 1, b); }
  }

  lemma {:induction false} MulGap(d: nat, a: nat, b: nat)
    requires a < b
    ensures d * a + d <= d * b
    decreases b
  {
    assert d * b == d * (b - 1) + d;
    if a < b - 1 { MulGap(d, a, b - 1); }
  }

  lemma QuotientUnique(d: nat, q1: nat, r1: nat, q2: nat, r2: nat)
    requires r1 < d && r2 < d && d * q1 + r1 == d * q2 + r2
    ensures q1 == q2 && r1 == r2
  {
    if q1 < q2 { MulGap(d, q1, q2); }
    if q2 < q1 { MulGap(d, q2, q1); }
  }

  lemma DivModUnique(x: nat, d: nat, q: nat, r: nat)
    requires r < d && x == r + d * q
    ensures x / d == q && x % d == r
  {
    var q1, r1 := x / d, x % d;
    assert d * q1 + r1 == x;
    QuotientUnique(d, q1, r1, q, r);
  }

  /** Eight bits at a byte boundary are that byte. */
  lemma FieldByte(input: seq<byte>, k: nat, n: nat)
    requires n == 8
    ensures Field(input, 8 * k, n) == if k < |input| then input[k] else 0
  {
    hide Field, Shr;
    var b := if k < |input| then input[k] else 0;
    FieldTail(input, k, b, 0);
    ShrNone(b);
  }

  lemma ShrNone(c: nat)
    ensures Shr(c, 0) == c
  {
  }

  /** The top `8 - i` bits of byte `k` are its value shifted right by `i`. */
  lemma {:induction false} FieldTail(input: seq<byte>, k: nat, b: byte, i: nat)
    requires i <= 8 && b == if k < |input| then input[k] else 0
    ensures Field(input, 8 * k + i, 8 - i) == Shr(b, i)
    decreases 8 - i
  {
    hide Bit, Shr, Field, Pow2;
    FieldStep(input, 8 * k + i, 8 - i);
    if i == 8 {
      Pow2Small();
      ShrZero(b, i);
    } else {
      FieldTail(input, k, b, i + 1);
      BitAt(input, k, b, i);
      ShrNext(b, i);
    }
  }

  lemma FieldStep(input: seq<byte>, p: nat, n: nat)
    ensures Field(input, p, n) == if n == 0 then 0 else Bit(input, p) + 2 * Field(input, p + 1, n - 1)
  {
    hide Bit, Pow2;
  }

  lemma BitAt(input: seq<byte>, k: nat, b: byte, i: nat)
    requires i < 8 && b == if k < |input| then input[k] else 0
    ensures Bit(input, 8 * k + i) == Shr(b, i) % 2
  {
    assert (8 * k + i) / 8 == k && (8 * k + i) % 8 == i;
    if k >= |input| { ShrZero(0, i); }
  }

  lemma Pow2Small()
    ensures Pow2(0) == 1 && Pow2(1) == 2 && Pow2(2) == 4 && Pow2(3) == 8
    ensures Pow2(4) == 16 && Pow2(5) == 32 && Pow2(6) == 64 && Pow2(7) == 128 && Pow2(8) == 256
  {
    assert Pow2(2) == 4;
    assert Pow2(4) == 16;
    assert Pow2(6) == 64;
  }

  /** The bits of `v`, least significant first. */
  function FieldBits(v: nat, n: nat): (s: seq<bool>)
    ensures |s| == n
  {
    if n == 0 then [] else [v % 2 == 1] + FieldBits(v / 2, n - 1)
  }

  /** `bits` is what the input holds at position `p`, entirely inside the input. */
  ghost predicate Holds(input: seq<byte>, p: nat, bits: seq<bool>) {
    && p + |bits| <= 8 * |input|
    && forall i: nat :: i < |bits| ==> Bit(input, p + i) == (if bits[i] then 1 else 0)
  }

  lemma HoldsSplit(input: seq<byte>, p: nat, a: seq<bool>, b: seq<bool>)
    requires Holds(input, p, a + b)
    ensures Holds(input, p, a) && Holds(input, p + |a|, b)
  {
    forall i: nat | i < |a| ensures Bit(input, p + i) == (if a[i] then 1 else 0) {
      assert (a + b)[i] == a[i];
    }
    forall i: nat | i < |b| ensures Bit(input, p + |a| + i) == (if b[i] then 1 else 0) {
      assert (a + b)[|a| + i] == b[i];
      assert Bit(input, p + (|a| + i)) == (if (a + b)[|a| + i] then 1 else 0);
    }
  }

  /** Reading a field back returns the number whose bits were written. */
  lemma {:induction false} FieldOfBits(input: seq<byte>, p: nat, v: nat, n: nat)
    requires v < Pow2(n) && Holds(input, p, FieldBits(v, n))
    ensures Field(input, p, n) == v
    decreases n
  {
    if n > 0 {
      HoldsSplit(input, p, [v % 2 == 1], FieldBits(v / 2, n - 1));
      assert Holds(input, p + 1, FieldBits(v / 2, n - 1));
      assert Bit(input, p + 0) == if [v % 2 == 1][0] then 1 else 0;
      FieldOfBits(input, p + 1, v / 2, n - 1);
    }
  }

  /** Bits packed into bytes, least significant bit first, the last byte filled up with zeros. */
  function Pack(bits: seq<bool>): (s: seq<byte>)
    ensures |s| == (|bits| + 7) / 8
    decreases |bits|
  {
    if |bits| == 0 then []
    else if |bits| < 8 then [PackByte(bits)]
    else [PackByte(bits[..8])] + Pack(bits[8..])
  }

  function PackByte(bits: seq<bool>): (b: byte)
    requires |bits| <= 8
    ensures b < Pow2(|bits|)
  {
    Pow2Monotone(|bits|, 8); Pow2Small();
    if |bits| == 0 then 0
    else
      Pow2Monotone(|bits| - 1, 7);
      (if bits[0] then 1 else 0) + 2 * PackByte(bits[1..])
  }

  lemma {:induction false} PackByteBit(bits: seq<bool>, i: nat)
    requires i < |bits| <= 8
    ensures Shr(PackByte(bits), i) % 2 == (if bits[i] then 1 else 0)
  {
    if i > 0 {
      PackByteBit(bits[1..], i - 1);
      assert PackByte(bits) / 2 == PackByte(bits[1..]);
    }
  }

  lemma PackFirst(before: seq<byte>, bits: seq<bool>, after: seq<byte>, i: nat)
    requires i < |bits| && i < 8
    ensures Bit(before + Pack(bits) + after, 8 * |before| + i) == (if bits[i] then 1 else 0)
  {
    var input := before + Pack(bits) + after;
    var first := if |bits| < 8 then bits else bits[..8];
    assert input[|before|] == PackByte(first);
    PackByteBit(first, i);
    assert (8 * |before| + i) / 8 == |before| && (8 * |before| + i) % 8 == i;
  }

  /** Unpacking inverts packing, whatever bytes come before and after. */
  lemma {:induction false} PackHolds(before: seq<byte>, bits: seq<bool>, after: seq<byte>)
    ensures Holds(before + Pack(bits) + after, 8 * |before|, bits)
    decreases |bits|
  {
    var input := before + Pack(bits) + after;
    if |bits| >= 8 {
      var b := PackByte(bits[..8]);
      PackHolds(before + [b], bits[8..], after);
      assert before + [b] + Pack(bits[8..]) + after == input;
    }
    hide Pack, PackByte, Pow2, Shr;
    forall i: nat | i < |bits| ensures Bit(input, 8 * |before| + i) == (if bits[i] then 1 else 0) {
      hide Bit;
      if i < 8 {
        PackFirst(before, bits, after, i);
      } else {
        PackLater(input, |before|, bits, i);
      }
    }
  }

  lemma PackLater(input: seq<byte>, k: nat, bits: seq<bool>, i: nat)
    requires 8 <= i < |bits| && Holds(input, 8 * (k + 1), bits[8..])
    ensures Bit(input, 8 * k + i) == if bits[i] then 1 else 0
  {
    hide Bit;
    assert Bit(input, 8 * (k + 1) + (i - 8)) == (if bits[8..][i - 8] then 1 else 0);
  }
}

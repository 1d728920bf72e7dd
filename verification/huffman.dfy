/** Canonical Huffman codes (section 3.2.2 of RFC 1951): the code a vector of code lengths
    denotes, the decoder's walk over it, and the table the decoder builds for the walk. */
module Huffman {
  import opened Bits

  const MAX_BITS: nat := 15
  const MAX_SYMBOLS: nat := 288

  predicate ValidLengths(L: seq<nat>) {
    |L| <= MAX_SYMBOLS && forall i :: 0 <= i < |L| ==> L[i] <= MAX_BITS
  }

  /** The symbols whose code has length `l`, in increasing order. */
  function OfLength(L: seq<nat>, l: nat): seq<nat> {
    if |L| == 0 then []
    else
      var s := OfLength(L[..|L| - 1], l);
      if L[|L| - 1] == l then s + [|L| - 1] else s
  }

  lemma NoneOfEmpty()
    ensures forall l: nat :: Count([], l) == 0
  {
  }

  lemma {:induction false} OfLengthSound(L: seq<nat>, l: nat, k: nat)
    requires k < |OfLength(L, l)|
    ensures OfLength(L, l)[k] < |L| && L[OfLength(L, l)[k]] == l
  {
    if k < |OfLength(L[..|L| - 1], l)| { OfLengthSound(L[..|L| - 1], l, k); }
  }

  function Count(L: seq<nat>, l: nat): nat {
    |OfLength(L, l)|
  }

  /** How many smaller symbols share the code length of symbol `i`. */
  function Rank(L: seq<nat>, i: nat): nat
    requires i < |L|
  {
    Count(L[..i], L[i])
  }

  lemma {:induction false} OfLengthPrefix(L: seq<nat>, i: nat, l: nat)
    requires i <= |L|
    ensures OfLength(L[..i], l) <= OfLength(L, l)
  {
    if i == |L| {
      assert L[..i] == L;
    } else {
      var L' := L[..|L| - 1];
      OfLengthPrefix(L', i, l);
      assert L'[..i] == L[..i];
    }
  }

  lemma OfLengthNext(L: seq<nat>, i: nat, l: nat)
    requires i < |L|
    ensures OfLength(L[..i + 1], l) == OfLength(L[..i], l) + (if L[i] == l then [i] else [])
  {
    assert L[..i + 1][..i] == L[..i];
  }

  lemma RankSelects(L: seq<nat>, i: nat)
    requires i < |L|
    ensures Rank(L, i) < Count(L, L[i])
    ensures OfLength(L, L[i])[Rank(L, i)] == i
  {
    OfLengthNext(L, i, L[i]);
    OfLengthPrefix(L, i + 1, L[i]);
    var s := OfLength(L[..i + 1], L[i]);
    assert s[Rank(L, i)] == i;
  }

  // ---------------------------------------------------------------- codes

  /** The numerically first code of length `l`. */
  function FirstCode(L: seq<nat>, l: nat): nat
    requires l >= 1
  {
    if l == 1 then 0 else 2 * (FirstCode(L, l - 1) + Count(L, l - 1))
  }

  /** The code RFC 1951 assigns to symbol `i`. */
  function Code(L: seq<nat>, i: nat): nat
    requires i < |L| && L[i] >= 1
  {
    FirstCode(L, L[i]) + Rank(L, i)
  }

  /** A Huffman code is sent most significant bit first. */
  function CodeBits(c: nat, l: nat): (s: seq<bool>)
    ensures |s| == l
  {
    if l == 0 then [] else CodeBits(c / 2, l - 1) + [c % 2 == 1]
  }

  /** `2^15` times the Kraft sum of the lengths. */
  function Kraft(L: seq<nat>): nat
    requires forall i :: 0 <= i < |L| ==> L[i] <= MAX_BITS
  {
    if |L| == 0 then 0
    else
      var l := L[|L| - 1];
      Kraft(L[..|L| - 1]) + (if l == 0 then 0 else Pow2(MAX_BITS - l))
  }

  /** Lengths that leave room for every code: the Kraft sum is at most 1. */
  ghost predicate NotOversubscribed(L: seq<nat>) {
    ValidLengths(L) && Kraft(L) <= Pow2(MAX_BITS)
  }

  function KraftByLength(L: seq<nat>, m: nat): nat
    requires m <= MAX_BITS
  {
    if m == 0 then 0 else KraftByLength(L, m - 1) + Count(L, m) * Pow2(MAX_BITS - m)
  }

  lemma {:induction false} KraftByLengthStep(L: seq<nat>, l: nat, m: nat)
    requires m <= MAX_BITS
    ensures KraftByLength(L + [l], m)
         == KraftByLength(L, m) + (if 1 <= l <= m then Pow2(MAX_BITS - l) else 0)
  {
    if m > 0 {
      KraftByLengthStep(L, l, m - 1);
      CountSnoc(L, l, m);
      Distribute(Count(L, m), if l == m then 1 else 0, Pow2(MAX_BITS - m));
    }
  }

  lemma CountSnoc(L: seq<nat>, x: nat, l: nat)
    ensures Count(L + [x], l) == Count(L, l) + (if x == l then 1 else 0)
  {
    assert (L + [x])[..|L|] == L;
  }

  lemma Distribute(a: nat, b: nat, c: nat)
    ensures (a + b) * c == a * c + b * c
  {
  }

  lemma {:induction false} KraftRegrouped(L: seq<nat>, m: nat)
    requires m == MAX_BITS && forall i :: 0 <= i < |L| ==> L[i] <= MAX_BITS
    ensures Kraft(L) == KraftByLength(L, m)
    decreases |L|
  {
    if |L| == 0 {
      KraftEmpty(m);
      assert L == [];
    } else {
      var L' := L[..|L| - 1];
      KraftRegrouped(L', m);
      assert L == L' + [L[|L| - 1]];
      KraftByLengthStep(L', L[|L| - 1], m);
    }
  }

  lemma {:induction false} KraftEmpty(m: nat)
    requires m <= MAX_BITS
    ensures KraftByLength([], m) == 0
  {
    if m > 0 {
      KraftEmpty(m - 1);
      assert Count([], m) == 0;
    }
  }

  lemma {:induction false} FirstCodeKraft(L: seq<nat>, l: nat)
    requires 1 <= l <= MAX_BITS
    ensures (FirstCode(L, l) + Count(L, l)) * Pow2(MAX_BITS - l) == KraftByLength(L, l)
  {
    var p := Pow2(MAX_BITS - l);
    if l == 1 {
      assert KraftByLength(L, 0) == 0;
    } else {
      FirstCodeKraft(L, l - 1);
      var f := FirstCode(L, l - 1) + Count(L, l - 1);
      assert Pow2(MAX_BITS - (l - 1)) == 2 * p;
      Swap2(f, p);
      Distribute(2 * f, Count(L, l), p);
    }
  }

  lemma NoLess(a: nat, b: nat)
    ensures a * b >= 0
  {
  }

  lemma {:induction false} KraftByLengthMonotone(L: seq<nat>, l: nat, m: nat)
    requires l <= m <= MAX_BITS
    ensures KraftByLength(L, l) <= KraftByLength(L, m)
  {
    hide Pow2, OfLength;
    if l < m {
      KraftByLengthMonotone(L, l, m - 1);
      NoLess(Count(L, m), Pow2(MAX_BITS - m));
    }
  }

  /** When the Kraft sum is at most 1, the codes of length `l` are `l`-bit numbers. */
  lemma CodesFit(L: seq<nat>, l: nat)
    requires NotOversubscribed(L) && 1 <= l <= MAX_BITS
    ensures FirstCode(L, l) + Count(L, l) <= Pow2(l)
  {
    hide Kraft, KraftByLength, Pow2, FirstCode, OfLength;
    var m := MAX_BITS;
    KraftRegrouped(L, m);
    FirstCodeKraft(L, l);
    KraftByLengthMonotone(L, l, m);
    ScaledFit(FirstCode(L, l) + Count(L, l), l, m);
  }

  lemma ScaledFit(c: nat, l: nat, m: nat)
    requires l <= m && c * Pow2(m - l) <= Pow2(m)
    ensures c <= Pow2(l)
  {
    Pow2Add(l, m - l);
    CancelRight(c, Pow2(l), Pow2(m - l));
  }

  lemma CancelRight(c: nat, m: nat, p: nat)
    requires p > 0 && c * p <= m * p
    ensures c <= m
  {
    if c > m { MulGap(p, m, c); }
  }

  /** Every code of length `l` lies beyond the codes of length `j < l`, extended to `l` bits. */
  lemma {:induction false} FirstCodeBeyond(L: seq<nat>, j: nat, l: nat)
    requires 1 <= j < l
    ensures FirstCode(L, l) >= (FirstCode(L, j) + Count(L, j)) * Pow2(l - j)
    decreases l
  {
    var f := FirstCode(L, j) + Count(L, j);
    if j + 1 < l {
      FirstCodeBeyond(L, j, l - 1);
      assert Pow2(l - j) == 2 * Pow2(l - 1 - j);
      Swap2(f, Pow2(l - 1 - j));
      Double(f, Pow2(l - 1 - j));
    } else {
      assert Pow2(1) == 2;
    }
  }

  // ---------------------------------------------------------------- decoding

  /** Reading one code bit by bit from length `len` on: the symbol, or -1 after 15 bits without
      a code, and the position after the bits read. */
  function DecodeFrom(input: seq<byte>, pos: nat, L: seq<nat>, len: nat, code: nat, first: nat): (r: (int, nat))
    requires 1 <= len <= MAX_BITS + 1 && 2 * code >= first
    ensures -1 <= r.0 < |L| && pos <= r.1
    ensures r.0 >= 0 ==> 1 <= L[r.0] <= MAX_BITS
    decreases MAX_BITS + 1 - len, 1
  {
    if len > MAX_BITS then (-1, pos)
    else DecodeAt(input, pos + 1, L, len, 2 * code + Bit(input, pos), first)
  }

  /** The code `c` of length `len` has been read: a symbol of that length, or a longer code. */
  function DecodeAt(input: seq<byte>, pos: nat, L: seq<nat>, len: nat, c: nat, first: nat): (r: (int, nat))
    requires 1 <= len <= MAX_BITS && c >= first
    ensures -1 <= r.0 < |L| && pos <= r.1
    ensures r.0 >= 0 ==> 1 <= L[r.0] <= MAX_BITS
    decreases MAX_BITS + 1 - len, 0
  {
    var s := OfLength(L, len);
    if c - first < |s| then
      OfLengthSound(L, len, c - first);
      (s[c - first], pos)
    else DecodeFrom(input, pos, L, len + 1, c, 2 * (first + |s|))
  }

  lemma DecodeBit(input: seq<byte>, p: nat, L: seq<nat>, len: nat, code: nat, first: nat)
    requires 1 <= len <= MAX_BITS && 2 * code >= first
    ensures DecodeFrom(input, p, L, len, code, first)
         == DecodeAt(input, p + 1, L, len, 2 * code + Bit(input, p), first)
  {
    hide DecodeAt, Bit;
  }

  function Decode(input: seq<byte>, pos: nat, L: seq<nat>): (r: (int, nat))
    ensures -1 <= r.0 < |L| && pos <= r.1
    ensures r.0 >= 0 ==> 1 <= L[r.0] <= MAX_BITS
  {
    DecodeFrom(input, pos, L, 1, 0, 0)
  }

  /** Bit `j` of a code sent most significant bit first. */
  lemma {:induction false} CodeBitsAt(c: nat, l: nat, j: nat)
    requires j < l
    ensures CodeBits(c, l)[j] == (Shr(c, l - 1 - j) % 2 == 1)
    decreases l
  {
    if j < l - 1 {
      CodeBitsAt(c / 2, l - 1, j);
    }
  }

  /** The walk at length `len`, with all but the last `rest + 1` bits of a code `c` read. */
  lemma {:induction false} DecodeWalk(input: seq<byte>, p: nat, L: seq<nat>, c: nat, l: nat, len: nat, rest: nat)
    requires 1 <= len && len + rest == l <= MAX_BITS
    requires FirstCode(L, l) <= c < FirstCode(L, l) + Count(L, l)
    requires BitsLeft(input, p, c, rest)
    requires 2 * Shr(c, rest + 1) >= FirstCode(L, len)
    ensures DecodeFrom(input, p, L, len, Shr(c, rest + 1), FirstCode(L, len))
         == (OfLength(L, l)[c - FirstCode(L, l)], p + rest + 1)
    decreases rest
  {
    hide OfLength, DecodeFrom, FirstCode, Bit, Shr;
    ShrNext(c, rest);
    if rest > 0 {
      NotYet(L, c, l, len, rest);
      DecodeMiss(input, p, L, len, Shr(c, rest + 1), FirstCode(L, len), Shr(c, rest));
      DecodeWalk(input, p + 1, L, c, l, len + 1, rest - 1);
    } else {
      ShrNone(c);
      DecodeHit(input, p, L, len, Shr(c, rest + 1), FirstCode(L, len), c);
    }
  }

  lemma NotYet(L: seq<nat>, c: nat, l: nat, len: nat, rest: nat)
    requires 1 <= len < l == len + rest && FirstCode(L, l) <= c
    ensures Shr(c, rest) >= FirstCode(L, len) + Count(L, len)
    ensures FirstCode(L, len + 1) == 2 * (FirstCode(L, len) + Count(L, len))
  {
    FirstCodeBeyond(L, len, l);
    ShrAtLeast(c, FirstCode(L, len) + Count(L, len), rest);
  }

  /** The input holds the last `rest + 1` bits of `c`, most significant first. */
  ghost predicate BitsLeft(input: seq<byte>, p: nat, c: nat, rest: nat)
    decreases rest
  {
    Bit(input, p) == Shr(c, rest) % 2 && (rest > 0 ==> BitsLeft(input, p + 1, c, rest - 1))
  }

  lemma {:induction false} CodeBitsLeft(input: seq<byte>, p: nat, c: nat, l: nat, j: nat)
    requires j < l && Holds(input, p, CodeBits(c, l))
    ensures BitsLeft(input, p + j, c, l - 1 - j)
    decreases l - j
  {
    CodeBitsAt(c, l, j);
    if j < l - 1 { CodeBitsLeft(input, p, c, l, j + 1); }
  }

  lemma DecodeHit(input: seq<byte>, p: nat, L: seq<nat>, len: nat, code: nat, first: nat, c: nat)
    requires 1 <= len <= MAX_BITS && 2 * code >= first
    requires c == 2 * code + Bit(input, p) && c - first < Count(L, len)
    ensures DecodeFrom(input, p, L, len, code, first) == (OfLength(L, len)[c - first], p + 1)
  {
    hide OfLength, Bit, DecodeFrom;
    DecodeBit(input, p, L, len, code, first);
  }

  lemma DecodeMiss(input: seq<byte>, p: nat, L: seq<nat>, len: nat, code: nat, first: nat, c: nat)
    requires 1 <= len <= MAX_BITS && 2 * code >= first
    requires c == 2 * code + Bit(input, p) && c - first >= Count(L, len)
    ensures DecodeFrom(input, p, L, len, code, first)
         == DecodeFrom(input, p + 1, L, len + 1, c, 2 * (first + Count(L, len)))
  {
    hide OfLength, Bit, DecodeFrom;
    DecodeBit(input, p, L, len, code, first);
  }

  lemma FirstCodeOne(L: seq<nat>)
    ensures FirstCode(L, 1) == 0
  {
  }

  /** Fed the canonical code of symbol `i`, followed by anything, the decoder returns `i` and
      consumes exactly its bits. */
  lemma DecodeCanonical(input: seq<byte>, pos: nat, L: seq<nat>, i: nat)
    requires NotOversubscribed(L) && i < |L| && L[i] >= 1
    requires Holds(input, pos, CodeBits(Code(L, i), L[i]))
    ensures Decode(input, pos, L) == (i, pos + L[i])
  {
    hide OfLength, FirstCode, Shr, Kraft, DecodeFrom, Holds, CodeBits, Pow2;
    CodesFit(L, L[i]);
    RankSelects(L, i);
    FirstCodeOne(L);
    ShrZero(Code(L, i), L[i]);
    CodeBitsLeft(input, pos, Code(L, i), L[i], 0);
    DecodeWalk(input, pos, L, Code(L, i), L[i], 1, L[i] - 1);
  }

  // ---------------------------------------------------------------- the decoder's table

  /** Where the symbols of length `l` start in the table. */
  function Offset(L: seq<nat>, l: nat): nat {
    if l <= 1 then 0 else Offset(L, l - 1) + Count(L, l - 1)
  }

  lemma {:induction false} OffsetApart(L: seq<nat>, j: nat, l: nat)
    requires 1 <= j < l
    ensures Offset(L, j) + Count(L, j) <= Offset(L, l)
    decreases l
  {
    if j < l - 1 { OffsetApart(L, j, l - 1); }
  }

  lemma {:induction false} OffsetStep(L: seq<nat>, x: nat, l: nat)
    ensures Offset(L + [x], l) == Offset(L, l) + (if 1 <= x < l then 1 else 0)
  {
    if l > 1 {
      OffsetStep(L, x, l - 1);
      assert (L + [x])[..|L|] == L;
    }
  }

  lemma {:induction false} OffsetBound(L: seq<nat>, l: nat)
    ensures Offset(L, l) <= |L|
  {
    if |L| == 0 {
      if l > 1 { OffsetBound(L, l - 1); }
    } else {
      OffsetBound(L[..|L| - 1], l);
      OffsetStep(L[..|L| - 1], L[|L| - 1], l);
      assert L[..|L| - 1] + [L[|L| - 1]] == L;
    }
  }

  /** The two arrays of the decoder's table. */
  class Table {
    const counts: array<nat>
    const symbols: array<nat>

    constructor ()
      ensures Shaped() && fresh(counts) && fresh(symbols)
    {
      counts := new nat[MAX_BITS + 1];
      symbols := new nat[MAX_SYMBOLS];
    }

    predicate Shaped() {
      counts.Length == MAX_BITS + 1 && symbols.Length == MAX_SYMBOLS && counts != symbols
    }

    /** The table of the canonical code with lengths `L`. */
    ghost predicate Represents(L: seq<nat>)
      reads counts, symbols
    {
      && Shaped() && ValidLengths(L)
      && (forall l :: 1 <= l <= MAX_BITS ==> counts[l] == Count(L, l))
      && FilledUpTo(L, |L|)
    }

    /** The symbols below `i` stand at their places. */
    ghost predicate FilledUpTo(L: seq<nat>, i: nat)
      requires Shaped() && ValidLengths(L) && i <= |L|
      reads symbols
    {
      forall l: nat, r: nat :: 1 <= l <= MAX_BITS && r < Count(L[..i], l) ==> PlacedAt(L, l, r)
    }

    ghost predicate PlacedAt(L: seq<nat>, l: nat, r: nat)
      requires Shaped() && ValidLengths(L)
      reads symbols
    {
      r < Count(L, l) && Offset(L, l) + r < MAX_SYMBOLS && symbols[Offset(L, l) + r] == OfLength(L, l)[r]
    }

    /** Placing symbol `i` keeps the symbols placed before it. */
    lemma PlaceNext(L: seq<nat>, i: nat, l: nat, r: nat)
      requires Shaped() && ValidLengths(L) && i < |L| && 1 <= L[i]
      requires 1 <= l <= MAX_BITS && r < Count(L[..i], l)
      ensures Offset(L, l) + r != Offset(L, L[i]) + Rank(L, i)
    {
      OfLengthPrefix(L, i, l);
      RankSelects(L, i);
      if l < L[i] { OffsetApart(L, l, L[i]); }
      if L[i] < l { OffsetApart(L, L[i], l); }
    }

    lemma RankFits(L: seq<nat>, i: nat)
      requires ValidLengths(L) && i < |L| && 1 <= L[i]
      ensures Offset(L, L[i]) + Rank(L, i) < |L|
    {
      RankSelects(L, i);
      OffsetApart(L, L[i], MAX_BITS + 1);
      OffsetBound(L, MAX_BITS + 1);
    }

    method CountLengths(lengths: seq<nat>)
      requires Shaped() && ValidLengths(lengths)
      modifies counts
      ensures forall l :: 1 <= l <= MAX_BITS ==> counts[l] == Count(lengths, l)
    {
      for k := 0 to MAX_BITS + 1
        invariant forall l :: 0 <= l < k ==> counts[l] == 0
      {
        counts[k] := 0;
      }
      for i := 0 to |lengths|
        invariant forall l :: 1 <= l <= MAX_BITS ==> counts[l] == Count(lengths[..i], l)
      {
        forall l | 1 <= l <= MAX_BITS
          ensures Count(lengths[..i + 1], l) == Count(lengths[..i], l) + (if lengths[i] == l then 1 else 0)
        {
          OfLengthNext(lengths, i, l);
        }
        if lengths[i] != 0 {
          counts[lengths[i]] := counts[lengths[i]] + 1;
        }
      }
      assert lengths[..|lengths|] == lengths;
    }

    method Offsets(lengths: seq<nat>) returns (offsets: array<nat>)
      requires Shaped() && forall l :: 1 <= l <= MAX_BITS ==> counts[l] == Count(lengths, l)
      ensures fresh(offsets) && offsets.Length == MAX_BITS + 1
      ensures forall l :: 1 <= l <= MAX_BITS ==> offsets[l] == Offset(lengths, l)
    {
      hide OfLength;
      offsets := new nat[MAX_BITS + 1];
      offsets[1] := 0;
      for i := 1 to MAX_BITS
        invariant forall l :: 1 <= l <= i ==> offsets[l] == Offset(lengths, l)
      {
        offsets[i + 1] := offsets[i] + counts[i];
      }
    }

    method Build(lengths: seq<nat>)
      requires Shaped() && ValidLengths(lengths)
      modifies counts, symbols
      ensures Represents(lengths)
    {
      hide OfLength, Offset, PlacedAt;
      CountLengths(lengths);
      var offsets := Offsets(lengths);
      assert lengths[..0] == [];
      NoneOfEmpty();
      for i := 0 to |lengths|
        invariant forall l :: 1 <= l <= MAX_BITS ==> counts[l] == Count(lengths, l)
        invariant forall l :: 1 <= l <= MAX_BITS ==> offsets[l] == Offset(lengths, l) + Count(lengths[..i], l)
        invariant FilledUpTo(lengths, i)
      {
        PlaceSymbol(lengths, i, offsets);
      }
      assert lengths[..|lengths|] == lengths;
    }

    method PlaceSymbol(lengths: seq<nat>, i: nat, offsets: array<nat>)
      requires Shaped() && ValidLengths(lengths) && i < |lengths|
      requires offsets.Length == MAX_BITS + 1 && offsets != symbols && offsets != counts
      requires forall l :: 1 <= l <= MAX_BITS ==> offsets[l] == Offset(lengths, l) + Count(lengths[..i], l)
      requires FilledUpTo(lengths, i)
      modifies symbols, offsets
      ensures forall l :: 1 <= l <= MAX_BITS ==> offsets[l] == Offset(lengths, l) + Count(lengths[..i + 1], l)
      ensures FilledUpTo(lengths, i + 1)
    {
      var n := lengths[i];
      if n != 0 {
        RankFits(lengths, i);
        symbols[offsets[n]] := i;
        offsets[n] := offsets[n] + 1;
        forall l: nat, r: nat | 1 <= l <= MAX_BITS && r < Count(lengths[..i], l) ensures PlacedAt(lengths, l, r) {
          assert old(PlacedAt(lengths, l, r));
          PlaceNext(lengths, i, l, r);
        }
        assert FilledUpTo(lengths, i);
      }
      FilledNext(lengths, i);
    }

    lemma FilledNext(L: seq<nat>, i: nat)
      requires Shaped() && ValidLengths(L) && i < |L| && FilledUpTo(L, i)
      requires L[i] != 0 ==> Offset(L, L[i]) + Rank(L, i) < MAX_SYMBOLS && symbols[Offset(L, L[i]) + Rank(L, i)] == i
      ensures FilledUpTo(L, i + 1)
      ensures forall l :: 1 <= l <= MAX_BITS ==>
        Count(L[..i + 1], l) == Count(L[..i], l) + (if L[i] == l then 1 else 0)
    {
      forall l: nat
        ensures Count(L[..i + 1], l) == Count(L[..i], l) + (if L[i] == l then 1 else 0)
      {
        OfLengthNext(L, i, l);
      }
      forall l: nat, r: nat | 1 <= l <= MAX_BITS && r < Count(L[..i + 1], l) ensures PlacedAt(L, l, r) {
        PlacedNext(L, i, l, r);
      }
    }

    lemma PlacedNext(L: seq<nat>, i: nat, l: nat, r: nat)
      requires Shaped() && ValidLengths(L) && i < |L| && FilledUpTo(L, i)
      requires L[i] != 0 ==> Offset(L, L[i]) + Rank(L, i) < MAX_SYMBOLS && symbols[Offset(L, L[i]) + Rank(L, i)] == i
      requires 1 <= l <= MAX_BITS && r < Count(L[..i], l) + (if L[i] == l then 1 else 0)
      ensures PlacedAt(L, l, r)
    {
      hide OfLength, Offset;
      if r == Count(L[..i], l) {
        RankSelects(L, i);
      } else {
        assert PlacedAt(L, l, r);
      }
    }
  }
}

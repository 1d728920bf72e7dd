/** The DEFLATE format (sections 3.2.3 to 3.2.7 of RFC 1951): blocks, the bytes they denote and
    the bits that encode them. An encoder's free choices (how a match is spelled, which code
    lengths a dynamic block uses and how it writes them, the filler before a stored block) are
    part of the block, so that every conforming stream is the encoding of some block list. */
module Deflate {
  import opened Bits
  import opened Huffman

  const LENGTH_BASE: seq<nat> := [
    3, 4, 5, 6, 7, 8, 9, 10, 11, 13, 15, 17, 19, 23, 27, 31,
    35, 43, 51, 59, 67, 83, 99, 115, 131, 163, 195, 227, 258]
  const LENGTH_EXTRA: seq<nat> := [
    0, 0, 0, 0, 0, 0, 0, 0, 1, 1, 1, 1, 2, 2, 2, 2,
    3, 3, 3, 3, 4, 4, 4, 4, 5, 5, 5, 5, 0]
  const DISTANCE_BASE: seq<nat> := [
    1, 2, 3, 4, 5, 7, 9, 13, 17, 25, 33, 49, 65, 97, 129, 193,
    257, 385, 513, 769, 1025, 1537, 2049, 3073, 4097, 6145, 8193, 12289, 16385, 24577]
  const DISTANCE_EXTRA: seq<nat> := [
    0, 0, 0, 0, 1, 1, 2, 2, 3, 3, 4, 4, 5, 5, 6, 6,
    7, 7, 8, 8, 9, 9, 10, 10, 11, 11, 12, 12, 13, 13]
  const CODE_LENGTH_ORDER: seq<nat> := [16, 17, 18, 0, 8, 7, 9, 6, 10, 5, 11, 4, 12, 3, 13, 2, 14, 1, 15]

  const END_OF_BLOCK: nat := 256

  lemma LengthTable(i: nat)
    requires i < 29
    ensures |LENGTH_BASE| == 29 && |LENGTH_EXTRA| == 29 && 3 <= LENGTH_BASE[i] && LENGTH_EXTRA[i] <= 5
  {
  }

  lemma DistanceTable(i: nat)
    requires i < 30
    ensures |DISTANCE_BASE| == 30 && |DISTANCE_EXTRA| == 30 && 1 <= DISTANCE_BASE[i] && DISTANCE_EXTRA[i] <= 13
  {
  }

  function LengthBase(i: nat): (r: nat)
    requires i < 29
    ensures r >= 3
  {
    LengthTable(i); LENGTH_BASE[i]
  }

  function LengthExtra(i: nat): (r: nat)
    requires i < 29
    ensures r <= 5
  {
    LengthTable(i); LENGTH_EXTRA[i]
  }

  function DistanceBase(i: nat): (r: nat)
    requires i < 30
    ensures r >= 1
  {
    DistanceTable(i); DISTANCE_BASE[i]
  }

  function DistanceExtra(i: nat): (r: nat)
    requires i < 30
    ensures r <= 13
  {
    DistanceTable(i); DISTANCE_EXTRA[i]
  }

  // ---------------------------------------------------------------- literals and matches

  /** A literal byte, or a match spelled as a length symbol, a distance symbol and their extra bits. */
  datatype Token =
    | Literal(b: byte)
    | Match(lsym: nat, lextra: nat, dsym: nat, dextra: nat)

  function MatchLength(t: Token): nat
    requires t.Match? && t.lsym < 29
  {
    LengthBase(t.lsym) + t.lextra
  }

  function MatchDistance(t: Token): (d: nat)
    requires t.Match? && t.dsym < 30
    ensures d >= 1
  {
    DistanceBase(t.dsym) + t.dextra
  }

  /** The ranges of neighbouring length symbols leave no gap. */
  lemma LengthSteps(i: nat)
    requires i < 28
    ensures LengthBase(i + 1) <= LengthBase(i) + Pow2(LengthExtra(i))
  {
    hide Pow2;
    Pow2Small();
    assert i == 0 || i == 1 || i == 2 || i == 3 || i == 4 || i == 5 || i == 6 || i == 7 || i == 8 || i == 9
         || i == 10 || i == 11 || i == 12 || i == 13 || i == 14 || i == 15 || i == 16 || i == 17 || i == 18
         || i == 19 || i == 20 || i == 21 || i == 22 || i == 23 || i == 24 || i == 25 || i == 26 || i == 27;
  }

  lemma DistanceSteps(i: nat)
    requires i < 29
    ensures DistanceBase(i + 1) <= DistanceBase(i) + Pow2(DistanceExtra(i))
  {
    hide Pow2;
    Pow2Small();
    Pow2Large();
    assert i == 0 || i == 1 || i == 2 || i == 3 || i == 4 || i == 5 || i == 6 || i == 7 || i == 8 || i == 9
         || i == 10 || i == 11 || i == 12 || i == 13 || i == 14 || i == 15 || i == 16 || i == 17 || i == 18
         || i == 19 || i == 20 || i == 21 || i == 22 || i == 23 || i == 24 || i == 25 || i == 26 || i == 27
         || i == 28;
  }

  /** The length symbols of section 3.2.5 of RFC 1951 in closed form: eight single lengths, then four
      symbols for each number of extra bits, and the longest length by itself. */
  lemma LengthClosed(i: nat)
    requires i < 29
    ensures i < 8 ==> LengthBase(i) == 3 + i && LengthExtra(i) == 0
    ensures 8 <= i < 28 ==> LengthExtra(i) == i / 4 - 1 && LengthBase(i) == 3 + (4 + i % 4) * Pow2(i / 4 - 1)
    ensures i == 28 ==> LengthBase(i) == 258 && LengthExtra(i) == 0
  {
    hide Pow2;
    Pow2Small();
    assert i == 0 || i == 1 || i == 2 || i == 3 || i == 4 || i == 5 || i == 6 || i == 7 || i == 8 || i == 9
         || i == 10 || i == 11 || i == 12 || i == 13 || i == 14 || i == 15 || i == 16 || i == 17 || i == 18
         || i == 19 || i == 20 || i == 21 || i == 22 || i == 23 || i == 24 || i == 25 || i == 26 || i == 27
         || i == 28;
  }

  /** The distance symbols of section 3.2.5: two for each number of extra bits, from the third on. */
  lemma DistanceClosed(i: nat)
    requires i < 30
    ensures i < 2 ==> DistanceBase(i) == 1 + i && DistanceExtra(i) == 0
    ensures 2 <= i ==> DistanceExtra(i) == i / 2 - 1 && DistanceBase(i) == 1 + (2 + i % 2) * Pow2(i / 2 - 1)
  {
    hide Pow2;
    Pow2Small();
    Pow2Large();
    assert i == 0 || i == 1 || i == 2 || i == 3 || i == 4 || i == 5 || i == 6 || i == 7 || i == 8 || i == 9
         || i == 10 || i == 11 || i == 12 || i == 13 || i == 14 || i == 15 || i == 16 || i == 17 || i == 18
         || i == 19 || i == 20 || i == 21 || i == 22 || i == 23 || i == 24 || i == 25 || i == 26 || i == 27
         || i == 28 || i == 29;
  }

  /** The order of section 3.2.7: the three repeat symbols, zero, and then the lengths from the middle
      outwards, upwards and downwards by turns. */
  lemma OrderClosed(i: nat)
    ensures |CODE_LENGTH_ORDER| == 19
    ensures CODE_LENGTH_ORDER[0] == 16 && CODE_LENGTH_ORDER[1] == 17 && CODE_LENGTH_ORDER[2] == 18
    ensures CODE_LENGTH_ORDER[3] == 0
    ensures i < 8 ==> CODE_LENGTH_ORDER[4 + 2 * i] == 8 + i
    ensures i < 7 ==> CODE_LENGTH_ORDER[5 + 2 * i] == 7 - i
  {
  }

  lemma Pow2Large()
    ensures Pow2(9) == 512 && Pow2(10) == 1024 && Pow2(11) == 2048 && Pow2(12) == 4096 && Pow2(13) == 8192
  {
    hide Pow2;
    Pow2Small();
    Pow2Add(8, 1);
    Pow2Add(8, 2);
    Pow2Add(8, 3);
    Pow2Add(8, 4);
    Pow2Add(8, 5);
  }

  lemma TableEnds()
    ensures LengthBase(0) == 3 && LengthBase(28) == 258 && LengthExtra(28) == 0
    ensures DistanceBase(0) == 1 && DistanceBase(29) == 24577 && DistanceExtra(29) == 13
  {
  }

  /** Every match length from 3 to 258 has a symbol and extra bits. */
  lemma {:induction false} EveryLength(len: nat, i: nat) returns (lsym: nat, lextra: nat)
    requires 3 <= len <= 258 && i < 29 && (if i == 28 then true else len < LengthBase(i + 1))
    ensures lsym < 29 && lextra < Pow2(LengthExtra(lsym)) && LengthBase(lsym) + lextra == len
    decreases i
  {
    hide LengthBase, LengthExtra;
    TableEnds();
    if LengthBase(i) <= len {
      if i < 28 { LengthSteps(i); }
      lsym, lextra := i, len - LengthBase(i);
    } else {
      lsym, lextra := EveryLength(len, i - 1);
    }
  }

  /** Every distance from 1 to 32768 has a symbol and extra bits. */
  lemma {:induction false} EveryDistance(dist: nat, i: nat) returns (dsym: nat, dextra: nat)
    requires 1 <= dist <= 32768 && i < 30 && (if i == 29 then true else dist < DistanceBase(i + 1))
    ensures dsym < 30 && dextra < Pow2(DistanceExtra(dsym)) && DistanceBase(dsym) + dextra == dist
    decreases i
  {
    hide DistanceBase, DistanceExtra, Pow2;
    TableEnds();
    Pow2Large();
    if DistanceBase(i) <= dist {
      if i < 29 { DistanceSteps(i); }
      dsym, dextra := i, dist - DistanceBase(i);
    } else {
      dsym, dextra := EveryDistance(dist, i - 1);
    }
  }

  /** Every match the format allows is spelled by some token. */
  lemma EveryMatch(len: nat, dist: nat) returns (t: Token)
    requires 3 <= len <= 258 && 1 <= dist <= 32768
    ensures t.Match? && t.lsym < 29 && t.dsym < 30 && MatchLength(t) == len && MatchDistance(t) == dist
    ensures t.lextra < Pow2(LengthExtra(t.lsym)) && t.dextra < Pow2(DistanceExtra(t.dsym))
  {
    var lsym, lextra := EveryLength(len, 28);
    var dsym, dextra := EveryDistance(dist, 29);
    t := Match(lsym, lextra, dsym, dextra);
  }

  /** The token can be written with these two codes after `n` bytes of output. */
  ghost predicate ValidToken(t: Token, n: nat, ll: seq<nat>, dl: seq<nat>) {
    match t
    case Literal(b) => b < |ll| && ll[b] >= 1
    case Match(lsym, lextra, dsym, dextra) =>
      && lsym < 29 && lextra < Pow2(LengthExtra(lsym)) && 257 + lsym < |ll| && ll[257 + lsym] >= 1
      && dsym < 30 && dextra < Pow2(DistanceExtra(dsym)) && dsym < |dl| && dl[dsym] >= 1
      && MatchDistance(t) <= n
  }

  /** `len` bytes that repeat the last `dist` bytes of the output, as often as needed. */
  function Repeat(out: seq<byte>, dist: nat, len: nat): seq<byte>
    requires 1 <= dist <= |out|
  {
    out + seq(len, j requires 0 <= j < len => out[|out| - dist + j % dist])
  }

  /** The output after one token. */
  function Apply(out: seq<byte>, t: Token): (r: seq<byte>)
    ensures out <= r
  {
    match t
    case Literal(b) => out + [b]
    case Match(lsym, _, dsym, _) =>
      if lsym < 29 && dsym < 30 && MatchDistance(t) <= |out|
      then Repeat(out, MatchDistance(t), MatchLength(t))
      else out
  }

  function ApplyAll(out: seq<byte>, toks: seq<Token>): (r: seq<byte>)
    ensures out <= r
    decreases |toks|
  {
    if toks == [] then out else ApplyAll(Apply(out, toks[0]), toks[1..])
  }

  ghost predicate ValidTokens(out: seq<byte>, toks: seq<Token>, ll: seq<nat>, dl: seq<nat>)
    decreases |toks|
  {
    toks != [] ==>
      && ValidToken(toks[0], |out|, ll, dl)
      && ValidTokens(Apply(out, toks[0]), toks[1..], ll, dl)
  }

  function SymbolBits(L: seq<nat>, i: nat): seq<bool>
    requires i < |L| && L[i] >= 1
  {
    CodeBits(Code(L, i), L[i])
  }

  ghost function TokenBits(t: Token, n: nat, ll: seq<nat>, dl: seq<nat>): seq<bool>
    requires ValidToken(t, n, ll, dl)
  {
    match t
    case Literal(b) => SymbolBits(ll, b)
    case Match(lsym, lextra, dsym, dextra) =>
      SymbolBits(ll, 257 + lsym)
      + (FieldBits(lextra, LengthExtra(lsym))
         + (SymbolBits(dl, dsym) + FieldBits(dextra, DistanceExtra(dsym))))
  }

  /** The compressed data of a block: its tokens and the end-of-block code. */
  ghost function TokensBits(out: seq<byte>, toks: seq<Token>, ll: seq<nat>, dl: seq<nat>): seq<bool>
    requires ValidTokens(out, toks, ll, dl) && END_OF_BLOCK < |ll| && ll[END_OF_BLOCK] >= 1
    decreases |toks|
  {
    if toks == [] then SymbolBits(ll, END_OF_BLOCK)
    else TokenBits(toks[0], |out|, ll, dl) + TokensBits(Apply(out, toks[0]), toks[1..], ll, dl)
  }

  // ---------------------------------------------------------------- the fixed codes

  function Run(k: nat, l: nat): (r: seq<nat>)
    ensures |r| == k && forall i :: 0 <= i < k ==> r[i] == l
  {
    seq(k, _ => l)
  }

  function FixedLiterals(): (L: seq<nat>)
    ensures |L| == 288
  {
    Run(144, 8) + Run(112, 9) + Run(24, 7) + Run(8, 8)
  }

  function FixedDistances(): (L: seq<nat>)
    ensures |L| == 32
  {
    Run(32, 5)
  }

  lemma {:induction false} KraftRun(L: seq<nat>, k: nat, l: nat)
    requires 1 <= l <= MAX_BITS && forall i :: 0 <= i < |L| ==> L[i] <= MAX_BITS
    ensures Kraft(L + Run(k, l)) == Kraft(L) + k * Pow2(MAX_BITS - l)
    decreases k
  {
    hide Pow2, Kraft;
    if k == 0 {
      assert L + Run(k, l) == L;
    } else {
      KraftRun(L, k - 1, l);
      KraftMore(L + Run(k - 1, l), l);
      assert L + Run(k, l) == L + Run(k - 1, l) + [l];
      Distribute(k - 1, 1, Pow2(MAX_BITS - l));
    }
  }

  lemma KraftMore(L: seq<nat>, l: nat)
    requires 1 <= l <= MAX_BITS && forall i :: 0 <= i < |L| ==> L[i] <= MAX_BITS
    ensures Kraft(L + [l]) == Kraft(L) + Pow2(MAX_BITS - l)
  {
    assert (L + [l])[..|L|] == L;
  }

  /** The fixed codes are legal codes; both use up the whole code space. */
  lemma FixedCodesFit()
    ensures NotOversubscribed(FixedLiterals()) && NotOversubscribed(FixedDistances())
    ensures Kraft(FixedLiterals()) == Pow2(MAX_BITS) == Kraft(FixedDistances())
  {
    hide Kraft, Pow2;
    var a, b, c := Run(144, 8), Run(112, 9), Run(24, 7);
    KraftNone();
    KraftRun([], 144, 8);
    assert [] + a == a;
    KraftRun(a, 112, 9);
    KraftRun(a + b, 24, 7);
    KraftRun(a + b + c, 8, 8);
    KraftRun([], 32, 5);
    assert [] + Run(32, 5) == Run(32, 5);
    Powers();
  }

  lemma KraftNone()
    ensures Kraft([]) == 0
  {
  }

  lemma Powers()
    ensures Pow2(6) == 64 && Pow2(7) == 128 && Pow2(8) == 256 && Pow2(10) == 1024 && Pow2(15) == 32768
  {
  }

  lemma {:induction false} CountRun(L: seq<nat>, k: nat, x: nat, l: nat)
    ensures Count(L + Run(k, x), l) == Count(L, l) + if x == l then k else 0
    decreases k
  {
    hide OfLength;
    if k == 0 {
      assert L + Run(k, x) == L;
    } else {
      CountRun(L, k - 1, x, l);
      CountSnoc(L + Run(k - 1, x), x, l);
      assert L + Run(k, x) == L + Run(k - 1, x) + [x];
    }
  }

  /** The first `i` of the fixed literal lengths hold so many lengths `l`. */
  lemma FixedCount(i: nat, l: nat)
    requires i <= 288
    ensures Count(FixedLiterals()[..i], l) ==
      if l == 8 then (if i < 144 then i else if i < 280 then 144 else i - 136)
      else if l == 9 then (if i < 144 then 0 else if i < 256 then i - 144 else 112)
      else if l == 7 then (if i < 256 then 0 else if i < 280 then i - 256 else 24)
      else 0
  {
    hide OfLength, Run;
    var a := if i < 144 then i else 144;
    var b := if i < 144 then 0 else if i < 256 then i - 144 else 112;
    var c := if i < 256 then 0 else if i < 280 then i - 256 else 24;
    var d := if i < 280 then 0 else i - 280;
    FixedPrefix(i, a, b, c, d);
    NoneOfEmpty();
    CountRun([], a, 8, l);
    CountRun([] + Run(a, 8), b, 9, l);
    CountRun([] + Run(a, 8) + Run(b, 9), c, 7, l);
    CountRun([] + Run(a, 8) + Run(b, 9) + Run(c, 7), d, 8, l);
  }

  lemma FixedPrefix(i: nat, a: nat, b: nat, c: nat, d: nat)
    requires i <= 288 && a == (if i < 144 then i else 144)
    requires b == (if i < 144 then 0 else if i < 256 then i - 144 else 112)
    requires c == (if i < 256 then 0 else if i < 280 then i - 256 else 24) && d == if i < 280 then 0 else i - 280
    ensures FixedLiterals()[..i] == [] + Run(a, 8) + Run(b, 9) + Run(c, 7) + Run(d, 8)
  {
    var x, y := FixedLiterals()[..i], [] + Run(a, 8) + Run(b, 9) + Run(c, 7) + Run(d, 8);
    assert |x| == i == |y|;
    assert forall k :: 0 <= k < i ==> x[k] == y[k];
  }

  /** The table of section 3.2.6 of RFC 1951: literals 0 to 143 have the codes from 00110000 on, 144 to
      255 those from 110010000 on, 256 to 279 those from 0000000 on and 280 to 287 those from 11000000 on;
      the distance codes are the five-bit numbers. */
  lemma FixedCodes(i: nat)
    requires i < 288
    ensures var (l, c) := if i < 144 then (8, 0x30 + i) else if i < 256 then (9, 0x190 + (i - 144))
                          else if i < 280 then (7, i - 256) else (8, 0xC0 + (i - 280));
      FixedLiterals()[i] == l && Code(FixedLiterals(), i) == c
    ensures i < 32 ==> FixedDistances()[i] == 5 && Code(FixedDistances(), i) == i
  {
    hide OfLength, Run;
    var L := FixedLiterals();
    FixedFirst();
    FixedCount(i, L[i]);
    if i < 32 { FixedDistanceCode(i); }
  }

  lemma FixedFirst()
    ensures FirstCode(FixedLiterals(), 7) == 0 && FirstCode(FixedLiterals(), 8) == 0x30
    ensures FirstCode(FixedLiterals(), 9) == 0x190
  {
    hide OfLength, Run, FixedLiterals;
    var L := FixedLiterals();
    assert L[..288] == L;
    forall l: nat | l < 9 ensures Count(L, l) == if l == 8 then 152 else if l == 7 then 24 else 0 {
      FixedCount(288, l);
    }
    NoCodes(L, 7);
    assert FirstCode(L, 8) == 2 * (FirstCode(L, 7) + Count(L, 7));
    assert FirstCode(L, 9) == 2 * (FirstCode(L, 8) + Count(L, 8));
  }

  lemma {:induction false} NoCodes(L: seq<nat>, l: nat)
    requires l >= 1 && forall k: nat :: k < l ==> Count(L, k) == 0
    ensures FirstCode(L, l) == 0
  {
    hide OfLength;
    if l > 1 { NoCodes(L, l - 1); }
  }

  lemma FixedDistanceCode(i: nat)
    requires i < 32
    ensures FixedDistances()[i] == 5 && Code(FixedDistances(), i) == i
  {
    hide OfLength;
    var L := FixedDistances();
    NoneOfEmpty();
    forall l: nat | l < 5 ensures Count(L, l) == 0 {
      CountRun([], 32, 5, l);
      assert [] + Run(32, 5) == L;
    }
    NoCodes(L, 5);
    CountRun([], i, 5, 5);
    assert L[..i] == [] + Run(i, 5);
  }

  // ---------------------------------------------------------------- code lengths of a dynamic block

  /** How a dynamic block writes its code lengths. */
  datatype LengthOp =
    | Single(l: nat)      // a length from 0 to 15
    | Again(n: nat)       // symbol 16: the previous length, 3 to 6 times
    | Zeros(n: nat)       // symbol 17: 3 to 10 zeros
    | ManyZeros(n: nat)   // symbol 18: 11 to 138 zeros

  ghost predicate ValidOp(op: LengthOp, acc: seq<nat>, cl: seq<nat>)
    requires |cl| == 19
  {
    match op
    case Single(l) => l <= 15 && cl[l] >= 1
    case Again(n) => 3 <= n <= 6 && cl[16] >= 1 && acc != []
    case Zeros(n) => 3 <= n <= 10 && cl[17] >= 1
    case ManyZeros(n) => 11 <= n <= 138 && cl[18] >= 1
  }

  function ApplyOp(acc: seq<nat>, op: LengthOp): (r: seq<nat>)
    ensures acc <= r
  {
    match op
    case Single(l) => acc + [l]
    case Again(n) => acc + Run(n, if acc == [] then 0 else acc[|acc| - 1])
    case Zeros(n) => acc + Run(n, 0)
    case ManyZeros(n) => acc + Run(n, 0)
  }

  function ApplyOps(acc: seq<nat>, ops: seq<LengthOp>): (r: seq<nat>)
    ensures acc <= r
    decreases |ops|
  {
    if ops == [] then acc else ApplyOps(ApplyOp(acc, ops[0]), ops[1..])
  }

  ghost predicate ValidOps(acc: seq<nat>, ops: seq<LengthOp>, cl: seq<nat>)
    requires |cl| == 19
    decreases |ops|
  {
    ops != [] ==> ValidOp(ops[0], acc, cl) && ValidOps(ApplyOp(acc, ops[0]), ops[1..], cl)
  }

  ghost function OpBits(op: LengthOp, acc: seq<nat>, cl: seq<nat>): seq<bool>
    requires |cl| == 19 && ValidOp(op, acc, cl)
  {
    match op
    case Single(l) => SymbolBits(cl, l)
    case Again(n) => SymbolBits(cl, 16) + FieldBits(n - 3, 2)
    case Zeros(n) => SymbolBits(cl, 17) + FieldBits(n - 3, 3)
    case ManyZeros(n) => SymbolBits(cl, 18) + FieldBits(n - 11, 7)
  }

  ghost function OpsBits(acc: seq<nat>, ops: seq<LengthOp>, cl: seq<nat>): seq<bool>
    requires |cl| == 19 && ValidOps(acc, ops, cl)
    decreases |ops|
  {
    if ops == [] then []
    else OpBits(ops[0], acc, cl) + OpsBits(ApplyOp(acc, ops[0]), ops[1..], cl)
  }

  lemma {:induction false} OrderInRange(i: nat)
    requires i < 19
    ensures |CODE_LENGTH_ORDER| == 19 && CODE_LENGTH_ORDER[i] < 19
  {
  }

  /** The lengths of the code length code, three bits each, from entry `i` of the order on. */
  function CodeLengthBits(cl: seq<nat>, i: nat, hclen: nat): seq<bool>
    requires |cl| == 19 && i <= hclen <= 19
    decreases hclen - i
  {
    if i == hclen then []
    else
      OrderInRange(i);
      FieldBits(cl[CODE_LENGTH_ORDER[i]], 3) + CodeLengthBits(cl, i + 1, hclen)
  }

  /** What a dynamic block says about its codes. */
  datatype Codes = Codes(hlit: nat, hclen: nat, cl: seq<nat>, ops: seq<LengthOp>)
  {
    function Lengths(): seq<nat> { ApplyOps([], ops) }

    function LiteralLengths(): seq<nat>
      requires hlit <= |Lengths()|
    {
      Lengths()[..hlit]
    }

    function DistanceLengths(): seq<nat>
      requires hlit <= |Lengths()|
    {
      Lengths()[hlit..]
    }

    ghost predicate Valid() {
      && 257 <= hlit <= 288 && 4 <= hclen <= 19 && |cl| == 19
      && (forall i :: 0 <= i < 19 ==> cl[i] <= 7)
      && (forall i :: hclen <= i < 19 ==> CodeLengthSkipped(i))
      && NotOversubscribed(cl) && ValidOps([], ops, cl)
      && hlit + 1 <= |Lengths()| <= hlit + 32
      && NotOversubscribed(LiteralLengths()) && NotOversubscribed(DistanceLengths())
      && LiteralLengths()[END_OF_BLOCK] >= 1
    }

    ghost predicate CodeLengthSkipped(i: nat)
      requires |cl| == 19 && i < 19
    {
      OrderInRange(i);
      cl[CODE_LENGTH_ORDER[i]] == 0
    }

    ghost function HeaderBits(): seq<bool>
      requires Valid()
    {
      FieldBits(hlit - 257, 5)
      + (FieldBits(|Lengths()| - hlit - 1, 5)
         + (FieldBits(hclen - 4, 4)
            + (CodeLengthBits(cl, 0, hclen) + OpsBits([], ops, cl))))
    }
  }

  // ---------------------------------------------------------------- blocks

  datatype Block =
    | Stored(filler: seq<bool>, data: seq<byte>)
    | Fixed(tokens: seq<Token>)
    | Dynamic(codes: Codes, tokens: seq<Token>)

  /** The bits to the next byte boundary. */
  function Gap(pos: nat): (g: nat)
    ensures g < 8 && (pos + g) % 8 == 0
  {
    (8 - pos % 8) % 8
  }

  /** The block can be written at bit `pos` after the output `out`. */
  ghost predicate ValidBlock(b: Block, pos: nat, out: seq<byte>) {
    match b
    case Stored(filler, data) => |filler| == Gap(pos + 3) && |data| <= 0xFFFF
    case Fixed(toks) => ValidTokens(out, toks, FixedLiterals(), FixedDistances())
    case Dynamic(codes, toks) =>
      codes.Valid() && ValidTokens(out, toks, codes.LiteralLengths(), codes.DistanceLengths())
  }

  function BlockOutput(out: seq<byte>, b: Block): (r: seq<byte>)
    ensures out <= r
  {
    match b
    case Stored(_, data) => out + data
    case Fixed(toks) => ApplyAll(out, toks)
    case Dynamic(_, toks) => ApplyAll(out, toks)
  }

  function DataBits(data: seq<byte>): (r: seq<bool>)
    ensures |r| == 8 * |data|
  {
    if data == [] then [] else FieldBits(data[0], 8) + DataBits(data[1..])
  }

  lemma FixedEndOfBlock()
    ensures END_OF_BLOCK < |FixedLiterals()| && FixedLiterals()[END_OF_BLOCK] == 7
  {
  }

  ghost function BodyBits(b: Block, pos: nat, out: seq<byte>): seq<bool>
    requires ValidBlock(b, pos, out)
  {
    match b
    case Stored(filler, data) =>
      filler + (FieldBits(|data|, 16) + (FieldBits(0xFFFF - |data|, 16) + DataBits(data)))
    case Fixed(toks) =>
      FixedEndOfBlock();
      TokensBits(out, toks, FixedLiterals(), FixedDistances())
    case Dynamic(codes, toks) =>
      codes.HeaderBits() + TokensBits(out, toks, codes.LiteralLengths(), codes.DistanceLengths())
  }

  function BlockType(b: Block): nat {
    match b
    case Stored(_, _) => 0
    case Fixed(_) => 1
    case Dynamic(_, _) => 2
  }

  ghost function BlockBits(b: Block, final: bool, pos: nat, out: seq<byte>): seq<bool>
    requires ValidBlock(b, pos, out)
  {
    [final] + (FieldBits(BlockType(b), 2) + BodyBits(b, pos, out))
  }

  /** Where the block after `b` starts. */
  /** The three header bits of section 3.2.3 of RFC 1951: the final bit, and the block type with its
      low bit first. */
  lemma BlockHeader(b: Block, final: bool, pos: nat, out: seq<byte>)
    requires ValidBlock(b, pos, out)
    ensures |BlockBits(b, final, pos, out)| == 3 + |BodyBits(b, pos, out)|
    ensures BlockBits(b, final, pos, out)[0] == final
    ensures BlockBits(b, final, pos, out)[1] == b.Fixed? && BlockBits(b, final, pos, out)[2] == b.Dynamic?
    ensures BlockBits(b, final, pos, out)[3..] == BodyBits(b, pos, out)
  {
    hide BodyBits, ValidBlock;
    var t := FieldBits(BlockType(b), 2);
    assert t == [b.Fixed?, b.Dynamic?];
  }

  ghost function NextPos(b: Block, pos: nat, out: seq<byte>): nat
    requires ValidBlock(b, pos, out)
  {
    pos + 3 + |BodyBits(b, pos, out)|
  }

  ghost predicate ValidBlocks(blocks: seq<Block>, pos: nat, out: seq<byte>)
    decreases |blocks|
  {
    && blocks != []
    && ValidBlock(blocks[0], pos, out)
    && (|blocks| > 1 ==>
          ValidBlocks(blocks[1..], NextPos(blocks[0], pos, out), BlockOutput(out, blocks[0])))
  }

  /** The whole stream: every block but the last has its final bit clear. */
  ghost function StreamBits(blocks: seq<Block>, pos: nat, out: seq<byte>): seq<bool>
    requires ValidBlocks(blocks, pos, out)
    decreases |blocks|
  {
    if |blocks| == 1 then BlockBits(blocks[0], true, pos, out)
    else
      BlockBits(blocks[0], false, pos, out)
      + StreamBits(blocks[1..], NextPos(blocks[0], pos, out), BlockOutput(out, blocks[0]))
  }

  /** The bytes a stream denotes. */
  function StreamOutput(out: seq<byte>, blocks: seq<Block>): (r: seq<byte>)
    ensures out <= r
    decreases |blocks|
  {
    if blocks == [] then out else StreamOutput(BlockOutput(out, blocks[0]), blocks[1..])
  }

  /** Every byte string is denoted by some stream, from any position. */
  lemma {:induction false} EveryOutput(data: seq<byte>, pos: nat, out: seq<byte>) returns (blocks: seq<Block>)
    ensures ValidBlocks(blocks, pos, out) && StreamOutput(out, blocks) == out + data
    decreases |data|
  {
    hide ValidBlocks, StreamOutput, ValidBlock, NextPos, StoredAt;
    if |data| <= 0xFFFF {
      blocks := [StoredAt(pos, data)];
      LastStored(data, pos, out);
    } else {
      var head, tail := data[..0xFFFF], data[0xFFFF..];
      StoredValid(head, pos, out);
      Joined(data, 0xFFFF, out);
      var rest := EveryOutput(tail, NextPos(StoredAt(pos, head), pos, out), out + head);
      blocks := [StoredAt(pos, head)] + rest;
      FirstStored(head, rest, pos, out);
    }
  }

  lemma Joined(data: seq<byte>, n: nat, out: seq<byte>)
    requires n <= |data|
    ensures out + data[..n] + data[n..] == out + data
  {
  }

  lemma StoredValid(data: seq<byte>, pos: nat, out: seq<byte>)
    requires |data| <= 0xFFFF
    ensures ValidBlock(StoredAt(pos, data), pos, out)
  {
  }

  function StoredAt(pos: nat, data: seq<byte>): Block {
    Stored(seq(Gap(pos + 3), _ => false), data)
  }

  lemma LastStored(data: seq<byte>, pos: nat, out: seq<byte>)
    requires |data| <= 0xFFFF
    ensures var blocks := [StoredAt(pos, data)];
      ValidBlocks(blocks, pos, out) && StreamOutput(out, blocks) == out + data
  {
    hide BodyBits, ValidTokens, Codes.Valid;
    var blocks := [StoredAt(pos, data)];
    assert StreamOutput(out + data, blocks[1..]) == out + data;
  }

  lemma FirstStored(data: seq<byte>, rest: seq<Block>, pos: nat, out: seq<byte>)
    requires |data| <= 0xFFFF && ValidBlock(StoredAt(pos, data), pos, out)
    requires ValidBlocks(rest, NextPos(StoredAt(pos, data), pos, out), out + data)
    ensures ValidBlocks([StoredAt(pos, data)] + rest, pos, out)
    ensures StreamOutput(out, [StoredAt(pos, data)] + rest) == StreamOutput(out + data, rest)
  {
    hide BodyBits, ValidTokens, Codes.Valid;
    var blocks := [StoredAt(pos, data)] + rest;
    assert blocks[1..] == rest;
  }
}

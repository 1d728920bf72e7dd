/** The decoder as a function of the input bits, on every input, and the proof that it inverts
    the encoding. `Undefined` marks the inputs on which the decoder of gzip.cpp indexes outside
    one of its arrays. */
module Inflate {
  import opened Bits
  import opened Huffman
  import opened Deflate

  const LENGTHS_ARRAY: nat := 320

  /** A match copied one byte at a time, each byte from `dist` bytes back. */
  function CopyMatch(out: seq<byte>, dist: nat, n: nat): (r: seq<byte>)
    requires 1 <= dist <= |out|
    ensures |r| == |out| + n
    decreases n
  {
    if n == 0 then out
    else
      var o := CopyMatch(out, dist, n - 1);
      o + [o[|o| - dist]]
  }

  lemma ModBack(j: nat, d: nat)
    requires 1 <= d
    ensures j < d ==> j % d == j
    ensures j >= d ==> (j - d) % d == j % d
  {
    if j < d {
      DivModUnique(j, d, 0, j);
    } else {
      var q, r := (j - d) / d, (j - d) % d;
      assert j - d == r + d * q;
      assert d * (q + 1) == d * q + d;
      DivModUnique(j, d, q + 1, r);
    }
  }

  lemma RepeatNext(out: seq<byte>, dist: nat, n: nat)
    requires 1 <= dist <= |out| && n > 0
    ensures var o := Repeat(out, dist, n - 1); Repeat(out, dist, n) == o + [o[|o| - dist]]
  {
    ModBack(n - 1, dist);
    var o := Repeat(out, dist, n - 1);
    var r := Repeat(out, dist, n);
    assert r[..|out| + n - 1] == o;
    if n - 1 >= dist {
      assert o[|o| - dist] == out[|out| - dist + (n - 1 - dist) % dist];
    } else {
      assert o[|o| - dist] == out[|out| + n - 1 - dist];
    }
  }

  /** Copying byte by byte repeats the window, also where source and target overlap. */
  lemma {:induction false} CopyRepeats(out: seq<byte>, dist: nat, n: nat)
    requires 1 <= dist <= |out|
    ensures CopyMatch(out, dist, n) == Repeat(out, dist, n)
    decreases n
  {
    if n == 0 {
      assert Repeat(out, dist, n) == out;
    } else {
      hide Repeat;
      CopyRepeats(out, dist, n - 1);
      RepeatNext(out, dist, n);
    }
  }

  datatype Progress = Progress(ok: bool, pos: nat, out: seq<byte>)

  /** The compressed data of a block, up to its end-of-block code. */
  function Tokens(input: seq<byte>, pos: nat, ll: seq<nat>, dl: seq<nat>, out: seq<byte>, cap: nat): (r: Progress)
    requires |out| <= cap
    ensures pos <= r.pos && |r.out| <= cap
    decreases cap - |out|
  {
    var (sym, p) := Decode(input, pos, ll);
    if sym < 0 || sym > 285 then Progress(false, p, out)
    else if sym < 256 then
      if |out| >= cap then Progress(false, p, out)
      else Tokens(input, p, ll, dl, out + [sym], cap)
    else if sym == 256 then Progress(true, p, out)
    else MatchFrom(input, p, ll, dl, out, cap, sym - 257)
  }

  /** The rest of a match after its length symbol, and the data behind it. */
  function MatchFrom(input: seq<byte>, p: nat, ll: seq<nat>, dl: seq<nat>, out: seq<byte>, cap: nat,
                     k: nat): (r: Progress)
    requires |out| <= cap && k < 29
    ensures p <= r.pos && |r.out| <= cap
    decreases cap - |out|, 0
  {
    var len := LengthBase(k) + Field(input, p, LengthExtra(k));
    var (d, p2) := Decode(input, p + LengthExtra(k), dl);
    if d < 0 || d > 29 then Progress(false, p2, out)
    else
      var dist := DistanceBase(d) + Field(input, p2, DistanceExtra(d));
      var p3 := p2 + DistanceExtra(d);
      if dist > |out| then Progress(false, p3, out)
      else if |out| + len > cap then Progress(false, p3, CopyMatch(out, dist, cap - |out|))
      else Tokens(input, p3, ll, dl, CopyMatch(out, dist, len), cap)
  }

  lemma LiteralInverts(input: seq<byte>, pos: nat, b: byte, out: seq<byte>, ll: seq<nat>, dl: seq<nat>, cap: nat)
    requires NotOversubscribed(ll) && b < |ll| && ll[b] >= 1
    requires Holds(input, pos, SymbolBits(ll, b)) && |out| < cap
    ensures Tokens(input, pos, ll, dl, out, cap) == Tokens(input, pos + ll[b], ll, dl, out + [b], cap)
  {
    hide Holds, Decode, Code, CodeBits, NotOversubscribed, MatchFrom;
    DecodeCanonical(input, pos, ll, b);
  }

  lemma LengthInverts(input: seq<byte>, pos: nat, k: nat, out: seq<byte>, ll: seq<nat>, dl: seq<nat>, cap: nat)
    requires NotOversubscribed(ll) && k < 29 && 257 + k < |ll| && ll[257 + k] >= 1
    requires Holds(input, pos, SymbolBits(ll, 257 + k)) && |out| <= cap
    ensures Tokens(input, pos, ll, dl, out, cap) == MatchFrom(input, pos + ll[257 + k], ll, dl, out, cap, k)
  {
    hide Holds, Decode, Code, CodeBits, NotOversubscribed, MatchFrom;
    DecodeCanonical(input, pos, ll, 257 + k);
  }

  lemma TokenInverts(input: seq<byte>, pos: nat, t: Token, out: seq<byte>, ll: seq<nat>, dl: seq<nat>, cap: nat)
    requires NotOversubscribed(ll) && NotOversubscribed(dl) && ValidToken(t, |out|, ll, dl)
    requires Holds(input, pos, TokenBits(t, |out|, ll, dl)) && |Apply(out, t)| <= cap
    ensures Tokens(input, pos, ll, dl, out, cap)
         == Tokens(input, pos + |TokenBits(t, |out|, ll, dl)|, ll, dl, Apply(out, t), cap)
  {
    hide *;
    match t
    case Literal(b) =>
      LiteralParts(b, out, ll, dl);
      LiteralInverts(input, pos, b, out, ll, dl, cap);
    case Match(lsym, _, dsym, _) =>
      MatchParts(t, |out|, ll, dl);
      var rest := MatchRest(t, |out|, ll, dl);
      HoldsSplit(input, pos, SymbolBits(ll, 257 + lsym), rest);
      LongerMatch(out, t);
      LengthInverts(input, pos, lsym, out, ll, dl, cap);
      MatchInverts(input, pos + ll[257 + lsym], t, out, ll, dl, cap);
  }

  lemma LiteralParts(b: byte, out: seq<byte>, ll: seq<nat>, dl: seq<nat>)
    requires ValidToken(Literal(b), |out|, ll, dl)
    ensures b < |ll| && ll[b] >= 1 && TokenBits(Literal(b), |out|, ll, dl) == SymbolBits(ll, b)
    ensures |SymbolBits(ll, b)| == ll[b] && Apply(out, Literal(b)) == out + [b]
  {
    hide Code;
  }

  /** The bits of a match behind its length symbol. */
  ghost function MatchRest(t: Token, n: nat, ll: seq<nat>, dl: seq<nat>): seq<bool>
    requires t.Match? && ValidToken(t, n, ll, dl)
  {
    FieldBits(t.lextra, LengthExtra(t.lsym)) + (SymbolBits(dl, t.dsym) + FieldBits(t.dextra, DistanceExtra(t.dsym)))
  }

  lemma MatchParts(t: Token, n: nat, ll: seq<nat>, dl: seq<nat>)
    requires t.Match? && ValidToken(t, n, ll, dl)
    ensures t.lsym < 29 && 257 + t.lsym < |ll| && ll[257 + t.lsym] >= 1 && t.dsym < 30 && t.dsym < |dl|
    ensures dl[t.dsym] >= 1 && |SymbolBits(ll, 257 + t.lsym)| == ll[257 + t.lsym]
    ensures TokenBits(t, n, ll, dl) == SymbolBits(ll, 257 + t.lsym) + MatchRest(t, n, ll, dl)
    ensures |TokenBits(t, n, ll, dl)|
         == ll[257 + t.lsym] + LengthExtra(t.lsym) + dl[t.dsym] + DistanceExtra(t.dsym)
  {
    hide Code, Pow2, LengthBase, LengthExtra, DistanceBase, DistanceExtra;
  }

  lemma LongerMatch(out: seq<byte>, t: Token)
    ensures |out| <= |Apply(out, t)|
  {
  }

  lemma MatchInverts(input: seq<byte>, p: nat, t: Token, out: seq<byte>, ll: seq<nat>, dl: seq<nat>, cap: nat)
    requires NotOversubscribed(dl) && t.Match? && ValidToken(t, |out|, ll, dl) && |Apply(out, t)| <= cap
    requires Holds(input, p, MatchRest(t, |out|, ll, dl))
    ensures MatchFrom(input, p, ll, dl, out, cap, t.lsym)
         == Tokens(input, p + LengthExtra(t.lsym) + dl[t.dsym] + DistanceExtra(t.dsym), ll, dl, Apply(out, t), cap)
  {
    hide Holds, Bit, Field, FieldBits, Pow2, Decode, DecodeFrom, Code, CodeBits, Kraft, NotOversubscribed, Repeat,
         CopyMatch, Tokens, Apply, LengthBase, LengthExtra, DistanceBase, DistanceExtra;
    var e, d, f := FieldBits(t.lextra, LengthExtra(t.lsym)), SymbolBits(dl, t.dsym),
                   FieldBits(t.dextra, DistanceExtra(t.dsym));
    HoldsSplit(input, p, e, d + f);
    HoldsSplit(input, p + |e|, d, f);
    FieldOfBits(input, p, t.lextra, LengthExtra(t.lsym));
    DecodeCanonical(input, p + |e|, dl, t.dsym);
    FieldOfBits(input, p + |e| + |d|, t.dextra, DistanceExtra(t.dsym));
    CopyIsRepeat(out, t);
  }

  /** The effect of a valid match is the byte-wise copy. */
  lemma CopyIsRepeat(out: seq<byte>, t: Token)
    requires t.Match? && t.lsym < 29 && t.dsym < 30 && MatchDistance(t) <= |out|
    ensures Apply(out, t) == CopyMatch(out, MatchDistance(t), MatchLength(t))
    ensures |Apply(out, t)| == |out| + MatchLength(t)
  {
    hide CopyMatch, LengthBase, DistanceBase;
    CopyRepeats(out, MatchDistance(t), MatchLength(t));
  }

  /** Decoding a block's compressed data yields what its tokens denote. */
  lemma {:induction false} TokensInvert(input: seq<byte>, pos: nat, toks: seq<Token>, out: seq<byte>,
                                        ll: seq<nat>, dl: seq<nat>, cap: nat)
    requires NotOversubscribed(ll) && NotOversubscribed(dl) && ValidTokens(out, toks, ll, dl)
    requires END_OF_BLOCK < |ll| && ll[END_OF_BLOCK] >= 1
    requires Holds(input, pos, TokensBits(out, toks, ll, dl)) && |ApplyAll(out, toks)| <= cap
    ensures Tokens(input, pos, ll, dl, out, cap)
         == Progress(true, pos + |TokensBits(out, toks, ll, dl)|, ApplyAll(out, toks))
    decreases |toks|
  {
    hide Holds, Bit, Field, FieldBits, Pow2, Decode, DecodeFrom, Code, CodeBits, Kraft, NotOversubscribed, Apply,
         TokenBits, ValidToken, MatchFrom;
    if toks == [] {
      DecodeCanonical(input, pos, ll, END_OF_BLOCK);
    } else {
      var bits := TokenBits(toks[0], |out|, ll, dl);
      var next := Apply(out, toks[0]);
      HoldsSplit(input, pos, bits, TokensBits(next, toks[1..], ll, dl));
      TokenInverts(input, pos, toks[0], out, ll, dl, cap);
      TokensInvert(input, pos + |bits|, toks[1..], next, ll, dl, cap);
    }
  }

  // ---------------------------------------------------------------- dynamic block headers

  /** The three-bit lengths of the code length code, from entry `i` of the order on. */
  function ReadCodeLengths(input: seq<byte>, pos: nat, i: nat, hclen: nat, acc: seq<nat>): (r: seq<nat>)
    requires i <= hclen <= 19 && |acc| == 19 && forall k :: 0 <= k < 19 ==> acc[k] <= 7
    ensures |r| == 19 && forall k :: 0 <= k < 19 ==> r[k] <= 7
    decreases hclen - i
  {
    if i == hclen then acc
    else
      OrderInRange(i); Pow2Small();
      ReadCodeLengths(input, pos + 3, i + 1, hclen, acc[CODE_LENGTH_ORDER[i] := Field(input, pos, 3)])
  }

  datatype LengthsRead = LengthsRead(pos: nat, lens: seq<nat>) | Overrun

  /** The code lengths of a dynamic block; `Overrun` when the array of 320 lengths is exceeded or
      a length is stored for a code that does not exist. */
  function ReadLengths(input: seq<byte>, pos: nat, cl: seq<nat>, need: nat, acc: seq<nat>): (r: LengthsRead)
    requires |cl| == 19 && need <= LENGTHS_ARRAY && |acc| <= LENGTHS_ARRAY
    requires forall k :: 0 <= k < |acc| ==> acc[k] <= 15
    ensures r.LengthsRead? ==> pos <= r.pos && need <= |r.lens| <= LENGTHS_ARRAY
    ensures r.LengthsRead? ==> forall k :: 0 <= k < |r.lens| ==> r.lens[k] <= 15
    decreases LENGTHS_ARRAY - |acc|
  {
    if |acc| >= need then LengthsRead(pos, acc)
    else
      var (sym, p) := Decode(input, pos, cl);
      if sym < 0 then Overrun
      else
        var (next, p2) := LengthsStep(input, p, sym, acc);
        if |next| > LENGTHS_ARRAY then Overrun else ReadLengths(input, p2, cl, need, next)
  }

  function LengthsStep(input: seq<byte>, p: nat, sym: nat, acc: seq<nat>): (r: (seq<nat>, nat))
    requires sym < 19 && forall k :: 0 <= k < |acc| ==> acc[k] <= 15
    ensures |r.0| > |acc| && p <= r.1 && forall k :: 0 <= k < |r.0| ==> r.0[k] <= 15
  {
    if sym < 16 then (ApplyOp(acc, Single(sym)), p)
    else if sym == 16 then (ApplyOp(acc, Again(Field(input, p, 2) + 3)), p + 2)
    else if sym == 17 then (ApplyOp(acc, Zeros(Field(input, p, 3) + 3)), p + 3)
    else (ApplyOp(acc, ManyZeros(Field(input, p, 7) + 11)), p + 7)
  }

  lemma OpInverts(input: seq<byte>, pos: nat, op: LengthOp, acc: seq<nat>, cl: seq<nat>)
    requires |cl| == 19 && NotOversubscribed(cl) && ValidOp(op, acc, cl)
    requires forall k :: 0 <= k < |acc| ==> acc[k] <= 15
    requires Holds(input, pos, OpBits(op, acc, cl))
    ensures var (sym, p) := Decode(input, pos, cl);
      sym >= 0 && LengthsStep(input, p, sym, acc) == (ApplyOp(acc, op), pos + |OpBits(op, acc, cl)|)
  {
    hide Holds, Field, FieldBits, Pow2, Decode, Code, CodeBits, NotOversubscribed, Run;
    Pow2Small();
    match op
    case Single(l) => DecodeCanonical(input, pos, cl, l);
    case Again(n) => OpFieldInverts(input, pos, cl, 16, n - 3, 2);
    case Zeros(n) => OpFieldInverts(input, pos, cl, 17, n - 3, 3);
    case ManyZeros(n) => OpFieldInverts(input, pos, cl, 18, n - 11, 7);
  }

  /** A symbol with extra bits. */
  lemma OpFieldInverts(input: seq<byte>, pos: nat, cl: seq<nat>, sym: nat, v: nat, n: nat)
    requires NotOversubscribed(cl) && sym < |cl| && cl[sym] >= 1 && v < Pow2(n)
    requires Holds(input, pos, SymbolBits(cl, sym) + FieldBits(v, n))
    ensures Decode(input, pos, cl) == (sym, pos + cl[sym]) && Field(input, pos + cl[sym], n) == v
  {
    hide Holds, Field, FieldBits, Pow2, Decode, Code, CodeBits, NotOversubscribed;
    HoldsSplit(input, pos, SymbolBits(cl, sym), FieldBits(v, n));
    DecodeCanonical(input, pos, cl, sym);
    FieldOfBits(input, pos + cl[sym], v, n);
  }

  /** Reading the written code lengths expands the operations that wrote them. */
  lemma {:induction false} LengthsInvert(input: seq<byte>, pos: nat, ops: seq<LengthOp>, acc: seq<nat>, cl: seq<nat>,
                                         need: nat)
    requires |cl| == 19 && NotOversubscribed(cl) && ValidOps(acc, ops, cl)
    requires forall k :: 0 <= k < |acc| ==> acc[k] <= 15
    requires |ApplyOps(acc, ops)| == need <= LENGTHS_ARRAY
    requires Holds(input, pos, OpsBits(acc, ops, cl))
    ensures ReadLengths(input, pos, cl, need, acc)
         == LengthsRead(pos + |OpsBits(acc, ops, cl)|, ApplyOps(acc, ops))
    decreases |ops|
  {
    hide Holds, Bit, Field, FieldBits, Pow2, Decode, DecodeFrom, Code, CodeBits, Kraft, NotOversubscribed, ValidOp,
         OpBits, ApplyOp, LengthsStep;
    if ops != [] {
      var bits := OpBits(ops[0], acc, cl);
      var next := ApplyOp(acc, ops[0]);
      HoldsSplit(input, pos, bits, OpsBits(next, ops[1..], cl));
      OpInverts(input, pos, ops[0], acc, cl);
      assert |next| > |acc|;
      LengthsInvert(input, pos + |bits|, ops[1..], next, cl, need);
    }
  }

  /** The entries of the code length code already read, zero elsewhere. */
  ghost predicate ReadSoFar(cl: seq<nat>, i: nat, acc: seq<nat>)
    requires |cl| == 19 && |acc| == 19 && i <= 19
  {
    forall k :: 0 <= k < 19 ==>
      acc[k] == (if exists j :: 0 <= j < i && InOrder(j, k) then cl[k] else 0)
  }

  ghost predicate InOrder(j: nat, k: nat)
    requires j < 19
  {
    OrderInRange(j);
    CODE_LENGTH_ORDER[j] == k
  }

  lemma NothingRead(cl: seq<nat>)
    requires |cl| == 19
    ensures ReadSoFar(cl, 0, Run(19, 0))
  {
  }

  lemma ReadSoFarNext(cl: seq<nat>, i: nat, acc: seq<nat>)
    requires |cl| == 19 && |acc| == 19 && i < 19 && ReadSoFar(cl, i, acc)
    ensures |CODE_LENGTH_ORDER| == 19 && CODE_LENGTH_ORDER[i] < 19
    ensures ReadSoFar(cl, i + 1, acc[CODE_LENGTH_ORDER[i] := cl[CODE_LENGTH_ORDER[i]]])
  {
    OrderInRange(i);
    var o := CODE_LENGTH_ORDER[i];
    var acc' := acc[o := cl[o]];
    forall k | 0 <= k < 19
      ensures acc'[k] == (if exists j :: 0 <= j < i + 1 && InOrder(j, k) then cl[k] else 0)
    {
      if k == o {
        assert InOrder(i, k);
      } else {
        assert !InOrder(i, k);
        if exists j :: 0 <= j < i + 1 && InOrder(j, k) {
          var j :| 0 <= j < i + 1 && InOrder(j, k);
          assert 0 <= j < i && InOrder(j, k);
        }
        if exists j :: 0 <= j < i && InOrder(j, k) {
          var j :| 0 <= j < i && InOrder(j, k);
          assert 0 <= j < i + 1 && InOrder(j, k);
        }
      }
    }
  }

  /** Every code length has a place in the order. */
  lemma OrderComplete(k: nat)
    requires k < 19
    ensures exists j :: 0 <= j < 19 && InOrder(j, k)
  {
    var place := [3, 17, 15, 13, 11, 9, 7, 5, 4, 6, 8, 10, 12, 14, 16, 18, 0, 1, 2];
    assert InOrder(place[k], k);
  }

  lemma AllRead(c: Codes, acc: seq<nat>)
    requires c.hclen <= 19 && |c.cl| == 19 && |acc| == 19 && ReadSoFar(c.cl, c.hclen, acc)
    requires forall i :: c.hclen <= i < 19 ==> c.CodeLengthSkipped(i)
    ensures acc == c.cl
  {
    forall k | 0 <= k < 19 ensures acc[k] == c.cl[k] {
      OrderComplete(k);
      var j :| 0 <= j < 19 && InOrder(j, k);
      if j >= c.hclen { assert c.CodeLengthSkipped(j); }
    }
  }

  lemma ReadStep(input: seq<byte>, pos: nat, i: nat, hclen: nat, acc: seq<nat>)
    requires i <= hclen <= 19 && |acc| == 19 && forall k :: 0 <= k < 19 ==> acc[k] <= 7
    ensures i == hclen ==> ReadCodeLengths(input, pos, i, hclen, acc) == acc
    ensures i < hclen ==>
      && |CODE_LENGTH_ORDER| == 19 && CODE_LENGTH_ORDER[i] < 19 && Field(input, pos, 3) <= 7
      && ReadCodeLengths(input, pos, i, hclen, acc)
         == ReadCodeLengths(input, pos + 3, i + 1, hclen, acc[CODE_LENGTH_ORDER[i] := Field(input, pos, 3)])
  {
    hide Field, Pow2;
    if i < hclen {
      OrderInRange(i);
      Pow2Small();
    }
  }

  lemma CodeLengthPart(cl: seq<nat>, i: nat, hclen: nat)
    requires |cl| == 19 && i <= hclen <= 19
    ensures i == hclen ==> CodeLengthBits(cl, i, hclen) == []
    ensures i < hclen ==>
      && |CODE_LENGTH_ORDER| == 19 && CODE_LENGTH_ORDER[i] < 19 && |FieldBits(cl[CODE_LENGTH_ORDER[i]], 3)| == 3
      && CodeLengthBits(cl, i, hclen) == FieldBits(cl[CODE_LENGTH_ORDER[i]], 3) + CodeLengthBits(cl, i + 1, hclen)
  {
    if i < hclen { OrderInRange(i); }
  }

  lemma {:induction false} CodeLengthsInvert(input: seq<byte>, pos: nat, c: Codes, i: nat, acc: seq<nat>)
    requires 4 <= c.hclen <= 19 && |c.cl| == 19 && (forall i :: 0 <= i < 19 ==> c.cl[i] <= 7)
    requires forall i :: c.hclen <= i < 19 ==> c.CodeLengthSkipped(i)
    requires i <= c.hclen && |acc| == 19 && (forall k :: 0 <= k < 19 ==> acc[k] <= 7) && ReadSoFar(c.cl, i, acc)
    requires Holds(input, pos, CodeLengthBits(c.cl, i, c.hclen))
    ensures |CodeLengthBits(c.cl, i, c.hclen)| == 3 * (c.hclen - i)
    ensures ReadCodeLengths(input, pos, i, c.hclen, acc) == c.cl
    decreases c.hclen - i
  {
    hide *;
    ReadStep(input, pos, i, c.hclen, acc);
    CodeLengthPart(c.cl, i, c.hclen);
    if i == c.hclen {
      AllRead(c, acc);
    } else {
      OrderInRange(i);
      var v := c.cl[CODE_LENGTH_ORDER[i]];
      HoldsSplit(input, pos, FieldBits(v, 3), CodeLengthBits(c.cl, i + 1, c.hclen));
      Pow2Small();
      FieldOfBits(input, pos, v, 3);
      ReadSoFarNext(c.cl, i, acc);
      CodeLengthsInvert(input, pos + 3, c, i + 1, acc[CODE_LENGTH_ORDER[i] := v]);
    }
  }

  datatype CodesRead = CodesRead(pos: nat, ll: seq<nat>, dl: seq<nat>) | BadCodes

  /** The code lengths at the head of a dynamic block. */
  function ReadCodes(input: seq<byte>, pos: nat): (r: CodesRead)
    ensures r.CodesRead? ==> pos <= r.pos && ValidLengths(r.ll) && ValidLengths(r.dl)
  {
    Pow2Small();
    var hlit := Field(input, pos, 5) + 257;
    var hdist := Field(input, pos + 5, 5) + 1;
    var hclen := Field(input, pos + 10, 4) + 4;
    var cl := ReadCodeLengths(input, pos + 14, 0, hclen, Run(19, 0));
    var r := ReadLengths(input, pos + 14 + 3 * hclen, cl, hlit + hdist, []);
    if r.Overrun? then BadCodes
    else CodesRead(r.pos, r.lens[..hlit], r.lens[hlit..hlit + hdist])
  }

  lemma CodesInvert(input: seq<byte>, pos: nat, c: Codes)
    requires c.Valid() && Holds(input, pos, c.HeaderBits())
    ensures ReadCodes(input, pos)
         == CodesRead(pos + |c.HeaderBits()|, c.LiteralLengths(), c.DistanceLengths())
  {
    hide Holds, Bit, Field, FieldBits, Pow2, Decode, DecodeFrom, Code, CodeBits, Kraft, NotOversubscribed,
         ReadCodeLengths, ReadLengths, OpsBits, CodeLengthBits, ApplyOps, ReadSoFar, ValidOps;
    NothingRead(c.cl);
    var hdist := |c.Lengths()| - c.hlit;
    var a, b, d := FieldBits(c.hlit - 257, 5), FieldBits(hdist - 1, 5), FieldBits(c.hclen - 4, 4);
    var e, f := CodeLengthBits(c.cl, 0, c.hclen), OpsBits([], c.ops, c.cl);
    HoldsSplit(input, pos, a, b + (d + (e + f)));
    HoldsSplit(input, pos + 5, b, d + (e + f));
    HoldsSplit(input, pos + 10, d, e + f);
    HoldsSplit(input, pos + 14, e, f);
    SmallFields(input, pos, c.hlit, hdist, c.hclen);
    CodeLengthsInvert(input, pos + 14, c, 0, Run(19, 0));
    LengthsInvert(input, pos + 14 + |e|, c.ops, [], c.cl, c.hlit + hdist);
    assert c.Lengths()[c.hlit..c.hlit + hdist] == c.DistanceLengths();
  }

  lemma SmallFields(input: seq<byte>, pos: nat, hlit: nat, hdist: nat, hclen: nat)
    requires 257 <= hlit <= 288 && 1 <= hdist <= 32 && 4 <= hclen <= 19
    requires Holds(input, pos, FieldBits(hlit - 257, 5)) && Holds(input, pos + 5, FieldBits(hdist - 1, 5))
    requires Holds(input, pos + 10, FieldBits(hclen - 4, 4))
    ensures Field(input, pos, 5) == hlit - 257 && Field(input, pos + 5, 5) == hdist - 1
    ensures Field(input, pos + 10, 4) == hclen - 4
  {
    hide Holds, Bit, Field, FieldBits, Pow2;
    Pow2Small();
    FieldOfBits(input, pos, hlit - 257, 5);
    FieldOfBits(input, pos + 5, hdist - 1, 5);
    FieldOfBits(input, pos + 10, hclen - 4, 4);
  }

  // ---------------------------------------------------------------- blocks

  datatype Step = More(pos: nat, out: seq<byte>) | Stop(out: seq<byte>) | StepUndefined

  /** A stored block whose three header bits end at bit `p`. A full output buffer cuts the copy
      short and leaves the reader behind the bytes copied. */
  function StoredStep(input: seq<byte>, p: nat, out: seq<byte>, cap: nat): (r: Step)
    requires |out| <= cap
    ensures r.More? ==> p < r.pos && |r.out| <= cap && p <= 8 * |input|
    ensures r.Stop? ==> |r.out| <= cap
  {
    var k := (p + Gap(p)) / 8;
    if k + 4 > |input| then Stop(out)
    else
      var len: nat := input[k] as int + 256 * input[k + 1] as int;
      if k + 4 + len > |input| then Stop(out)
      else
        var n := if len <= cap - |out| then len else cap - |out|;
        More(8 * (k + 4 + n), out + input[k + 4..k + 4 + n])
  }

  function BodyStep(input: seq<byte>, p: nat, btype: nat, out: seq<byte>, cap: nat): (r: Step)
    requires |out| <= cap
    ensures r.More? ==> p <= r.pos && |r.out| <= cap && (btype == 0 ==> p <= 8 * |input|)
    ensures r.Stop? ==> |r.out| <= cap
  {
    if btype == 0 then StoredStep(input, p, out, cap)
    else if btype == 1 then Finish(Tokens(input, p, FixedLiterals(), FixedDistances(), out, cap))
    else if btype == 2 then
      var c := ReadCodes(input, p);
      if c.BadCodes? then StepUndefined else Finish(Tokens(input, c.pos, c.ll, c.dl, out, cap))
    else Stop(out)
  }

  function Finish(r: Progress): Step {
    if r.ok then More(r.pos, r.out) else Stop(r.out)
  }

  datatype Outcome = Finished(out: seq<byte>) | Undefined

  /** The block loop. */
  function Blocks(input: seq<byte>, pos: nat, out: seq<byte>, cap: nat): (r: Outcome)
    requires |out| <= cap
    ensures r.Finished? ==> |r.out| <= cap
    decreases if pos < 8 * |input| then 8 * |input| - pos else 0
  {
    var final := Bit(input, pos);
    var btype := Field(input, pos + 1, 2);
    var r := BodyStep(input, pos + 3, btype, out, cap);
    match r
    case StepUndefined => Undefined
    case Stop(out') => Finished(out')
    case More(pos', out') =>
      if final == 1 then Finished(out')
      else
        PastEnd(input, pos);
        Blocks(input, pos', out', cap)
  }

  /** Past the end of the input every block reads as a stored one. */
  lemma PastEnd(input: seq<byte>, pos: nat)
    ensures pos >= 8 * |input| ==> Field(input, pos + 1, 2) == 0
  {
    if pos >= 8 * |input| {
      assert Bit(input, pos + 1) == 0 && Bit(input, pos + 2) == 0;
      assert Field(input, pos + 1, 2) == Bit(input, pos + 1) + 2 * Field(input, pos + 2, 1);
      assert Field(input, pos + 2, 1) == Bit(input, pos + 2) + 2 * Field(input, pos + 3, 0);
    }
  }

  // ---------------------------------------------------------------- the block loop inverts the encoder

  /** A 16-bit field at a byte boundary is two bytes, low byte first. */
  lemma FieldTwoBytes(input: seq<byte>, k: nat, n: nat, m: nat)
    requires k + 2 <= |input| && n == 8 && m == 16
    ensures Field(input, 8 * k, m) == input[k] as int + 256 * input[k + 1] as int
  {
    hide Field, Bit, Pow2;
    FieldSplit(input, 8 * k, n, n);
    FieldByte(input, k, n);
    FieldByte(input, k + 1, n);
    Pow2Small();
    assert 8 * k + n == 8 * (k + 1) && Pow2(n) == 256;
  }

  lemma {:induction false} DataInverts(input: seq<byte>, k: nat, data: seq<byte>, n: nat)
    requires n == 8 && Holds(input, 8 * k, DataBits(data))
    ensures k + |data| <= |input| && input[k..k + |data|] == data
    decreases |data|
  {
    hide Holds, Bit, FieldBits;
    HoldsInside(input, 8 * k, DataBits(data));
    if data != [] {
      HoldsSplit(input, 8 * k, FieldBits(data[0], 8), DataBits(data[1..]));
      Pow2Small();
      FieldOfBits(input, 8 * k, data[0], n);
      FieldByte(input, k, n);
      DataInverts(input, k + 1, data[1..], n);
      assert input[k..k + |data|] == [input[k]] + input[k + 1..k + 1 + |data[1..]|];
    }
  }

  lemma HoldsInside(input: seq<byte>, p: nat, bits: seq<bool>)
    requires Holds(input, p, bits)
    ensures p + |bits| <= 8 * |input|
  {
  }

  lemma StoredInverts(input: seq<byte>, pos: nat, b: Block, out: seq<byte>, cap: nat, m: nat)
    requires b.Stored? && ValidBlock(b, pos, out) && m == 16
    requires Holds(input, pos + 3, BodyBits(b, pos, out)) && |out| + |b.data| <= cap
    ensures StoredStep(input, pos + 3, out, cap) == More(NextPos(b, pos, out), out + b.data)
  {
    hide *;
    var k := StoredParts(b, pos, out);
    HoldsSplit(input, pos + 3, b.filler, StoredBits(b.data));
    StoredRead(input, k, b.data, m);
    StoredCopies(input, pos + 3, k, b.data, out, cap);
  }

  lemma StoredParts(b: Block, pos: nat, out: seq<byte>) returns (k: nat)
    requires b.Stored? && ValidBlock(b, pos, out)
    ensures |b.data| <= 0xFFFF && pos + 3 + |b.filler| == 8 * k && |b.filler| == Gap(pos + 3)
    ensures BodyBits(b, pos, out) == b.filler + StoredBits(b.data) && NextPos(b, pos, out) == 8 * (k + 4 + |b.data|)
  {
    hide FieldBits, DataBits, Gap;
    k := (pos + 3 + |b.filler|) / 8;
    assert pos + 3 + |b.filler| == 8 * k;
  }

  lemma StoredCopies(input: seq<byte>, p: nat, k: nat, data: seq<byte>, out: seq<byte>, cap: nat)
    requires p + Gap(p) == 8 * k && k + 4 + |data| <= |input| && |out| + |data| <= cap
    requires input[k] as int + 256 * input[k + 1] as int == |data| && input[k + 4..k + 4 + |data|] == data
    ensures StoredStep(input, p, out, cap) == More(8 * (k + 4 + |data|), out + data)
  {
    hide Gap;
    assert (p + Gap(p)) / 8 == k;
  }

  /** A stored block behind its filler: its length, the complement and the bytes. */
  function StoredBits(data: seq<byte>): (r: seq<bool>)
    requires |data| <= 0xFFFF
    ensures |r| == 32 + 8 * |data|
  {
    FieldBits(|data|, 16) + (FieldBits(0xFFFF - |data|, 16) + DataBits(data))
  }

  lemma StoredRead(input: seq<byte>, k: nat, data: seq<byte>, m: nat)
    requires |data| <= 0xFFFF && Holds(input, 8 * k, StoredBits(data)) && m == 16
    ensures k + 4 + |data| <= |input| && input[k] as int + 256 * input[k + 1] as int == |data|
    ensures input[k + 4..k + 4 + |data|] == data
  {
    hide Holds, Bit, Field, FieldBits, Pow2, DataBits;
    var len := |data|;
    var a, c, d := FieldBits(len, 16), FieldBits(0xFFFF - len, 16), DataBits(data);
    HoldsSplit(input, 8 * k, a, c + d);
    HoldsSplit(input, 8 * k + 16, c, d);
    HoldsInside(input, 8 * k + 32, d);
    assert Pow2(m) == 65536 by { Pow2Small(); Pow2Add(8, 8); }
    FieldOfBits(input, 8 * k, len, m);
    FieldTwoBytes(input, k, 8, m);
    DataInverts(input, k + 4, data, 8);
  }

  lemma BodyInverts(input: seq<byte>, pos: nat, b: Block, out: seq<byte>, cap: nat)
    requires ValidBlock(b, pos, out) && |BlockOutput(out, b)| <= cap
    requires Holds(input, pos + 3, BodyBits(b, pos, out))
    ensures BodyStep(input, pos + 3, BlockType(b), out, cap) == More(NextPos(b, pos, out), BlockOutput(out, b))
  {
    hide Holds, Tokens, TokensBits, ReadCodes, ValidTokens, FixedLiterals, FixedDistances, StoredStep,
         Codes.HeaderBits, NotOversubscribed, ApplyAll;
    match b
    case Stored(filler, data) => StoredInverts(input, pos, b, out, cap, 16);
    case Fixed(toks) =>
      FixedCodesFit();
      FixedEndOfBlock();
      TokensInvert(input, pos + 3, toks, out, FixedLiterals(), FixedDistances(), cap);
    case Dynamic(codes, toks) => DynamicInverts(input, pos + 3, codes, toks, out, cap);
  }

  lemma DynamicInverts(input: seq<byte>, p: nat, codes: Codes, toks: seq<Token>, out: seq<byte>, cap: nat)
    requires codes.Valid() && ValidTokens(out, toks, codes.LiteralLengths(), codes.DistanceLengths())
    requires Holds(input, p, codes.HeaderBits()
                             + TokensBits(out, toks, codes.LiteralLengths(), codes.DistanceLengths()))
    requires |ApplyAll(out, toks)| <= cap && |out| <= cap
    ensures BodyStep(input, p, 2, out, cap)
         == More(p + |codes.HeaderBits()|
                 + |TokensBits(out, toks, codes.LiteralLengths(), codes.DistanceLengths())|, ApplyAll(out, toks))
  {
    hide Holds, Tokens, TokensBits, ReadCodes, ValidTokens, Codes.HeaderBits, NotOversubscribed, ApplyAll;
    var h := codes.HeaderBits();
    var ll, dl := codes.LiteralLengths(), codes.DistanceLengths();
    HoldsSplit(input, p, h, TokensBits(out, toks, ll, dl));
    CodesInvert(input, p, codes);
    TokensInvert(input, p + |h|, toks, out, ll, dl, cap);
  }

  lemma BlockInverts(input: seq<byte>, pos: nat, b: Block, final: bool, out: seq<byte>, cap: nat)
    requires ValidBlock(b, pos, out) && |BlockOutput(out, b)| <= cap
    requires Holds(input, pos, BlockBits(b, final, pos, out))
    ensures Bit(input, pos) == if final then 1 else 0
    ensures BodyStep(input, pos + 3, Field(input, pos + 1, 2), out, cap)
         == More(NextPos(b, pos, out), BlockOutput(out, b))
  {
    hide Holds, BodyStep, NextPos, BlockOutput, ValidBlock, BodyBits;
    var t := FieldBits(BlockType(b), 2);
    var body := BodyBits(b, pos, out);
    HoldsSplit(input, pos, [final], t + body);
    HoldsSplit(input, pos + 1, t, body);
    FirstBit(input, pos, final);
    Pow2Small();
    FieldOfBits(input, pos + 1, BlockType(b), 2);
    BodyInverts(input, pos, b, out, cap);
  }

  lemma FirstBit(input: seq<byte>, pos: nat, b: bool)
    requires Holds(input, pos, [b])
    ensures Bit(input, pos) == if b then 1 else 0
  {
    assert Bit(input, pos + 0) == if [b][0] then 1 else 0;
  }

  /** The block loop turns the encoding of a block list into the bytes the blocks denote. */
  lemma {:induction false} StreamInverts(input: seq<byte>, pos: nat, blocks: seq<Block>, out: seq<byte>, cap: nat)
    requires ValidBlocks(blocks, pos, out) && |StreamOutput(out, blocks)| <= cap
    requires Holds(input, pos, StreamBits(blocks, pos, out))
    ensures Blocks(input, pos, out, cap) == Finished(StreamOutput(out, blocks))
    decreases |blocks|
  {
    hide Holds, BodyStep, BlockOutput, ValidBlock, BodyBits, Field, Bit;
    var b := blocks[0];
    var next := BlockOutput(out, b);
    assert StreamOutput(out, blocks) == StreamOutput(next, blocks[1..]);
    if |blocks| == 1 {
      BlockInverts(input, pos, b, true, out, cap);
      assert StreamOutput(next, blocks[1..]) == next;
    } else {
      var bits := BlockBits(b, false, pos, out);
      var rest := StreamBits(blocks[1..], NextPos(b, pos, out), next);
      HoldsSplit(input, pos, bits, rest);
      BlockInverts(input, pos, b, false, out, cap);
      StreamInverts(input, NextPos(b, pos, out), blocks[1..], next, cap);
    }
  }

  // ---------------------------------------------------------------- a buffer that is too small

  lemma RepeatPrefix(out: seq<byte>, dist: nat, n: nat, len: nat)
    requires 1 <= dist <= |out| && n <= len
    ensures Repeat(out, dist, n) == Repeat(out, dist, len)[..|out| + n]
  {
  }

  /** The token that does not fit is cut off. */
  lemma TokenCut(input: seq<byte>, pos: nat, t: Token, out: seq<byte>, ll: seq<nat>, dl: seq<nat>, cap: nat)
    requires NotOversubscribed(ll) && NotOversubscribed(dl) && ValidToken(t, |out|, ll, dl)
    requires Holds(input, pos, TokenBits(t, |out|, ll, dl)) && |out| <= cap < |Apply(out, t)|
    ensures var r := Tokens(input, pos, ll, dl, out, cap); !r.ok && r.out == Apply(out, t)[..cap]
  {
    hide *;
    match t
    case Literal(b) =>
      LiteralParts(b, out, ll, dl);
      LiteralCut(input, pos, b, out, ll, dl, cap);
    case Match(lsym, _, dsym, _) =>
      MatchParts(t, |out|, ll, dl);
      HoldsSplit(input, pos, SymbolBits(ll, 257 + lsym), MatchRest(t, |out|, ll, dl));
      LengthInverts(input, pos, lsym, out, ll, dl, cap);
      MatchCut(input, pos + ll[257 + lsym], t, out, ll, dl, cap);
  }

  lemma LiteralCut(input: seq<byte>, pos: nat, b: byte, out: seq<byte>, ll: seq<nat>, dl: seq<nat>, cap: nat)
    requires NotOversubscribed(ll) && b < |ll| && ll[b] >= 1
    requires Holds(input, pos, SymbolBits(ll, b)) && |out| == cap
    ensures var r := Tokens(input, pos, ll, dl, out, cap); !r.ok && r.out == (out + [b])[..cap]
  {
    hide Holds, Decode, Code, CodeBits, NotOversubscribed, MatchFrom;
    DecodeCanonical(input, pos, ll, b);
  }

  lemma MatchCut(input: seq<byte>, p: nat, t: Token, out: seq<byte>, ll: seq<nat>, dl: seq<nat>, cap: nat)
    requires NotOversubscribed(dl) && t.Match? && ValidToken(t, |out|, ll, dl) && |out| <= cap < |Apply(out, t)|
    requires Holds(input, p, MatchRest(t, |out|, ll, dl))
    ensures var r := MatchFrom(input, p, ll, dl, out, cap, t.lsym); !r.ok && r.out == Apply(out, t)[..cap]
  {
    hide Holds, Bit, Field, FieldBits, Pow2, Decode, DecodeFrom, Code, CodeBits, Kraft, NotOversubscribed, Repeat,
         CopyMatch, Tokens, LengthBase, LengthExtra, DistanceBase, DistanceExtra;
    var e, d, f := FieldBits(t.lextra, LengthExtra(t.lsym)), SymbolBits(dl, t.dsym),
                   FieldBits(t.dextra, DistanceExtra(t.dsym));
    HoldsSplit(input, p, e, d + f);
    HoldsSplit(input, p + |e|, d, f);
    FieldOfBits(input, p, t.lextra, LengthExtra(t.lsym));
    DecodeCanonical(input, p + |e|, dl, t.dsym);
    FieldOfBits(input, p + |e| + |d|, t.dextra, DistanceExtra(t.dsym));
    CopyIsRepeat(out, t);
    CopyRepeats(out, MatchDistance(t), cap - |out|);
    RepeatPrefix(out, MatchDistance(t), cap - |out|, MatchLength(t));
  }

  /** Coded data stops where the buffer is full, with the first bytes of what it denotes. */
  lemma {:induction false} TokensCut(input: seq<byte>, pos: nat, toks: seq<Token>, out: seq<byte>,
                                     ll: seq<nat>, dl: seq<nat>, cap: nat)
    requires NotOversubscribed(ll) && NotOversubscribed(dl) && ValidTokens(out, toks, ll, dl)
    requires END_OF_BLOCK < |ll| && ll[END_OF_BLOCK] >= 1
    requires Holds(input, pos, TokensBits(out, toks, ll, dl)) && |out| <= cap < |ApplyAll(out, toks)|
    ensures var r := Tokens(input, pos, ll, dl, out, cap); !r.ok && r.out == ApplyAll(out, toks)[..cap]
    decreases |toks|
  {
    hide Holds, Bit, Field, FieldBits, Pow2, Decode, DecodeFrom, Code, CodeBits, Kraft, NotOversubscribed, Apply,
         TokenBits, ValidToken, MatchFrom, Tokens;
    var bits := TokenBits(toks[0], |out|, ll, dl);
    var next := Apply(out, toks[0]);
    HoldsSplit(input, pos, bits, TokensBits(next, toks[1..], ll, dl));
    if |next| <= cap {
      TokenInverts(input, pos, toks[0], out, ll, dl, cap);
      TokensCut(input, pos + |bits|, toks[1..], next, ll, dl, cap);
    } else {
      TokenCut(input, pos, toks[0], out, ll, dl, cap);
      assert next <= ApplyAll(out, toks);
    }
  }

  /** A block that does not fit fills the buffer with the first bytes of what it denotes. */
  lemma BodyCut(input: seq<byte>, pos: nat, b: Block, out: seq<byte>, cap: nat)
    requires ValidBlock(b, pos, out) && |out| <= cap < |BlockOutput(out, b)|
    requires Holds(input, pos + 3, BodyBits(b, pos, out))
    ensures var r := BodyStep(input, pos + 3, BlockType(b), out, cap);
      if b.Stored? then r.More? && r.out == BlockOutput(out, b)[..cap] else r == Stop(BlockOutput(out, b)[..cap])
  {
    hide Holds, Tokens, TokensBits, ReadCodes, ValidTokens, FixedLiterals, FixedDistances, StoredStep,
         Codes.HeaderBits, NotOversubscribed, ApplyAll, Codes.Valid;
    match b
    case Stored(filler, data) => StoredCut(input, pos, b, out, cap, 16);
    case Fixed(toks) =>
      FixedCodesFit();
      FixedEndOfBlock();
      TokensCut(input, pos + 3, toks, out, FixedLiterals(), FixedDistances(), cap);
    case Dynamic(codes, toks) => DynamicCut(input, pos + 3, codes, toks, out, cap);
  }

  lemma DynamicCut(input: seq<byte>, p: nat, codes: Codes, toks: seq<Token>, out: seq<byte>, cap: nat)
    requires codes.Valid() && ValidTokens(out, toks, codes.LiteralLengths(), codes.DistanceLengths())
    requires Holds(input, p, codes.HeaderBits()
                             + TokensBits(out, toks, codes.LiteralLengths(), codes.DistanceLengths()))
    requires |out| <= cap < |ApplyAll(out, toks)|
    ensures BodyStep(input, p, 2, out, cap) == Stop(ApplyAll(out, toks)[..cap])
  {
    hide Holds, Tokens, TokensBits, ReadCodes, ValidTokens, Codes.HeaderBits, NotOversubscribed, ApplyAll;
    var h := codes.HeaderBits();
    var ll, dl := codes.LiteralLengths(), codes.DistanceLengths();
    HoldsSplit(input, p, h, TokensBits(out, toks, ll, dl));
    CodesInvert(input, p, codes);
    TokensCut(input, p + |h|, toks, out, ll, dl, cap);
  }

  lemma StoredCut(input: seq<byte>, pos: nat, b: Block, out: seq<byte>, cap: nat, m: nat)
    requires b.Stored? && ValidBlock(b, pos, out) && m == 16
    requires Holds(input, pos + 3, BodyBits(b, pos, out)) && |out| <= cap < |out| + |b.data|
    ensures var r := StoredStep(input, pos + 3, out, cap); r.More? && r.out == (out + b.data)[..cap]
  {
    hide *;
    var k := StoredParts(b, pos, out);
    HoldsSplit(input, pos + 3, b.filler, StoredBits(b.data));
    StoredRead(input, k, b.data, m);
    StoredCutAt(input, pos + 3, k, b.data, out, cap);
  }

  lemma StoredCutAt(input: seq<byte>, p: nat, k: nat, data: seq<byte>, out: seq<byte>, cap: nat)
    requires p + Gap(p) == 8 * k && k + 4 + |data| <= |input| && |out| <= cap < |out| + |data|
    requires input[k] as int + 256 * input[k + 1] as int == |data| && input[k + 4..k + 4 + |data|] == data
    ensures var r := StoredStep(input, p, out, cap); r.More? && r.out == (out + data)[..cap]
  {
    hide Gap;
    assert (p + Gap(p)) / 8 == k;
    var n := cap - |out|;
    assert input[k + 4..k + 4 + n] == data[..n];
  }

  /** Nothing is added to a full buffer. */
  lemma {:induction false} TokensFull(input: seq<byte>, pos: nat, ll: seq<nat>, dl: seq<nat>, out: seq<byte>, cap: nat)
    requires |out| == cap
    ensures Tokens(input, pos, ll, dl, out, cap).out == out
  {
    hide Decode, Field;
    var (sym, p) := Decode(input, pos, ll);
    if 256 < sym <= 285 { MatchFull(input, p, ll, dl, out, cap, sym - 257); }
  }

  lemma MatchFull(input: seq<byte>, p: nat, ll: seq<nat>, dl: seq<nat>, out: seq<byte>, cap: nat, k: nat)
    requires |out| == cap && k < 29
    ensures MatchFrom(input, p, ll, dl, out, cap, k).out == out
  {
    hide Decode, Field, Tokens;
    assert LengthBase(k) >= 3;
  }

  lemma BodyFull(input: seq<byte>, p: nat, btype: nat, out: seq<byte>, cap: nat)
    requires |out| == cap
    ensures var r := BodyStep(input, p, btype, out, cap); r.StepUndefined? || r.out == out
  {
    hide Tokens, ReadCodes, Gap;
    if btype == 1 {
      TokensFull(input, p, FixedLiterals(), FixedDistances(), out, cap);
    } else if btype == 2 {
      var c := ReadCodes(input, p);
      if c.CodesRead? { TokensFull(input, c.pos, c.ll, c.dl, out, cap); }
    }
  }

  lemma {:induction false} BlocksFull(input: seq<byte>, pos: nat, out: seq<byte>, cap: nat)
    requires |out| == cap
    ensures var r := Blocks(input, pos, out, cap); r.Undefined? || r.out == out
    decreases if pos < 8 * |input| then 8 * |input| - pos else 0
  {
    hide BodyStep, Field, Bit;
    BodyFull(input, pos + 3, Field(input, pos + 1, 2), out, cap);
    var r := BodyStep(input, pos + 3, Field(input, pos + 1, 2), out, cap);
    if r.More? && Bit(input, pos) != 1 {
      PastEnd(input, pos);
      BlocksFull(input, r.pos, r.out, cap);
    }
  }

  lemma BlockCut(input: seq<byte>, pos: nat, b: Block, final: bool, out: seq<byte>, cap: nat)
    requires ValidBlock(b, pos, out) && |out| <= cap < |BlockOutput(out, b)|
    requires Holds(input, pos, BlockBits(b, final, pos, out))
    ensures var r := BodyStep(input, pos + 3, Field(input, pos + 1, 2), out, cap);
      if b.Stored? then r.More? && r.out == BlockOutput(out, b)[..cap] else r == Stop(BlockOutput(out, b)[..cap])
  {
    hide Holds, BodyStep, BlockOutput, ValidBlock, BodyBits;
    var t := FieldBits(BlockType(b), 2);
    var body := BodyBits(b, pos, out);
    HoldsSplit(input, pos, [final], t + body);
    HoldsSplit(input, pos + 1, t, body);
    Pow2Small();
    FieldOfBits(input, pos + 1, BlockType(b), 2);
    BodyCut(input, pos, b, out, cap);
  }

  /** The block loop over a buffer that is too small: the first bytes of the output, or a fault, which only
      happens behind a stored block that was cut. */
  lemma {:induction false} StreamCut(input: seq<byte>, pos: nat, blocks: seq<Block>, out: seq<byte>, cap: nat)
    requires ValidBlocks(blocks, pos, out) && |out| <= cap < |StreamOutput(out, blocks)|
    requires Holds(input, pos, StreamBits(blocks, pos, out))
    ensures var r := Blocks(input, pos, out, cap);
      && (r.Finished? ==> r.out == StreamOutput(out, blocks)[..cap])
      && ((forall k :: 0 <= k < |blocks| ==> !blocks[k].Stored?) ==> r.Finished?)
    decreases |blocks|
  {
    hide Holds, BodyStep, BlockOutput, ValidBlock, BodyBits, Field, Bit;
    var b := blocks[0];
    var next := BlockOutput(out, b);
    assert StreamOutput(out, blocks) == StreamOutput(next, blocks[1..]);
    var last := |blocks| == 1;
    var bits := BlockBits(b, last, pos, out);
    if last {
      assert StreamOutput(next, blocks[1..]) == next;
    } else {
      HoldsSplit(input, pos, bits, StreamBits(blocks[1..], NextPos(b, pos, out), next));
    }
    if |next| <= cap {
      BlockInverts(input, pos, b, last, out, cap);
      StreamCut(input, NextPos(b, pos, out), blocks[1..], next, cap);
    } else {
      BlockCut(input, pos, b, last, out, cap);
      StreamGrows(next, blocks[1..]);
      var r := BodyStep(input, pos + 3, Field(input, pos + 1, 2), out, cap);
      if r.More? && Bit(input, pos) != 1 { BlocksFull(input, r.pos, r.out, cap); }
    }
  }

  lemma StreamGrows(out: seq<byte>, blocks: seq<Block>)
    ensures out <= StreamOutput(out, blocks)
  {
  }
}

/** The gzip reader of gzip.cpp in its own form: a bit buffer, loops over tables and an output
    array. Each method equals the decoder function of module Inflate on every input. */
module Gzip {
  import opened Bits
  import opened Common
  import opened Deflate
  import opened Huffman
  import opened Inflate

  const WORD: nat := 0x1_0000_0000

  class State {
    const input: seq<byte>
    var inPos: nat
    var bitBuf: nat
    var bitCnt: nat
    const out: array<byte>
    const outLen: nat    // how much of the output may be used
    var outPos: nat
    ghost var pos: nat   // bits consumed so far; grows past the end of the input with the zeros read there

    constructor (input: seq<byte>, out: array<byte>, outLen: nat)
      requires outLen <= out.Length
      ensures Valid() && this.input == input && this.out == out && this.outLen == outLen && pos == 0 && outPos == 0
    {
      this.input, this.out, this.outLen := input, out, outLen;
      inPos, bitBuf, bitCnt, outPos, pos := 0, 0, 0, 0, 0;
    }

    /** The buffer holds the bits between the position and the next unread byte. */
    ghost predicate Buffered()
      reads this
    {
      && (pos + bitCnt) % 8 == 0
      && inPos == (if (pos + bitCnt) / 8 <= |input| then (pos + bitCnt) / 8 else |input|)
      && bitBuf == Field(input, pos, bitCnt)
      && outPos <= outLen <= out.Length
    }

    /** Between reads fewer than eight bits are buffered. */
    ghost predicate Valid()
      reads this
    {
      Buffered() && bitCnt < 8
    }

    ghost function Output(): seq<byte>
      requires Valid()
      reads this, out
    {
      out[..outPos]
    }

    method GetBits(n: nat) returns (val: nat)
      requires Valid() && n <= 24
      modifies this
      ensures Valid() && outPos == old(outPos)
      ensures val == Field(input, old(pos), n) && pos == old(pos) + n
    {
      hide Field, Or, Pow2, Shr;
      while bitCnt < n
        invariant Buffered() && bitCnt < n + 8 && outPos == old(outPos) && pos == old(pos)
        decreases n - bitCnt
      {
        Refill();
      }
      FieldCut(input, pos, n, bitCnt - n);
      val := bitBuf % Pow2(n);
      bitBuf := Shr(bitBuf, n);
      bitCnt := bitCnt - n;
      pos := pos + n;
    }

    /** Eight more bits on top of the buffered ones. */
    method Refill()
      requires Buffered() && bitCnt < 24
      modifies this`bitBuf, this`inPos, this`bitCnt
      ensures Buffered() && bitCnt == old(bitCnt) + 8
    {
      hide Field, Or, Pow2;
      RefillStep(input, pos, bitCnt, 8);
      if inPos < |input| {
        RefillOr(bitBuf, input[inPos], bitCnt);
        bitBuf := Or(bitBuf, input[inPos] * Pow2(bitCnt) % WORD);
        inPos := inPos + 1;
      }
      bitCnt := bitCnt + 8;
    }

    method DecodeSymbol(h: Table, ghost L: seq<nat>) returns (sym: int)
      requires Valid() && h.Represents(L)
      modifies this
      ensures Valid() && outPos == old(outPos)
      ensures (sym, pos) == Decode(input, old(pos), L)
    {
      hide Valid, DecodeFrom, OfLength, Field, Bit, Table.FilledUpTo;
      var code, first, index, len := 0, 0, 0, 1;
      while len <= 15
        invariant Valid() && outPos == old(outPos) && h.Represents(L)
        invariant 1 <= len <= 16 && 0 <= first <= 2 * code && index == Offset(L, len)
        invariant Decode(input, old(pos), L) == DecodeFrom(input, pos, L, len, code, first)
      {
        ghost var c0 := code;
        var bit := GetBits(1);
        OneBit(input, pos - 1);
        code := 2 * code + bit;
        var count := h.counts[len];
        if code - first < count {
          DecodeHit(input, pos - 1, L, len, c0, first, code);
          TableEntry(h, L, len, code - first);
          sym := h.symbols[index + (code - first)];
          return;
        }
        DecodeMiss(input, pos - 1, L, len, c0, first, code);
        index := index + count;
        first := (first + count) * 2;
        len := len + 1;
      }
      DecodeNone(input, pos, L, code, first);
      sym := -1;
    }

    /** The output array is no part of the table. */
    predicate Apart(h: Table) {
      (h.counts as object) != out && (h.symbols as object) != out
    }

    method PutByte(b: byte)
      requires Valid() && outPos < outLen
      modifies this`outPos, out
      ensures Valid() && outPos == old(outPos) + 1 && Output() == old(Output()) + [b]
    {
      out[outPos] := b;
      outPos := outPos + 1;
    }

    /** A match whose length symbol `257 + k` has been read. */
    method CopyOut(k: nat, dh: Table, ghost ll: seq<nat>, ghost dl: seq<nat>) returns (ok: bool)
      requires Valid() && dh.Represents(dl) && Apart(dh) && k < 29
      modifies this, out
      ensures Valid() && (ok ==> outPos > old(outPos))
      ensures MatchFrom(input, old(pos), ll, dl, old(Output()), outLen, k)
           == if ok then Tokens(input, pos, ll, dl, Output(), outLen) else Progress(false, pos, Output())
    {
      hide Decode, Table.Represents, Field, Tokens, CopyMatch, LengthBase, LengthExtra, DistanceBase, DistanceExtra;
      var extra := GetBits(LengthExtra(k));
      var len := LengthBase(k) + extra;
      var dsym := DecodeSymbol(dh, dl);
      if dsym < 0 || dsym > 29 { return false; }
      var more := GetBits(DistanceExtra(dsym));
      var dist := DistanceBase(dsym) + more;
      if dist > outPos { return false; }
      ok := CopyBack(dist, len);
    }

    /** The copy loop of a match. */
    method CopyBack(dist: nat, len: nat) returns (ok: bool)
      requires Valid() && 1 <= dist <= outPos
      modifies this`outPos, out
      ensures Valid() && (ok <==> old(outPos) + len <= outLen)
      ensures |Output()| == if ok then old(outPos) + len else outLen
      ensures Output() == CopyMatch(old(Output()), dist, |Output()| - old(outPos))
    {
      hide Field;
      ghost var start := Output();
      var i := 0;
      while i < len
        invariant Valid() && i <= len && outPos == old(outPos) + i
        invariant Output() == CopyMatch(start, dist, i)
      {
        if outPos >= outLen { return false; }
        PutByte(out[outPos - dist]);
        i := i + 1;
      }
      return true;
    }

    /** Literals and matches up to the end-of-block code. */
    method InflateBlock(lh: Table, dh: Table, ghost ll: seq<nat>, ghost dl: seq<nat>) returns (ok: bool)
      requires Valid() && lh.Represents(ll) && dh.Represents(dl) && Apart(lh) && Apart(dh)
      modifies this, out
      ensures Valid()
      ensures Progress(ok, pos, Output()) == Tokens(input, old(pos), ll, dl, old(Output()), outLen)
    {
      hide Decode, Table.Represents, Field, MatchFrom;
      ghost var goal := Tokens(input, pos, ll, dl, Output(), outLen);
      while true
        invariant Valid() && lh.Represents(ll) && dh.Represents(dl)
        invariant outPos <= outLen
        invariant goal == Tokens(input, pos, ll, dl, Output(), outLen)
        decreases outLen - outPos
      {
        var sym := DecodeSymbol(lh, ll);
        if sym < 0 || sym > 285 { return false; }
        if sym < 256 {
          if outPos >= outLen { return false; }
          PutByte(sym);
        } else if sym == 256 {
          return true;
        } else {
          ok := CopyOut(sym - 257, dh, ll, dl);
          if !ok { return; }
        }
      }
    }

    /** No bits are buffered, and the position is that of byte `k`. */
    ghost predicate AtByte(k: nat)
      reads this
    {
      Valid() && bitCnt == 0 && pos == 8 * k
    }

    /** Dropping the buffered bits realigns the reader at the next byte boundary. */
    method Realign() returns (ghost k: nat)
      requires Valid()
      modifies this
      ensures AtByte(k) && k == (old(pos) + Gap(old(pos))) / 8 && outPos == old(outPos)
    {
      k := (pos + Gap(pos)) / 8;
      bitBuf := 0;
      bitCnt := 0;
      pos := 8 * k;
    }

    method SkipBytes(n: nat, ghost k: nat)
      requires AtByte(k) && k + n <= |input|
      modifies this
      ensures AtByte(k + n) && outPos == old(outPos)
    {
      inPos := inPos + n;
      pos := pos + 8 * n;
    }

    method CopyBytes(len: nat, ghost k: nat)
      requires AtByte(k) && k + len <= |input|
      modifies this, out
      ensures outPos <= outLen
      ensures var n := if len <= outLen - old(outPos) then len else outLen - old(outPos);
        AtByte(k + n) && Output() == old(Output()) + input[k..k + n]
    {
      hide Field;
      ghost var start := Output();
      var i := 0;
      while i < len && outPos < outLen
        invariant AtByte(k + i) && i <= len && outPos == |start| + i
        invariant Output() == start + input[k..k + i]
      {
        PutByte(input[inPos]);
        SkipBytes(1, k + i);
        i := i + 1;
        assert input[k..k + i] == input[k..k + i - 1] + [input[k + i - 1]];
      }
    }

    /** A stored block. */
    method CopyStored() returns (ok: bool)
      requires Valid()
      modifies this, out
      ensures Valid()
      ensures StoredStep(input, old(pos), old(Output()), outLen)
           == if ok then More(pos, Output()) else Stop(Output())
    {
      hide Field, Gap;
      ghost var k := Realign();
      if inPos + 4 > |input| { return false; }
      StoredLength(input[inPos], input[inPos + 1]);
      var len := Or(input[inPos], input[inPos + 1] as int * 256);
      SkipBytes(4, k);
      if inPos + len > |input| { return false; }
      CopyBytes(len, k + 4);
      return true;
    }

    /** The fixed codes of block type 1. */
    method InflateFixed() returns (ok: bool)
      requires Valid()
      modifies this, out
      ensures Valid()
      ensures Progress(ok, pos, Output())
           == Tokens(input, old(pos), FixedLiterals(), FixedDistances(), old(Output()), outLen)
    {
      hide Tokens, Valid, FixedLiterals, FixedDistances, Table.Represents;
      var lengths, dlengths := FixedLengths();
      var lh := new Table();
      lh.Build(lengths);
      var dh := new Table();
      dh.Build(dlengths);
      ok := InflateBlock(lh, dh, lengths, dlengths);
    }

    /** The lengths of the code length code. */
    method ReadCodeLengthCode(hclen: nat) returns (cl: seq<nat>)
      requires Valid() && hclen <= 19
      modifies this
      ensures Valid() && outPos == old(outPos) && pos == old(pos) + 3 * hclen
      ensures |cl| == 19 && (forall k :: 0 <= k < 19 ==> cl[k] <= 7)
      ensures cl == ReadCodeLengths(input, old(pos), 0, hclen, Run(19, 0))
    {
      hide Valid, Field, Pow2, ReadCodeLengths;
      var clens := new nat[19];
      for i := 0 to 19
        modifies clens
        invariant forall j :: 0 <= j < i ==> clens[j] == 0
      { clens[i] := 0; }
      assert clens[..] == Run(19, 0);
      for i := 0 to hclen
        invariant Valid() && outPos == old(outPos) && pos == old(pos) + 3 * i
        invariant forall k :: 0 <= k < 19 ==> clens[..][k] <= 7
        invariant ReadCodeLengths(input, old(pos), 0, hclen, Run(19, 0))
               == ReadCodeLengths(input, pos, i, hclen, clens[..])
      {
        ghost var before := clens[..];
        ReadStep(input, pos, i, hclen, before);
        Pow2Small();
        var v := GetBits(3);
        clens[CODE_LENGTH_ORDER[i]] := v;
        assert clens[..] == before[CODE_LENGTH_ORDER[i] := v];
      }
      cl := clens[..];
      ReadStep(input, pos, hclen, hclen, cl);
    }

    /** One symbol of the code length code and its effect; false where the array of lengths would
        be overrun or a length stored for no code. */
    method ReadLengthOp(ch: Table, ghost cl: seq<nat>, lengths: array<nat>, num: nat) returns (ok: bool, num': nat)
      requires Valid() && ch.Represents(cl) && |cl| == 19
      requires lengths.Length == LENGTHS_ARRAY && num <= LENGTHS_ARRAY
      requires forall k :: 0 <= k < num ==> lengths[..num][k] <= 15
      modifies this, lengths
      ensures Valid() && outPos == old(outPos)
      ensures var (sym, p) := Decode(input, old(pos), cl);
        && (ok <==> sym >= 0 && |LengthsStep(input, p, sym, old(lengths[..num])).0| <= LENGTHS_ARRAY)
        && (ok ==> num' <= LENGTHS_ARRAY && (lengths[..num'], pos) == LengthsStep(input, p, sym, old(lengths[..num])))
    {
      hide Valid, Field, Decode, Table.Represents;
      var sym := DecodeSymbol(ch, cl);
      num' := num;
      if sym < 0 { return false, num; }
      var copy, val := 1, sym;
      if sym == 16 {
        copy := GetBits(2);
        copy, val := copy + 3, if num > 0 then lengths[num - 1] else 0;
      } else if sym == 17 {
        copy := GetBits(3);
        copy, val := copy + 3, 0;
      } else if sym == 18 {
        copy := GetBits(7);
        copy, val := copy + 11, 0;
      }
      assert lengths[..num] == old(lengths[..num]) && Run(1, sym) == [sym];
      ok, num' := Fill(lengths, num, copy, val);
    }

    /** The code lengths of a dynamic block. */
    method ReadDynamic() returns (ok: bool, ll: seq<nat>, dl: seq<nat>)
      requires Valid()
      modifies this
      ensures Valid() && outPos == old(outPos)
      ensures ReadCodes(input, old(pos)) == if ok then CodesRead(pos, ll, dl) else BadCodes
    {
      hide Valid, Field, ReadCodeLengths, ReadLengths, Pow2;
      Pow2Small();
      ll, dl := [], [];
      var hlit := GetBits(5);
      hlit := hlit + 257;
      var hdist := GetBits(5);
      hdist := hdist + 1;
      var hclen := GetBits(4);
      hclen := hclen + 4;
      var cl := ReadCodeLengthCode(hclen);
      var all;
      ok, all := ReadLengthList(cl, hlit + hdist);
      if !ok { return; }
      ll, dl := all[..hlit], all[hlit..hlit + hdist];
    }

    /** The code lengths, as many as are needed, read with the code length code. */
    method ReadLengthList(cl: seq<nat>, need: nat) returns (ok: bool, all: seq<nat>)
      requires Valid() && |cl| == 19 && need <= LENGTHS_ARRAY && (forall k :: 0 <= k < 19 ==> cl[k] <= 15)
      modifies this
      ensures Valid() && outPos == old(outPos)
      ensures ReadLengths(input, old(pos), cl, need, []) == if ok then LengthsRead(pos, all) else Overrun
    {
      hide Valid, Field, LengthsStep, Decode, Table.Represents;
      all := [];
      var ch := new Table();
      ch.Build(cl);
      var lengths := new nat[LENGTHS_ARRAY];
      var num := 0;
      ghost var goal := ReadLengths(input, pos, cl, need, []);
      assert lengths[..num] == [];
      while num < need
        invariant Valid() && outPos == old(outPos) && ch.Represents(cl) && num <= LENGTHS_ARRAY
        invariant forall k :: 0 <= k < num ==> lengths[..num][k] <= 15
        invariant goal == ReadLengths(input, pos, cl, need, lengths[..num])
        decreases LENGTHS_ARRAY - num
      {
        ghost var before := lengths[..num];
        ok, num := ReadLengthOp(ch, cl, lengths, num);
        if !ok { return; }
        assert |lengths[..num]| > |before|;
      }
      ok, all := true, lengths[..num];
    }

    /** The body of one block whose header has been read. */
    method InflateBody(btype: nat) returns (more: bool, fault: bool)
      requires Valid()
      modifies this, out
      ensures Valid()
      ensures BodyStep(input, old(pos), btype, old(Output()), outLen)
           == if fault then StepUndefined else if more then More(pos, Output()) else Stop(Output())
    {
      hide Buffered, Tokens, ReadCodes, StoredStep, Table.Represents, FixedLiterals, FixedDistances;
      more, fault := false, false;
      if btype == 0 {
        more := CopyStored();
      } else if btype == 1 {
        more := InflateFixed();
      } else if btype == 2 {
        var ok, ll, dl := ReadDynamic();
        if !ok { return false, true; }
        var lh := new Table();
        lh.Build(ll);
        var dh := new Table();
        dh.Build(dl);
        more := InflateBlock(lh, dh, ll, dl);
      }
    }

    /** The block loop. */
    method InflateBlocks() returns (fault: bool)
      requires Valid() && pos == 0 && outPos == 0
      modifies this, out
      ensures Valid()
      ensures Blocks(input, 0, [], outLen) == if fault then Undefined else Finished(Output())
    {
      hide BodyStep, Field, Bit;
      var final := 0;
      fault := false;
      assert Output() == [];
      ghost var goal := Blocks(input, 0, [], outLen);
      while final == 0
        invariant Valid() && !fault && outPos <= outLen
        invariant goal == if final == 1 then Finished(Output()) else Blocks(input, pos, Output(), outLen)
        invariant final <= 1
        decreases 1 - final, if pos < 8 * |input| then 8 * |input| - pos else 0
      {
        PastEnd(input, pos);
        OneBit(input, pos);
        final := GetBits(1);
        var btype := GetBits(2);
        var more;
        more, fault := InflateBody(btype);
        if fault || !more { return; }
      }
    }
  }

  method Fill(lengths: array<nat>, num: nat, copy: nat, val: nat) returns (ok: bool, num': nat)
    requires num <= lengths.Length
    modifies lengths
    ensures ok <==> num + copy <= lengths.Length
    ensures ok ==> num' == num + copy && lengths[..num'] == old(lengths[..num]) + Run(copy, val)
  {
    num' := num;
    var i := 0;
    while i < copy
      invariant i <= copy && num' == num + i <= lengths.Length
      invariant lengths[..num'] == old(lengths[..num]) + Run(i, val)
    {
      if num' >= lengths.Length { return false, num'; }
      lengths[num'] := val;
      num', i := num' + 1, i + 1;
      assert lengths[..num'] == lengths[..num' - 1] + [val];
      assert Run(i, val) == Run(i - 1, val) + [val];
    }
    ok := true;
  }

  method FixedLengths() returns (literals: seq<nat>, distances: seq<nat>)
    ensures literals == FixedLiterals() && distances == FixedDistances()
    ensures ValidLengths(literals) && ValidLengths(distances)
  {
    var lengths := new nat[288];
    for i := 0 to 144
      invariant forall j :: 0 <= j < i ==> lengths[j] == 8
    { lengths[i] := 8; }
    for i := 144 to 256
      invariant forall j :: 0 <= j < i ==> lengths[j] == if j < 144 then 8 else 9
    { lengths[i] := 9; }
    for i := 256 to 280
      invariant forall j :: 0 <= j < i ==> lengths[j] == if j < 144 then 8 else if j < 256 then 9 else 7
    { lengths[i] := 7; }
    for i := 280 to 288
      invariant forall j :: 0 <= j < i ==>
        lengths[j] == if j < 144 then 8 else if j < 256 then 9 else if j < 280 then 7 else 8
    { lengths[i] := 8; }
    literals := lengths[..];
    assert literals == FixedLiterals();
    var dlengths := new nat[32];
    for i := 0 to 32
      invariant forall j :: 0 <= j < i ==> dlengths[j] == 5
    { dlengths[i] := 5; }
    distances := dlengths[..];
    assert distances == FixedDistances();
  }

  lemma StoredLength(lo: byte, hi: byte)
    ensures Or(lo, hi * 256) == lo + 256 * hi
  {
    Pow2Small();
    OrShifted(lo, hi, 8);
  }

  lemma OneBit(input: seq<byte>, p: nat)
    ensures Field(input, p, 1) == Bit(input, p)
  {
    assert Field(input, p + 1, 0) == 0;
  }

  lemma DecodeNone(input: seq<byte>, p: nat, L: seq<nat>, code: nat, first: nat)
    requires 2 * code >= first
    ensures DecodeFrom(input, p, L, 16, code, first) == (-1, p)
  {
  }

  lemma TableEntry(h: Table, L: seq<nat>, l: nat, r: nat)
    requires h.Represents(L) && 1 <= l <= MAX_BITS && r < Count(L, l)
    ensures Offset(L, l) + r < h.symbols.Length && h.symbols[Offset(L, l) + r] == OfLength(L, l)[r]
  {
    assert L[..|L|] == L;
    assert h.PlacedAt(L, l, r);
  }

  /** Eight more bits: the next byte on top of the buffered ones. */
  lemma RefillStep(input: seq<byte>, pos: nat, cnt: nat, n: nat)
    requires (pos + cnt) % 8 == 0 && n == 8
    ensures Field(input, pos, cnt + n)
         == Field(input, pos, cnt) + (if (pos + cnt) / 8 < |input| then input[(pos + cnt) / 8] else 0) * Pow2(cnt)
  {
    hide Field, Bit, Pow2;
    var k := (pos + cnt) / 8;
    assert pos + cnt == 8 * k;
    FieldSplit(input, pos, cnt, n);
    FieldByte(input, k, n);
  }

  lemma RefillOr(buf: nat, b: byte, cnt: nat)
    requires cnt <= 24 && buf < Pow2(cnt)
    ensures Or(buf, b * Pow2(cnt) % WORD) == buf + b * Pow2(cnt)
  {
    hide Or, Pow2;
    OrShifted(buf, b, cnt);
    var n := 24;
    Pow2Monotone(cnt, n);
    assert Pow2(n) == 0x100_0000 by { Pow2Add(16, 8); Pow2Add(8, 8); Pow2Small(); }
    ByteShift(b, Pow2(cnt));
  }

  lemma ByteShift(b: byte, p: nat)
    requires p <= 0x100_0000
    ensures 0 <= b * p < WORD
  {
    assert b * p <= 255 * p;
  }

  // ---------------------------------------------------------------- the gzip member (section 2.3 of RFC 1952)

  /** `Refused` is a false result before anything is decoded; after decoding the result is whether
      any byte came out. `Faulted` marks an access outside an array. */
  datatype Reply = Refused | Decoded(out: seq<byte>) | Faulted

  predicate IsGzip(src: seq<byte>) {
    |src| >= 10 && src[0] == 0x1f && src[1] == 0x8b
  }

  predicate FlagSet(flags: byte, k: nat) {
    Shr(flags, k) % 2 == 1
  }

  /** Behind the zero-terminated string at `o`. */
  function AfterString(src: seq<byte>, o: nat): (r: nat)
    ensures r > o
    decreases |src| - o
  {
    if o < |src| && src[o] != 0 then AfterString(src, o + 1) else o + 1
  }

  /** Where the compressed data starts. */
  function DataStart(src: seq<byte>): (r: Option<nat>)
    requires IsGzip(src)
    ensures r.Some? ==> r.value < |src|
  {
    var flags := src[3];
    if FlagSet(flags, 2) && 12 > |src| then None
    else
      var o1 := if FlagSet(flags, 2) then 12 + src[10] as int + 256 * src[11] as int else 10;
      var o2 := if FlagSet(flags, 3) then AfterString(src, o1) else o1;
      var o3 := if FlagSet(flags, 4) then AfterString(src, o2) else o2;
      var o4 := if FlagSet(flags, 1) then o3 + 2 else o3;
      if o4 >= |src| then None else Some(o4)
  }

  /** The reader as a function: the reply to `src` when the output holds `cap` bytes. */
  function ReplyTo(src: seq<byte>, cap: nat): Reply {
    if !IsGzip(src) then Refused
    else
      match DataStart(src)
      case None => Refused
      case Some(o) =>
        if |src| - o < 8 then Faulted
        else
          match Blocks(src[o..|src| - 8], 0, [], cap)
          case Undefined => Faulted
          case Finished(out) => Decoded(out)
  }

  method SkipString(src: seq<byte>, o: nat) returns (r: nat)
    ensures r == AfterString(src, o)
  {
    r := o;
    while r < |src| && src[r] != 0
      invariant AfterString(src, o) == AfterString(src, r)
      decreases |src| - r
    {
      r := r + 1;
    }
    r := r + 1;
  }

  /** Skips the fields that the flags announce. */
  method SkipHeader(src: seq<byte>) returns (found: bool, offset: nat)
    requires IsGzip(src)
    ensures DataStart(src) == if found then Some(offset) else None
  {
    hide AfterString, FlagSet;
    var flags := src[3];
    found, offset := false, 10;
    if FlagSet(flags, 2) {
      if offset + 2 > |src| { return; }
      StoredLength(src[offset], src[offset + 1]);
      offset := offset + 2 + Or(src[offset], src[offset + 1] as int * 256);
    }
    if FlagSet(flags, 3) { offset := SkipString(src, offset); }
    if FlagSet(flags, 4) { offset := SkipString(src, offset); }
    if FlagSet(flags, 1) { offset := offset + 2; }
    found := offset < |src|;
  }

  /** The room for output: the size the caller gives, or the largest 32-bit number without one. */
  function Room(size: Option<nat>): nat {
    if size.Some? then size.value else 0xFFFFFFFF
  }

  /** Decodes a member into the destination. `size` is the caller's size variable, if there is one: the
      number of bytes written afterwards, as it was after a refusal. `n` is that number in any case. */
  method Decompress(src: seq<byte>, dest: array<byte>, size: Option<nat>)
    returns (ok: bool, size': Option<nat>, fault: bool, ghost n: nat)
    requires Room(size) <= dest.Length
    modifies dest
    ensures ReplyTo(src, Room(size)) == Faulted <==> fault
    ensures |src| < 10 || src[0] != 0x1f || src[1] != 0x8b ==>
      !ok && !fault && size' == size && dest[..] == old(dest[..])
    ensures ReplyTo(src, Room(size)) == Refused ==> !ok && size' == size && dest[..] == old(dest[..])
    ensures ReplyTo(src, Room(size)).Decoded? ==>
      n <= dest.Length && ReplyTo(src, Room(size)) == Decoded(dest[..n]) && (ok <==> n > 0)
    ensures ReplyTo(src, Room(size)).Decoded? ==> size' == if size.Some? then Some(n) else None
  {
    hide Blocks, DataStart;
    ok, size', fault, n := false, size, false, 0;
    if |src| < 10 || src[0] != 0x1f || src[1] != 0x8b { return; }
    var found, offset := SkipHeader(src);
    if !found { return; }
    if |src| - offset < 8 { fault := true; return; }
    var s := new State(src[offset..|src| - 8], dest, Room(size));
    fault := s.InflateBlocks();
    n := s.outPos;
    if size.Some? { size' := Some(s.outPos); }
    ok := s.outPos > 0;
  }

  /** The fields of a member header. */
  datatype Header = Header(cm: byte, ftext: bool, fixed: seq<byte>, extra: Option<seq<byte>>,
                           name: Option<seq<byte>>, comment: Option<seq<byte>>, crc16: Option<seq<byte>>)
  {
    predicate Valid() {
      && |fixed| == 6
      && (extra.Some? ==> |extra.value| <= 0xFFFF)
      && (name.Some? ==> 0 !in name.value)
      && (comment.Some? ==> 0 !in comment.value)
      && (crc16.Some? ==> |crc16.value| == 2)
    }

    function Flags(): byte {
      (if ftext then 1 else 0) + (if crc16.Some? then 2 else 0) + (if extra.Some? then 4 else 0)
      + (if name.Some? then 8 else 0) + (if comment.Some? then 16 else 0)
    }

    function ExtraBytes(): seq<byte>
      requires Valid()
    {
      if extra.None? then [] else [|extra.value| % 256, |extra.value| / 256] + extra.value
    }

    function Bytes(): seq<byte>
      requires Valid()
    {
      [0x1f, 0x8b, cm, Flags()] + fixed + ExtraBytes() + StringBytes(name) + StringBytes(comment)
      + (if crc16.None? then [] else crc16.value)
    }
  }

  function StringBytes(s: Option<seq<byte>>): seq<byte> {
    if s.None? then [] else s.value + [0]
  }

  lemma {:induction false} AfterStringAt(before: seq<byte>, s: seq<byte>, after: seq<byte>, i: nat)
    requires 0 !in s && i <= |s|
    ensures AfterString(before + (s + [0]) + after, |before| + i) == |before| + |s| + 1
    decreases |s| - i
  {
    var src := before + (s + [0]) + after;
    if i < |s| {
      assert src[|before| + i] == s[i];
      AfterStringAt(before, s, after, i + 1);
    } else {
      assert src[|before| + i] == 0;
    }
  }

  lemma FlagBits(h: Header)
    ensures FlagSet(h.Flags(), 1) == h.crc16.Some? && FlagSet(h.Flags(), 2) == h.extra.Some?
    ensures FlagSet(h.Flags(), 3) == h.name.Some? && FlagSet(h.Flags(), 4) == h.comment.Some?
  {
    hide Shr;
    ShrDivides(h.Flags());
  }

  lemma ShrDivides(f: nat)
    ensures Shr(f, 1) == f / 2 && Shr(f, 2) == f / 4 && Shr(f, 3) == f / 8 && Shr(f, 4) == f / 16
  {
    assert Shr(f, 3) == Shr(f / 2, 2) == Shr(f / 2 / 2, 1) == f / 2 / 2 / 2;
    assert Shr(f, 4) == Shr(f / 2, 3) == f / 2 / 2 / 2 / 2;
  }

  lemma OptionalString(before: seq<byte>, s: Option<seq<byte>>, after: seq<byte>)
    requires s.Some? ==> 0 !in s.value
    ensures s.Some? ==> AfterString(before + StringBytes(s) + after, |before|) == |before| + |StringBytes(s)|
  {
    if s.Some? { AfterStringAt(before, s.value, after, 0); }
  }

  /** The reader finds the end of every well-formed header. */
  lemma HeaderSkipped(h: Header, rest: seq<byte>)
    requires h.Valid() && rest != []
    ensures IsGzip(h.Bytes() + rest) && DataStart(h.Bytes() + rest) == Some(|h.Bytes()|)
  {
    hide FlagSet, AfterString, StringBytes, Header.Bytes, Header.Flags, Header.ExtraBytes;
    var e, n, c := h.ExtraBytes(), StringBytes(h.name), StringBytes(h.comment);
    var f: seq<byte> := if h.crc16.None? then [] else h.crc16.value;
    var head := [0x1f, 0x8b, h.cm, h.Flags()] + h.fixed;
    HeaderParts(h, rest, head, e, n, c, f);
    FlagBits(h);
    OptionalString(head + e, h.name, c + f + rest);
    OptionalString(head + e + n, h.comment, f + rest);
  }

  /** Where the fields of a header lie. */
  lemma HeaderParts(h: Header, rest: seq<byte>, head: seq<byte>, e: seq<byte>, n: seq<byte>, c: seq<byte>, f: seq<byte>)
    requires h.Valid() && head == [0x1f, 0x8b, h.cm, h.Flags()] + h.fixed && e == h.ExtraBytes()
    requires n == StringBytes(h.name) && c == StringBytes(h.comment) && f == if h.crc16.None? then [] else h.crc16.value
    ensures var src := h.Bytes() + rest;
      && |head| == 10 && |h.Bytes()| == 10 + |e| + |n| + |c| + |f| && |f| == (if h.crc16.Some? then 2 else 0)
      && src == head + e + n + (c + f + rest) && src == head + e + n + c + (f + rest)
      && src[0] == 0x1f && src[1] == 0x8b && src[3] == h.Flags()
      && (h.extra.None? ==> e == []) && (h.name.None? ==> n == []) && (h.comment.None? ==> c == [])
      && (h.extra.Some? ==> |e| >= 2 && src[10] as int + 256 * src[11] as int == |e| - 2)
  {
    hide FlagSet, AfterString;
    var src := h.Bytes() + rest;
    assert src == head + e + n + (c + f + rest);
    assert src == head + e + n + c + (f + rest);
    if h.extra.Some? {
      assert src[10] == e[0] && src[11] == e[1];
    }
  }

  /** Every gzip member decodes to the bytes its blocks denote: any header, any sequence of
      stored, fixed and dynamic blocks, any trailer, as long as the output has room. */
  lemma MemberRoundTrip(h: Header, blocks: seq<Block>, trailer: seq<byte>, cap: nat)
    requires h.Valid() && ValidBlocks(blocks, 0, []) && |trailer| == 8
    requires |StreamOutput([], blocks)| <= cap
    ensures ReplyTo(h.Bytes() + (Pack(StreamBits(blocks, 0, [])) + trailer), cap)
         == Decoded(StreamOutput([], blocks))
  {
    hide Holds, Blocks, DataStart, Header.Bytes, Pack, StreamBits, ValidBlocks, StreamOutput, IsGzip;
    var data := Pack(StreamBits(blocks, 0, []));
    var src := h.Bytes() + (data + trailer);
    HeaderSkipped(h, data + trailer);
    assert src[|h.Bytes()|..|src| - 8] == data;
    PackHolds([], StreamBits(blocks, 0, []), []);
    assert [] + data + [] == data;
    StreamInverts(data, 0, blocks, [], cap);
  }

  /** A buffer that is too small gets the first bytes of the output, in full; only behind a stored block
      that was cut can the reader go astray and fault. */
  lemma MemberTruncated(h: Header, blocks: seq<Block>, trailer: seq<byte>, cap: nat)
    requires h.Valid() && ValidBlocks(blocks, 0, []) && |trailer| == 8
    requires cap < |StreamOutput([], blocks)|
    ensures var r := ReplyTo(h.Bytes() + (Pack(StreamBits(blocks, 0, [])) + trailer), cap);
      && (r == Faulted || r == Decoded(StreamOutput([], blocks)[..cap]))
      && ((forall k :: 0 <= k < |blocks| ==> !blocks[k].Stored?) ==> r.Decoded?)
  {
    hide Holds, Blocks, DataStart, Header.Bytes, Pack, StreamBits, ValidBlocks, StreamOutput, IsGzip;
    var data := Pack(StreamBits(blocks, 0, []));
    var src := h.Bytes() + (data + trailer);
    HeaderSkipped(h, data + trailer);
    assert src[|h.Bytes()|..|src| - 8] == data;
    PackHolds([], StreamBits(blocks, 0, []), []);
    assert [] + data + [] == data;
    StreamCut(data, 0, blocks, [], cap);
  }

  /** Every byte string has a member that decodes to it, into a buffer of just its size. */
  lemma EveryStringDecodes(data: seq<byte>) returns (src: seq<byte>)
    ensures ReplyTo(src, |data|) == Decoded(data)
  {
    hide ReplyTo, ValidBlocks, StreamBits, Pack, StreamOutput;
    var blocks := EveryOutput(data, 0, []);
    var h := Header(8, false, [0, 0, 0, 0, 0, 255], None, None, None, None);
    var trailer: seq<byte> := [0, 0, 0, 0, 0, 0, 0, 0];
    assert [] + data == data;
    MemberRoundTrip(h, blocks, trailer, |data|);
    src := h.Bytes() + (Pack(StreamBits(blocks, 0, [])) + trailer);
  }
}

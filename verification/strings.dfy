/** The word-at-a-time routines of string.cpp over a flat byte memory: each equals its byte-by-byte
    definition, for every address, length and overlap. */
module Strings {
  import opened Words

  function WordAt(m: seq<bv8>, a: nat): bv64
    requires a + 8 <= |m|
  {
    Word(m[a], m[a + 1], m[a + 2], m[a + 3], m[a + 4], m[a + 5], m[a + 6], m[a + 7])
  }

  function ByteOf(w: bv64, k: bv64): bv8
    requires k < 8
  {
    ((w >> (8 * k)) & 0xFF) as bv8
  }

  lemma ByteOfWord(a: bv8, b: bv8, c: bv8, d: bv8, e: bv8, f: bv8, g: bv8, h: bv8)
    ensures var w := Word(a, b, c, d, e, f, g, h);
      && ByteOf(w, 0) == a && ByteOf(w, 1) == b && ByteOf(w, 2) == c && ByteOf(w, 3) == d
      && ByteOf(w, 4) == e && ByteOf(w, 5) == f && ByteOf(w, 6) == g && ByteOf(w, 7) == h
  {
  }

  /** The memory after the `n` bytes at `s` were copied to `d`, all at once. */
  function Copied(m: seq<bv8>, d: nat, s: nat, n: nat): (r: seq<bv8>)
    requires d + n <= |m| && s + n <= |m|
    ensures |r| == |m|
  {
    m[..d] + m[s..s + n] + m[d + n..]
  }

  /** The first `k` bytes copied, the source of the rest is as it was when the destination is below
      the source or clear of it. */
  lemma CopiedStep(m: seq<bv8>, d: nat, s: nat, k: nat, j: nat)
    requires d + k + j <= |m| && s + k + j <= |m| && (d <= s || s + k + j <= d)
    ensures Copied(Copied(m, d, s, k), d + k, s + k, j) == Copied(m, d, s, k + j)
  {
    var m1 := Copied(m, d, s, k);
    assert m1[s + k..s + k + j] == m[s + k..s + k + j];
    assert m1[..d + k] == m[..d] + m[s..s + k];
    assert m[s..s + k] + m[s + k..s + k + j] == m[s..s + k + j];
  }

  /** Downwards, the source of the rest is as it was when the destination is above the source. */
  lemma CopiedBack(m: seq<bv8>, d: nat, s: nat, k: nat, n: nat)
    requires 0 < k <= n && s < d && d + n <= |m|
    ensures Copied(Copied(m, d + k, s + k, n - k), d + k - 1, s + k - 1, 1)
         == Copied(m, d + k - 1, s + k - 1, n - k + 1)
  {
    var m1 := Copied(m, d + k, s + k, n - k);
    var i, j := d + k, s + k;
    assert m1[..i - 1] == m[..i - 1];
    assert m1[j - 1..j] == m[j - 1..j];
    assert m1[i..] == m[j..s + n] + m[d + n..];
    assert m[j - 1..j] + m[j..s + n] == m[j - 1..s + n];
  }

  /** Byte by byte: the destination holds what the source held before, and every other byte stays. */
  lemma CopiedBytes(m: seq<bv8>, d: nat, s: nat, n: nat, i: nat)
    requires d + n <= |m| && s + n <= |m| && i < |m|
    ensures Copied(m, d, s, n)[i] == if d <= i < d + n then m[s + (i - d)] else m[i]
  {
  }

  lemma CopiedNone(m: seq<bv8>, d: nat, s: nat)
    requires d <= |m| && s <= |m|
    ensures Copied(m, d, s, 0) == m
  {
  }

  method CopyByte(mem: array<bv8>, d: nat, s: nat)
    requires d < mem.Length && s < mem.Length
    modifies mem
    ensures mem[..] == Copied(old(mem[..]), d, s, 1)
  {
    ghost var m := mem[..];
    mem[d] := mem[s];
    assert mem[..] == m[d := m[s]];
  }

  /** Writes the eight bytes of a word. */
  method StoreWord(mem: array<bv8>, d: nat, w: bv64)
    requires d + 8 <= mem.Length
    modifies mem
    ensures mem[d] == ByteOf(w, 0) && mem[d + 1] == ByteOf(w, 1) && mem[d + 2] == ByteOf(w, 2)
    ensures mem[d + 3] == ByteOf(w, 3)
    ensures mem[d + 4] == ByteOf(w, 4) && mem[d + 5] == ByteOf(w, 5) && mem[d + 6] == ByteOf(w, 6)
    ensures mem[d + 7] == ByteOf(w, 7)
    ensures forall i :: 0 <= i < mem.Length && !(d <= i < d + 8) ==> mem[i] == old(mem[i])
  {
    hide ByteOf;
    mem[d], mem[d + 1], mem[d + 2], mem[d + 3] := ByteOf(w, 0), ByteOf(w, 1), ByteOf(w, 2), ByteOf(w, 3);
    mem[d + 4], mem[d + 5], mem[d + 6], mem[d + 7] := ByteOf(w, 4), ByteOf(w, 5), ByteOf(w, 6), ByteOf(w, 7);
  }

  /** One word is read, then written. */
  method CopyWord(mem: array<bv8>, d: nat, s: nat)
    requires d + 8 <= mem.Length && s + 8 <= mem.Length
    modifies mem
    ensures mem[..] == Copied(old(mem[..]), d, s, 8)
  {
    hide ByteOf, Word, Copied;
    ghost var m := mem[..];
    var w := LoadWord(mem, s);
    ByteOfWord(m[s], m[s + 1], m[s + 2], m[s + 3], m[s + 4], m[s + 5], m[s + 6], m[s + 7]);
    StoreWord(mem, d, w);
    WordCopied(m, mem[..], d, s);
  }

  lemma WordCopied(m: seq<bv8>, r: seq<bv8>, d: nat, s: nat)
    requires d + 8 <= |m| == |r| && s + 8 <= |m|
    requires r[d] == m[s] && r[d + 1] == m[s + 1] && r[d + 2] == m[s + 2] && r[d + 3] == m[s + 3]
    requires r[d + 4] == m[s + 4] && r[d + 5] == m[s + 5] && r[d + 6] == m[s + 6] && r[d + 7] == m[s + 7]
    requires forall i :: 0 <= i < |m| && !(d <= i < d + 8) ==> r[i] == m[i]
    ensures r == Copied(m, d, s, 8)
  {
    assert r[d..d + 8] == m[s..s + 8];
    assert r == r[..d] + r[d..d + 8] + r[d + 8..];
    assert r[..d] == m[..d] && r[d + 8..] == m[d + 8..];
  }

  /** Eight words, one after the other. */
  method CopyBlock(mem: array<bv8>, d: nat, s: nat)
    requires d + 64 <= mem.Length && s + 64 <= mem.Length && (d <= s || s + 64 <= d)
    modifies mem
    ensures mem[..] == Copied(old(mem[..]), d, s, 64)
  {
    hide Copied;
    ghost var m := mem[..];
    CopyWord(mem, d, s);
    CopyWord(mem, d + 8, s + 8);
    CopiedStep(m, d, s, 8, 8);
    CopyWord(mem, d + 16, s + 16);
    CopiedStep(m, d, s, 16, 8);
    CopyWord(mem, d + 24, s + 24);
    CopiedStep(m, d, s, 24, 8);
    CopyWord(mem, d + 32, s + 32);
    CopiedStep(m, d, s, 32, 8);
    CopyWord(mem, d + 40, s + 40);
    CopiedStep(m, d, s, 40, 8);
    CopyWord(mem, d + 48, s + 48);
    CopiedStep(m, d, s, 48, 8);
    CopyWord(mem, d + 56, s + 56);
    CopiedStep(m, d, s, 56, 8);
  }

  /** memcpy: bytes up to an aligned destination, blocks, words, and the last bytes. It copies all at
      once when the destination is not above the source within the copied range. */
  method Memcpy(mem: array<bv8>, d: nat, s: nat, n: nat)
    requires d + n <= mem.Length && s + n <= mem.Length && (d <= s || s + n <= d)
    modifies mem
    ensures mem[..] == Copied(old(mem[..]), d, s, n)
  {
    hide Copied;
    ghost var m := mem[..];
    CopiedNone(m, d, s);
    var k := 0;
    while k < n && (d + k) % 8 != 0
      invariant k <= n && mem[..] == Copied(m, d, s, k)
    {
      CopyByte(mem, d + k, s + k);
      CopiedStep(m, d, s, k, 1);
      k := k + 1;
    }
    while n - k >= 64
      invariant k <= n && mem[..] == Copied(m, d, s, k)
    {
      CopyBlock(mem, d + k, s + k);
      CopiedStep(m, d, s, k, 64);
      k := k + 64;
    }
    while n - k >= 8
      invariant k <= n && mem[..] == Copied(m, d, s, k)
    {
      CopyWord(mem, d + k, s + k);
      CopiedStep(m, d, s, k, 8);
      k := k + 8;
    }
    while k < n
      invariant k <= n && mem[..] == Copied(m, d, s, k)
    {
      CopyByte(mem, d + k, s + k);
      CopiedStep(m, d, s, k, 1);
      k := k + 1;
    }
  }

  /** memmove: whatever the overlap, the old source bytes are at the destination and nothing else
      changes. */
  method Memmove(mem: array<bv8>, d: nat, s: nat, n: nat)
    requires d + n <= mem.Length && s + n <= mem.Length
    modifies mem
    ensures mem[..] == Copied(old(mem[..]), d, s, n)
  {
    hide Copied;
    ghost var m := mem[..];
    if d < s {
      Memcpy(mem, d, s, n);
    } else if d > s {
      CopiedNone(m, d + n, s + n);
      var k: nat := n;
      while k > 0
        invariant k <= n && mem[..] == Copied(m, d + k, s + k, n - k)
      {
        CopiedBack(m, d, s, k, n);
        k := k - 1;
        CopyByte(mem, d + k, s + k);
      }
    } else {
      CopiedSame(m, d, n);
    }
  }

  lemma CopiedSame(m: seq<bv8>, d: nat, n: nat)
    requires d + n <= |m|
    ensures Copied(m, d, d, n) == m
  {
  }

  /** The comparison byte by byte. */
  function Compare(m: seq<bv8>, a: nat, b: nat, n: nat): int
    requires a + n <= |m| && b + n <= |m|
    decreases n
  {
    if n == 0 then 0
    else if m[a] != m[b] then m[a] as int - m[b] as int
    else Compare(m, a + 1, b + 1, n - 1)
  }

  lemma {:induction false} CompareSkips(m: seq<bv8>, a: nat, b: nat, n: nat, k: nat)
    requires a + n <= |m| && b + n <= |m| && k <= n && m[a..a + k] == m[b..b + k]
    ensures Compare(m, a, b, n) == Compare(m, a + k, b + k, n - k)
    decreases k
  {
    if k > 0 {
      assert m[a] == m[a..a + k][0] == m[b..b + k][0] == m[b];
      assert m[a + 1..a + k] == m[a..a + k][1..] && m[b + 1..b + k] == m[b..b + k][1..];
      CompareSkips(m, a + 1, b + 1, n - 1, k - 1);
    }
  }

  /** The comparison is zero exactly for equal ranges. */
  lemma {:induction false} CompareZero(m: seq<bv8>, a: nat, b: nat, n: nat)
    requires a + n <= |m| && b + n <= |m|
    ensures Compare(m, a, b, n) == 0 <==> m[a..a + n] == m[b..b + n]
    decreases n
  {
    if n > 0 {
      CompareZero(m, a + 1, b + 1, n - 1);
      assert m[a..a + n] == [m[a]] + m[a + 1..a + n] && m[b..b + n] == [m[b]] + m[b + 1..b + n];
      assert m[a..a + n][0] == m[a] && m[b..b + n][0] == m[b];
      assert m[a..a + n][1..] == m[a + 1..a + n] && m[b..b + n][1..] == m[b + 1..b + n];
    }
  }

  /** Otherwise it is the first difference. */
  lemma CompareFirst(m: seq<bv8>, a: nat, b: nat, n: nat, k: nat)
    requires a + n <= |m| && b + n <= |m| && k < n && m[a..a + k] == m[b..b + k] && m[a + k] != m[b + k]
    ensures Compare(m, a, b, n) == m[a + k] as int - m[b + k] as int
  {
    CompareSkips(m, a, b, n, k);
  }

  lemma CompareOne(m: seq<bv8>, a: nat, b: nat, n: nat)
    requires a + n <= |m| && b + n <= |m|
    ensures n == 0 ==> Compare(m, a, b, n) == 0
    ensures n > 0 && m[a] != m[b] ==> Compare(m, a, b, n) == m[a] as int - m[b] as int
    ensures n > 0 && m[a] == m[b] ==> Compare(m, a, b, n) == Compare(m, a + 1, b + 1, n - 1)
  {
  }

  lemma SameWord(m: seq<bv8>, a: nat, b: nat)
    requires a + 8 <= |m| && b + 8 <= |m| && WordAt(m, a) == WordAt(m, b)
    ensures m[a..a + 8] == m[b..b + 8]
  {
    hide Word;
    WordInjective(m[a], m[a + 1], m[a + 2], m[a + 3], m[a + 4], m[a + 5], m[a + 6], m[a + 7],
                  m[b], m[b + 1], m[b + 2], m[b + 3], m[b + 4], m[b + 5], m[b + 6], m[b + 7]);
  }

  /** memcmp: bytes up to an aligned first operand, words, and the last bytes. */
  method Memcmp(mem: array<bv8>, a: nat, b: nat, n: nat) returns (r: int)
    requires a + n <= mem.Length && b + n <= mem.Length
    ensures r == Compare(mem[..], a, b, n)
  {
    hide Compare;
    ghost var m := mem[..];
    var k := 0;
    while k < n && (a + k) % 8 != 0
      invariant k <= n && Compare(m, a, b, n) == Compare(m, a + k, b + k, n - k)
    {
      CompareOne(m, a + k, b + k, n - k);
      if mem[a + k] != mem[b + k] { return mem[a + k] as int - mem[b + k] as int; }
      k := k + 1;
    }
    while n - k >= 8
      invariant k <= n && Compare(m, a, b, n) == Compare(m, a + k, b + k, n - k)
    {
      var same, d := CompareWord(mem, a + k, b + k, n - k);
      if !same { return d; }
      k := k + 8;
    }
    r := CompareBytes(mem, a + k, b + k, n - k);
  }

  /** One word of each operand, and the bytes of the two when they differ. */
  method CompareWord(mem: array<bv8>, a: nat, b: nat, ghost n: nat) returns (same: bool, d: int)
    requires 8 <= n && a + n <= mem.Length && b + n <= mem.Length
    ensures same ==> Compare(mem[..], a, b, n) == Compare(mem[..], a + 8, b + 8, n - 8)
    ensures !same ==> d == Compare(mem[..], a, b, n)
  {
    hide Word, Compare, WordAt;
    ghost var m := mem[..];
    var x := LoadWord(mem, a);
    var y := LoadWord(mem, b);
    if x == y {
      SameWord(m, a, b);
      CompareSkips(m, a, b, n, 8);
      return true, 0;
    }
    var i := 0;
    while i < 8
      invariant i <= 8 && Compare(m, a, b, n) == Compare(m, a + i, b + i, n - i)
    {
      CompareOne(m, a + i, b + i, n - i);
      if mem[a + i] != mem[b + i] { return false, mem[a + i] as int - mem[b + i] as int; }
      i := i + 1;
    }
    return true, 0;
  }

  method CompareBytes(mem: array<bv8>, a: nat, b: nat, n: nat) returns (r: int)
    requires a + n <= mem.Length && b + n <= mem.Length
    ensures r == Compare(mem[..], a, b, n)
  {
    hide Compare;
    ghost var m := mem[..];
    var k := 0;
    while k < n
      invariant k <= n && Compare(m, a, b, n) == Compare(m, a + k, b + k, n - k)
    {
      CompareOne(m, a + k, b + k, n - k);
      if mem[a + k] != mem[b + k] { return mem[a + k] as int - mem[b + k] as int; }
      k := k + 1;
    }
    CompareOne(m, a + n, b + n, 0);
    return 0;
  }

  method LoadWord(mem: array<bv8>, a: nat) returns (w: bv64)
    requires a + 8 <= mem.Length
    ensures w == WordAt(mem[..], a)
  {
    hide Word;
    w := Word(mem[a], mem[a + 1], mem[a + 2], mem[a + 3], mem[a + 4], mem[a + 5], mem[a + 6], mem[a + 7]);
  }

  lemma ZeroInWord(m: seq<bv8>, a: nat)
    requires a + 8 <= |m|
    ensures HasZero(WordAt(m, a)) == 0 <==> forall i :: a <= i < a + 8 ==> m[i] != 0
  {
    hide Word, HasZero;
    HasZeroIff(m[a], m[a + 1], m[a + 2], m[a + 3], m[a + 4], m[a + 5], m[a + 6], m[a + 7]);
  }

  /** strlen: the distance to the first zero byte. Whole aligned words are read, so the memory ends on
      a word boundary. */
  method Strlen(mem: array<bv8>, str: nat, ghost end: nat) returns (n: nat)
    requires str <= end < mem.Length && mem[end] == 0 && mem.Length % 8 == 0
    requires forall i :: str <= i < end ==> mem[i] != 0
    ensures n == end - str
  {
    hide Word, HasZero;
    ghost var m := mem[..];
    var s := str;
    while s % 8 != 0
      invariant str <= s <= end
      decreases end - s
    {
      if mem[s] == 0 { return s - str; }
      s := s + 1;
    }
    while true
      invariant str <= s <= end && s % 8 == 0 && s + 8 <= mem.Length
      decreases end - s
    {
      var w := LoadWord(mem, s);
      ZeroInWord(m, s);
      if HasZero(w) != 0 { break; }
      s := s + 8;
    }
    while mem[s] != 0
      invariant str <= s <= end
      decreases end - s
    {
      s := s + 1;
    }
    return s - str;
  }
}

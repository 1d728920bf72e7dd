/** Cluster chains in the allocation table, and the bytes a chain holds. */
module FatChain {

  const EOC: nat := 0x0FFFFFF8   // entries from here on end a chain
  const END: nat := 0x0FFFFFFF   // the end mark the driver writes
  const BAD: nat := 0x0FFFFFF7   // a defective cluster

  /** The clusters `ch` follow each other in the table, and the last one ends the chain. */
  ghost predicate IsChain(t: seq<nat>, ch: seq<nat>) {
    && ch != []
    && (forall i :: 0 <= i < |ch| ==> 2 <= ch[i] < |t|)
    && (forall i :: 0 <= i < |ch| - 1 ==> t[ch[i]] == ch[i + 1])
    && t[ch[|ch| - 1]] >= EOC
  }

  ghost predicate Covered(chains: map<nat, seq<nat>>, c: nat) {
    exists h :: h in chains && c in chains[h]
  }

  /** The table is a set of disjoint chains, named by their first clusters; a cluster in none of them
      is free or marked bad. */
  ghost predicate WellFormed(t: seq<nat>, chains: map<nat, seq<nat>>) {
    |t| <= BAD && Chained(t, chains) && Disjoint(chains) && Complete(t, chains)
  }

  ghost predicate Chained(t: seq<nat>, chains: map<nat, seq<nat>>) {
    forall h :: h in chains ==> IsChain(t, chains[h]) && chains[h][0] == h
  }

  ghost predicate Disjoint(chains: map<nat, seq<nat>>) {
    forall h, k, c :: h in chains && k in chains && c in chains[h] && c in chains[k] ==> h == k
  }

  ghost predicate Complete(t: seq<nat>, chains: map<nat, seq<nat>>) {
    forall c :: 2 <= c < |t| ==> t[c] == 0 || t[c] == BAD || Covered(chains, c)
  }

  /** A chain never returns to a cluster: a repeated cluster would repeat its successors for ever,
      and the last cluster has none. */
  lemma {:induction false} ChainAcyclic(t: seq<nat>, ch: seq<nat>, i: nat, j: nat)
    requires IsChain(t, ch) && |t| <= BAD && i < j < |ch|
    ensures ch[i] != ch[j]
    decreases |ch| - j
  {
    assert t[ch[i]] == ch[i + 1];
    if j < |ch| - 1 {
      ChainAcyclic(t, ch, i + 1, j + 1);
      assert t[ch[j]] == ch[j + 1];
    }
  }

  /** The table and the first cluster determine the chain. */
  lemma {:induction false} ChainUnique(t: seq<nat>, a: seq<nat>, b: seq<nat>)
    requires IsChain(t, a) && IsChain(t, b) && a[0] == b[0] && |t| <= BAD
    ensures a == b
    decreases |a|
  {
    assert |a| > 1 ==> t[a[0]] == a[1];
    assert |b| > 1 ==> t[b[0]] == b[1];
    if |a| > 1 && |b| > 1 {
      ChainUnique(t, a[1..], b[1..]);
      assert a == [a[0]] + a[1..] && b == [b[0]] + b[1..];
    }
  }

  /** A cluster of a chain is not free. */
  lemma InChain(t: seq<nat>, ch: seq<nat>, c: nat)
    requires IsChain(t, ch) && c in ch
    ensures 2 <= c < |t| && t[c] != 0
  {
    var i :| 0 <= i < |ch| && ch[i] == c;
    if i < |ch| - 1 { assert t[ch[i]] == ch[i + 1]; }
  }

  /** A free cluster is in no chain. */
  lemma FreeOutside(t: seq<nat>, chains: map<nat, seq<nat>>, c: nat)
    requires Chained(t, chains) && 2 <= c < |t| && t[c] == 0
    ensures c !in chains && forall h :: h in chains ==> c !in chains[h]
  {
    forall h | h in chains ensures c !in chains[h] && chains[h][0] in chains[h] {
      if c in chains[h] { InChain(t, chains[h], c); }
    }
  }

  /** A chain is not touched by a change elsewhere. */
  lemma ChainFrame(t: seq<nat>, ch: seq<nat>, c: nat, v: nat)
    requires IsChain(t, ch) && c < |t| && c !in ch
    ensures IsChain(t[c := v], ch)
  {
    forall i | 0 <= i < |ch| ensures t[c := v][ch[i]] == t[ch[i]] { assert ch[i] in ch; }
  }

  /** Allocation starts a chain of one cluster and leaves the others alone. */
  lemma AllocKeeps(t: seq<nat>, chains: map<nat, seq<nat>>, c: nat)
    requires WellFormed(t, chains) && 2 <= c < |t| && t[c] == 0
    ensures WellFormed(t[c := END], chains[c := [c]]) && c !in chains
    ensures forall h :: h in chains ==> c !in chains[h]
  {
    hide IsChain;
    FreeOutside(t, chains, c);
    AllocChained(t, chains, c);
    AllocComplete(t, chains, c);
  }

  lemma AllocChained(t: seq<nat>, chains: map<nat, seq<nat>>, c: nat)
    requires Chained(t, chains) && 2 <= c < |t| && forall h :: h in chains ==> c !in chains[h]
    ensures Chained(t[c := END], chains[c := [c]])
  {
    hide IsChain;
    forall h | h in chains ensures IsChain(t[c := END], chains[h]) { ChainFrame(t, chains[h], c, END); }
    NewChain(t, c);
  }

  lemma NewChain(t: seq<nat>, c: nat)
    requires 2 <= c < |t|
    ensures IsChain(t[c := END], [c])
  {
  }

  lemma AllocComplete(t: seq<nat>, chains: map<nat, seq<nat>>, c: nat)
    requires Complete(t, chains) && c < |t| && c !in chains
    ensures Complete(t[c := END], chains[c := [c]])
  {
    var t', chains' := t[c := END], chains[c := [c]];
    forall x | 2 <= x < |t'| ensures t'[x] == 0 || t'[x] == BAD || Covered(chains', x) {
      if x == c {
        assert c in chains' && x in chains'[c];
      } else if Covered(chains, x) {
        var h :| h in chains && x in chains[h];
        assert h in chains' && x in chains'[h];
      }
    }
  }

  /** The chains after the one-cluster chain `c` was hung behind chain `h`. */
  function Linked(chains: map<nat, seq<nat>>, h: nat, c: nat): map<nat, seq<nat>>
    requires h in chains
  {
    (chains - {c})[h := chains[h] + [c]]
  }

  lemma LinkChain(t: seq<nat>, ch: seq<nat>, c: nat)
    requires IsChain(t, ch) && |t| <= BAD && IsChain(t, [c]) && c !in ch
    ensures IsChain(t[ch[|ch| - 1] := c], ch + [c])
  {
    var last := |ch| - 1;
    var t', ch' := t[ch[last] := c], ch + [c];
    forall i | 0 <= i < last ensures ch[i] != ch[last] { ChainAcyclic(t, ch, i, last); }
    assert ch[last] in ch && [c][0] == c;
  }

  ghost predicate Apart(chains: map<nat, seq<nat>>, h: nat, c: nat) {
    h in chains && c in chains && c != h && chains[c] == [c]
  }

  /** Linking a new cluster behind the last one of a chain extends that chain and no other. */
  lemma LinkKeeps(t: seq<nat>, chains: map<nat, seq<nat>>, h: nat, c: nat)
    requires WellFormed(t, chains) && Apart(chains, h, c)
    ensures chains[h] != [] && 2 <= chains[h][|chains[h]| - 1] < |t| && c !in chains[h]
    ensures WellFormed(t[chains[h][|chains[h]| - 1] := c], Linked(chains, h, c))
  {
    hide IsChain, Linked, Disjoint, Covered;
    LastOf(t, chains[h]);
    LinkApart(chains, h, c);
    LinkChained(t, chains, h, c);
    LinkDisjoint(chains, h, c);
    LinkCovers(chains, h, c);
    var last := chains[h][|chains[h]| - 1];
    assert Covered(chains, last) && t[last := c][last] == c;
  }

  lemma LastOf(t: seq<nat>, ch: seq<nat>)
    requires IsChain(t, ch)
    ensures ch != [] && 2 <= ch[|ch| - 1] < |t| && ch[|ch| - 1] in ch
  {
  }

  lemma LinkApart(chains: map<nat, seq<nat>>, h: nat, c: nat)
    requires Disjoint(chains) && Apart(chains, h, c) && chains[h] != []
    ensures c !in chains[h] && (forall k :: k in chains && k != h ==> chains[h][|chains[h]| - 1] !in chains[k])
    ensures Covered(chains, chains[h][|chains[h]| - 1])
  {
    assert c in chains[c] && chains[h][|chains[h]| - 1] in chains[h];
  }

  lemma LinkChained(t: seq<nat>, chains: map<nat, seq<nat>>, h: nat, c: nat)
    requires Chained(t, chains) && |t| <= BAD && Apart(chains, h, c) && chains[h] != []
    requires chains[h][|chains[h]| - 1] < |t|
    requires c !in chains[h] && (forall k :: k in chains && k != h ==> chains[h][|chains[h]| - 1] !in chains[k])
    ensures Chained(t[chains[h][|chains[h]| - 1] := c], Linked(chains, h, c))
  {
    hide IsChain;
    var last := chains[h][|chains[h]| - 1];
    LinkChain(t, chains[h], c);
    forall k | k in chains && k != h ensures IsChain(t[last := c], chains[k]) { ChainFrame(t, chains[k], last, c); }
  }

  lemma LinkDisjoint(chains: map<nat, seq<nat>>, h: nat, c: nat)
    requires Disjoint(chains) && Apart(chains, h, c)
    ensures Disjoint(Linked(chains, h, c))
  {
    assert c in chains[c];
    var n := Linked(chains, h, c);
    forall a, x | a in n && x in n[a] ensures (a in chains && x in chains[a]) || (a == h && x == c) {
    }
  }

  lemma LinkCovers(chains: map<nat, seq<nat>>, h: nat, c: nat)
    requires Apart(chains, h, c)
    ensures forall x :: Covered(chains, x) ==> Covered(Linked(chains, h, c), x)
  {
    var n := Linked(chains, h, c);
    forall x | Covered(chains, x) ensures Covered(n, x) {
      var k :| k in chains && x in chains[k];
      var k' := if k == c then h else k;
      assert k' in n && x in n[k'];
    }
  }

  // ---------------------------------------------------------------- the bytes of a chain

  type Cluster = seq<bv8>

  /** Every cluster of the data region holds `size` bytes. */
  ghost predicate Filled(data: seq<Cluster>, size: nat) {
    forall c :: 0 <= c < |data| ==> |data[c]| == size
  }

  ghost predicate Inside(data: seq<Cluster>, ch: seq<nat>) {
    forall i :: 0 <= i < |ch| ==> ch[i] < |data|
  }

  /** The bytes of the clusters, one after the other. */
  function Content(data: seq<Cluster>, ch: seq<nat>): (b: seq<bv8>)
    requires forall i :: 0 <= i < |ch| ==> ch[i] < |data|
  {
    if ch == [] then [] else Content(data, ch[..|ch| - 1]) + data[ch[|ch| - 1]]
  }

  /** The position of byte `o` of the `k`-th cluster. */
  function Position(k: nat, size: nat, o: nat): nat { k * size + o }

  function Splice(b: seq<bv8>, p: nat, s: seq<bv8>): (r: seq<bv8>)
    requires p + |s| <= |b|
    ensures |r| == |b|
  {
    b[..p] + s + b[p + |s|..]
  }

  function Blank(n: nat): seq<bv8> { seq(n, _ => 0) }

  lemma {:induction false} ContentSize(data: seq<Cluster>, ch: seq<nat>, size: nat)
    requires Inside(data, ch) && Filled(data, size)
    ensures |Content(data, ch)| == Position(|ch|, size, 0)
  {
    if ch != [] {
      ContentSize(data, ch[..|ch| - 1], size);
      NextPosition(|ch| - 1, size);
    }
  }

  lemma NextPosition(k: nat, size: nat)
    ensures Position(k + 1, size, 0) == Position(k, size, size)
  {
  }

  lemma PositionOrder(k: nat, n: nat, size: nat)
    requires k < n
    ensures Position(k, size, size) <= Position(n, size, 0)
  {
    assert (n - k - 1) * size >= 0;
    assert n * size == k * size + size + (n - k - 1) * size;
  }

  lemma PositionPlus(k: nat, size: nat, o: nat)
    ensures Position(k, size, o) == Position(k, size, 0) + o
  {
  }

  /** Bytes written elsewhere are not in the chain. */
  lemma {:induction false} ContentFrame(data: seq<Cluster>, data': seq<Cluster>, ch: seq<nat>)
    requires Inside(data, ch) && |data'| == |data| && forall i :: 0 <= i < |ch| ==> data'[ch[i]] == data[ch[i]]
    ensures Inside(data', ch) && Content(data', ch) == Content(data, ch)
  {
    if ch != [] { ContentFrame(data, data', ch[..|ch| - 1]); }
  }

  lemma ContentGrow(data: seq<Cluster>, ch: seq<nat>, c: nat)
    requires Inside(data, ch) && c < |data|
    ensures Inside(data, ch + [c]) && Content(data, ch + [c]) == Content(data, ch) + data[c]
  {
    assert (ch + [c])[..|ch|] == ch;
  }

  /** Where the bytes of the `k`-th cluster are. */
  lemma {:induction false} ContentAt(data: seq<Cluster>, ch: seq<nat>, k: nat, size: nat)
    requires Inside(data, ch) && Filled(data, size) && k < |ch|
    ensures Position(k, size, size) <= |Content(data, ch)|
    ensures Content(data, ch)[Position(k, size, 0)..Position(k, size, size)] == data[ch[k]]
  {
    hide Position;
    var n := |ch| - 1;
    ContentSize(data, ch, size);
    ContentSize(data, ch[..n], size);
    PositionOrder(k, |ch|, size);
    PositionPlus(k, size, size);
    if k < n {
      PositionOrder(k, n, size);
      ContentAt(data, ch[..n], k, size);
    } else {
      NextPosition(n, size);
    }
  }

  /** Bytes written in one cluster of the chain are spliced into its content. */
  lemma {:induction false} ContentSplice(data: seq<Cluster>, ch: seq<nat>, k: nat, size: nat, o: nat, s: seq<bv8>)
    requires Inside(data, ch) && Filled(data, size) && k < |ch| && o + |s| <= size
    requires forall i, j :: 0 <= i < j < |ch| ==> ch[i] != ch[j]
    ensures Position(k, size, o) + |s| <= |Content(data, ch)|
    ensures var data' := data[ch[k] := Splice(data[ch[k]], o, s)];
      Inside(data', ch) && Content(data', ch) == Splice(Content(data, ch), Position(k, size, o), s)
  {
    hide Position, Splice;
    var data' := data[ch[k] := Splice(data[ch[k]], o, s)];
    var n := |ch| - 1;
    SpliceRoom(data, ch, k, size, o, s);
    if k < n {
      SpliceRoom(data, ch[..n], k, size, o, s);
      ContentSplice(data, ch[..n], k, size, o, s);
      SpliceFront(Content(data, ch[..n]), data[ch[n]], Position(k, size, o), s);
    } else {
      ContentFrame(data, data', ch[..n]);
      ContentSize(data, ch[..n], size);
      PositionPlus(k, size, o);
      SpliceBack(Content(data, ch[..n]), data[ch[n]], o, s);
    }
  }

  lemma SpliceRoom(data: seq<Cluster>, ch: seq<nat>, k: nat, size: nat, o: nat, s: seq<bv8>)
    requires Inside(data, ch) && Filled(data, size) && k < |ch| && o + |s| <= size
    ensures Position(k, size, o) + |s| <= |Content(data, ch)|
  {
    hide Position;
    ContentSize(data, ch, size);
    PositionPlus(k, size, o);
    PositionPlus(k, size, size);
    PositionOrder(k, |ch|, size);
  }

  lemma SpliceFront(a: seq<bv8>, b: seq<bv8>, p: nat, s: seq<bv8>)
    requires p + |s| <= |a|
    ensures Splice(a + b, p, s) == Splice(a, p, s) + b
  {
  }

  lemma SpliceBack(a: seq<bv8>, b: seq<bv8>, o: nat, s: seq<bv8>)
    requires o + |s| <= |b|
    ensures Splice(a + b, |a| + o, s) == a + Splice(b, o, s)
  {
  }

  /** Two adjoining writes are one. */
  lemma SpliceTwice(b: seq<bv8>, p: nat, s: seq<bv8>, s': seq<bv8>)
    requires p + |s| + |s'| <= |b|
    ensures Splice(Splice(b, p, s), p + |s|, s') == Splice(b, p, s + s')
  {
  }
}

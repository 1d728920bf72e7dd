/** The allocation table region of a FAT32 volume (section 4, "FAT", of the Microsoft FAT
    specification): copies of a table of 32-bit words laid out in sectors. The low 28 bits of a word
    are the entry, the top four are reserved and kept. */
module Fat {

  const LOW: nat := 0x1000_0000
  const WORD: nat := 0x1_0000_0000

  type Word = w: nat | w < WORD

  /** The entry in a word: its low 28 bits. */
  function Low(w: Word): (v: nat)
    ensures v < LOW
  {
    w % LOW
  }

  /** The word with a new entry and the old reserved bits. */
  function Merge(w: Word, v: nat): (r: Word)
    ensures Low(r) == v % LOW && r / LOW == w / LOW
  {
    w / LOW * LOW + v % LOW
  }

  type Sector = seq<Word>

  /** `words` per sector, `start` of the first copy, number of `copies`, `size` of a copy in sectors,
      and the `clusters` that have an entry, counting the two reserved ones. */
  datatype Geometry = Geometry(words: nat, start: nat, copies: nat, size: nat, clusters: nat)
  {
    /** The first sector after the table region. */
    function Limit(): nat { start + copies * size }

    ghost predicate Good() {
      && words > 0 && copies > 0 && size > 0
      && forall c: nat :: c < clusters ==> c / words < size
    }

    /** The sector of copy `f` that holds the entry of cluster `c`. */
    function At(f: nat, c: nat): nat
      requires words > 0
    {
      start + f * size + c / words
    }

    ghost predicate Formatted(d: seq<Sector>) {
      Good() && |d| == Limit() && forall s :: 0 <= s < |d| ==> |d[s]| == words
    }
  }

  lemma Strip(f: nat, g: nat, size: nat)
    requires f < g
    ensures f * size + size <= g * size
  {
    assert (g - f - 1) * size >= 0;
    assert g * size == f * size + size + (g - f - 1) * size;
  }

  /** Counted in words, the entry of cluster `c` is the `c`-th of its copy. */
  lemma EntryPlace(g: Geometry, f: nat, c: nat)
    requires g.words > 0
    ensures g.At(f, c) * g.words + c % g.words == (g.start + f * g.size) * g.words + c
  {
    assert c == c / g.words * g.words + c % g.words;
    var base := g.start + f * g.size;
    assert (base + c / g.words) * g.words == base * g.words + c / g.words * g.words;
  }

  /** Every entry of every copy lies in the region. */
  lemma AtInside(g: Geometry, f: nat, c: nat)
    requires g.Good() && f < g.copies && c < g.clusters
    ensures g.start <= g.At(f, c) < g.Limit() && c % g.words < g.words
    ensures f == 0 ==> g.At(f, c) < g.start + g.size
    ensures f > 0 ==> g.At(f, c) >= g.start + g.size
  {
    Strip(f, g.copies, g.size);
    if f > 0 { Strip(0, f, g.size); }
  }

  lemma SameQuotient(a: nat, b: nat, n: nat)
    requires n > 0 && a / n == b / n && a % n == b % n
    ensures a == b
  {
    assert a == n * (a / n) + a % n && b == n * (b / n) + b % n;
  }

  lemma SameStrip(f: nat, q: nat, f': nat, q': nat, size: nat)
    requires q < size && q' < size && f * size + q == f' * size + q'
    ensures f == f' && q == q'
  {
    if f < f' { Strip(f, f', size); }
    if f' < f { Strip(f', f, size); }
  }

  /** Distinct entries lie at distinct places. */
  lemma AtApart(g: Geometry, f: nat, c: nat, f': nat, c': nat)
    requires g.Good() && f < g.copies && f' < g.copies && c < g.clusters && c' < g.clusters
    requires g.At(f, c) == g.At(f', c') && c % g.words == c' % g.words
    ensures f == f' && c == c'
  {
    SameStrip(f, c / g.words, f', c' / g.words, g.size);
    SameQuotient(c, c', g.words);
  }

  /** The word of cluster `c` in copy `f`. */
  function Entry(g: Geometry, d: seq<Sector>, f: nat, c: nat): Word
    requires g.Formatted(d) && f < g.copies && c < g.clusters
  {
    AtInside(g, f, c);
    d[g.At(f, c)][c % g.words]
  }

  function Put(g: Geometry, d: seq<Sector>, f: nat, c: nat, v: nat): (r: seq<Sector>)
    requires g.Formatted(d) && f < g.copies && c < g.clusters
    ensures g.Formatted(r)
  {
    AtInside(g, f, c);
    var s := g.At(f, c);
    var sector: Sector := d[s][c % g.words := Merge(Entry(g, d, f, c), v)];
    d[s := sector]
  }

  /** The entry of `c` written in the copies from `f` on. */
  function PutFrom(g: Geometry, d: seq<Sector>, f: nat, c: nat, v: nat): (r: seq<Sector>)
    requires g.Formatted(d) && f <= g.copies && c < g.clusters
    ensures g.Formatted(r)
    decreases g.copies - f
  {
    if f == g.copies then d else PutFrom(g, Put(g, d, f, c, v), f + 1, c, v)
  }

  lemma PutEntry(g: Geometry, d: seq<Sector>, f: nat, c: nat, v: nat, f': nat, c': nat)
    requires g.Formatted(d) && f < g.copies && c < g.clusters && f' < g.copies && c' < g.clusters
    ensures Entry(g, Put(g, d, f, c, v), f', c') ==
      if f' == f && c' == c then Merge(Entry(g, d, f, c), v) else Entry(g, d, f', c')
  {
    hide Merge, Geometry.At, Geometry.Limit;
    AtInside(g, f, c);
    AtInside(g, f', c');
    if g.At(f, c) == g.At(f', c') && c % g.words == c' % g.words { AtApart(g, f, c, f', c'); }
  }

  lemma {:induction false} PutFromEntry(g: Geometry, d: seq<Sector>, f: nat, c: nat, v: nat, f': nat, c': nat)
    requires g.Formatted(d) && f <= g.copies && c < g.clusters && f' < g.copies && c' < g.clusters
    ensures Entry(g, PutFrom(g, d, f, c, v), f', c') ==
      if f' >= f && c' == c then Merge(Entry(g, d, f', c), v) else Entry(g, d, f', c')
    decreases g.copies - f
  {
    hide Entry, Put, Merge, Geometry.Formatted, Geometry.Good, Geometry.At, Geometry.Limit;
    if f < g.copies {
      PutFromEntry(g, Put(g, d, f, c, v), f + 1, c, v, f', c');
      PutEntry(g, d, f, c, v, f', c');
    }
  }

  /** All copies of the table are equal. */
  ghost predicate Agree(g: Geometry, d: seq<Sector>)
    requires g.Formatted(d)
  {
    forall f: nat, c: nat :: f < g.copies && c < g.clusters ==> Entry(g, d, f, c) == Entry(g, d, 0, c)
  }

  /** The table as a plain map from clusters to 28-bit entries. */
  ghost function Table(g: Geometry, d: seq<Sector>): (t: seq<nat>)
    requires g.Formatted(d)
    ensures |t| == g.clusters && forall c :: 0 <= c < |t| ==> t[c] == Low(Entry(g, d, 0, c)) < LOW
  {
    seq(g.clusters, c requires 0 <= c < g.clusters => Low(Entry(g, d, 0, c)))
  }

  /** Writing an entry in every copy changes that entry alone in the map, keeps the reserved bits of
      every word of every copy, and keeps the copies equal. */
  lemma WriteIsUpdate(g: Geometry, d: seq<Sector>, c: nat, v: nat)
    requires g.Formatted(d) && c < g.clusters && v < LOW
    ensures Table(g, PutFrom(g, d, 0, c, v)) == Table(g, d)[c := v]
    ensures forall f: nat, x: nat :: f < g.copies && x < g.clusters ==>
              Entry(g, PutFrom(g, d, 0, c, v), f, x) / LOW == Entry(g, d, f, x) / LOW
    ensures Agree(g, d) ==> Agree(g, PutFrom(g, d, 0, c, v))
  {
    hide Entry, PutFrom, Merge, Geometry.At, Geometry.Limit;
    var r := PutFrom(g, d, 0, c, v);
    forall f: nat, x: nat | f < g.copies && x < g.clusters
      ensures Entry(g, r, f, x) == if x == c then Merge(Entry(g, d, f, c), v) else Entry(g, d, f, x)
    {
      PutFromEntry(g, d, 0, c, v, f, x);
    }
    assert forall x :: 0 <= x < g.clusters ==> Table(g, r)[x] == Table(g, d)[c := v][x];
  }
}

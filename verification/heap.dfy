/** The kernel heap: a boundary-tag allocator over one arena. The abstract heap is the sequence of
    blocks in address order; every block's address follows from the sizes before it. */
module Heap {
  import opened Common

  const HEAP_START: nat := 0x1000000
  const HEAP_SIZE: nat := 0x1000000
  const HEADER: nat := 32            // sizeof(Block)
  const WORD: nat := 0x1_0000_0000_0000_0000

  datatype Cell = Cell(size: nat, free: bool)

  // ---------------------------------------------------------------- the arena as a sequence of blocks

  /** The bytes a run of blocks occupies, headers included. */
  function Span(cells: seq<Cell>): nat {
    if cells == [] then 0 else Span(cells[..|cells| - 1]) + HEADER + cells[|cells| - 1].size
  }

  /** The address of block `k`. */
  function Addr(cells: seq<Cell>, k: nat): (a: nat)
    requires k <= |cells|
    ensures a >= HEAP_START
  {
    HEAP_START + Span(cells[..k])
  }

  lemma {:induction false} SpanConcat(a: seq<Cell>, b: seq<Cell>)
    ensures Span(a + b) == Span(a) + Span(b)
    decreases |b|
  {
    if b == [] {
      assert a + b == a;
    } else {
      var b' := b[..|b| - 1];
      SpanConcat(a, b');
      assert (a + b)[..|a + b| - 1] == a + b';
    }
  }

  lemma AddrNext(cells: seq<Cell>, k: nat)
    requires k < |cells|
    ensures Addr(cells, k + 1) == Addr(cells, k) + HEADER + cells[k].size
  {
    assert cells[..k + 1][..k] == cells[..k];
  }

  /** Blocks lie apart, in order. */
  lemma {:induction false} AddrApart(cells: seq<Cell>, j: nat, k: nat)
    requires j < k <= |cells|
    ensures Addr(cells, j) + HEADER + cells[j].size <= Addr(cells, k)
    decreases k
  {
    AddrNext(cells, k - 1);
    if j < k - 1 { AddrApart(cells, j, k - 1); }
  }

  lemma SamePrefix(a: seq<Cell>, b: seq<Cell>, k: nat)
    requires k <= |a| && k <= |b| && a[..k] == b[..k]
    ensures Addr(a, k) == Addr(b, k)
  {
  }

  /** The blocks tile the arena: together they fill it exactly. */
  ghost predicate Tiles(cells: seq<Cell>) {
    cells != [] && Span(cells) == HEAP_SIZE
  }

  lemma TilesEnd(cells: seq<Cell>, k: nat)
    requires Tiles(cells) && k <= |cells|
    ensures Addr(cells, |cells|) == HEAP_START + HEAP_SIZE
    ensures Addr(cells, k) <= HEAP_START + HEAP_SIZE
    ensures k < |cells| ==> Addr(cells, k) + HEADER + cells[k].size <= HEAP_START + HEAP_SIZE
  {
    assert cells[..|cells|] == cells;
    if k < |cells| { AddrApart(cells, k, |cells|); }
  }

  // ---------------------------------------------------------------- operations on the sequence

  /** The heap as a value: its blocks and the index of the block under the cursor. */
  datatype State = State(cells: seq<Cell>, cur: nat)

  const Initial := State([Cell(HEAP_SIZE - HEADER, true)], 0)

  /** The size rounded up to 16, in 64-bit arithmetic. */
  function Align(size: nat): nat {
    (size + 15) % WORD / 16 * 16
  }

  predicate Fits(c: Cell, size: nat) {
    c.free && c.size >= size
  }

  /** The `d`-th block after the cursor in circular order. */
  function Circular(s: State, d: nat): (i: nat)
    requires s.cur < |s.cells| && d < |s.cells|
    ensures i < |s.cells|
  {
    if s.cur + d < |s.cells| then s.cur + d else s.cur + d - |s.cells|
  }

  /** Splits block `i` when the rest is large enough, and takes it. */
  function Take(cells: seq<Cell>, i: nat, size: nat): seq<Cell>
    requires i < |cells| && cells[i].size >= size
  {
    if cells[i].size >= size + HEADER + 16
    then cells[..i] + [Cell(size, false), Cell(cells[i].size - size - HEADER, true)] + cells[i + 1..]
    else cells[i := Cell(cells[i].size, false)]
  }

  /** Blocks `i` and `i + 1` as one. */
  function Merge(cells: seq<Cell>, i: nat): seq<Cell>
    requires i + 1 < |cells|
  {
    cells[..i] + [Cell(cells[i].size + HEADER + cells[i + 1].size, cells[i].free)] + cells[i + 2..]
  }

  function FreeAndMergeNext(cells: seq<Cell>, i: nat): (r: seq<Cell>)
    requires i < |cells|
    ensures |r| > i && r[i].free && r[..i] == cells[..i]
  {
    var c := cells[i := Cell(cells[i].size, true)];
    if i + 1 < |cells| && cells[i + 1].free then Merge(c, i) else c
  }

  /** Freeing block `i` when the footer before it names block `named` of the list. */
  function Free(s: State, i: nat, named: nat): State
    requires i < |s.cells| && named < |FreeAndMergeNext(s.cells, i)|
  {
    var c := FreeAndMergeNext(s.cells, i);
    var cur := if i < s.cur then i else s.cur;
    if i > 0 && c[named].free && named != i && c[i - 1].free
    then State(Merge(c, i - 1), if cur == i then i - 1 else cur)
    else State(c, cur)
  }

  lemma SpanThree(a: seq<Cell>, m: seq<Cell>, b: seq<Cell>)
    ensures Span(a + m + b) == Span(a) + Span(m) + Span(b)
  {
    SpanConcat(a + m, b);
    SpanConcat(a, m);
  }

  lemma MergeSpan(cells: seq<Cell>, i: nat)
    requires i + 1 < |cells|
    ensures Span(Merge(cells, i)) == Span(cells)
  {
    hide Span;
    var a, b := cells[..i], cells[i + 2..];
    var m := Cell(cells[i].size + HEADER + cells[i + 1].size, cells[i].free);
    assert cells == a + [cells[i], cells[i + 1]] + b;
    SpanThree(a, [cells[i], cells[i + 1]], b);
    SpanThree(a, [m], b);
    SpanPair(cells[i], cells[i + 1]);
    SpanOne(m);
  }

  lemma SpanOne(x: Cell)
    ensures Span([x]) == HEADER + x.size
  {
    assert [x][..0] == [];
  }

  lemma SpanPair(x: Cell, y: Cell)
    ensures Span([x, y]) == HEADER + x.size + HEADER + y.size
  {
    assert [x, y] == [x] + [y];
    SpanConcat([x], [y]);
    SpanOne(x);
    SpanOne(y);
  }

  lemma SetSpan(cells: seq<Cell>, i: nat, free: bool)
    requires i < |cells|
    ensures Span(cells[i := Cell(cells[i].size, free)]) == Span(cells)
  {
    hide Span;
    var c := Cell(cells[i].size, free);
    assert cells == cells[..i] + [cells[i]] + cells[i + 1..];
    assert cells[i := c] == cells[..i] + [c] + cells[i + 1..];
    SpanThree(cells[..i], [cells[i]], cells[i + 1..]);
    SpanThree(cells[..i], [c], cells[i + 1..]);
    SpanOne(c);
    SpanOne(cells[i]);
  }

  lemma TakeSpan(cells: seq<Cell>, i: nat, size: nat)
    requires i < |cells| && cells[i].size >= size
    ensures Span(Take(cells, i, size)) == Span(cells)
  {
    hide Span;
    SetSpan(cells, i, false);
    if cells[i].size >= size + HEADER + 16 {
      var t := Take(cells, i, size);
      MergeSpan(t, i);
      assert Merge(t, i) == cells[i := Cell(cells[i].size, false)];
    }
  }

  lemma FreeSpan(s: State, i: nat, named: nat)
    requires i < |s.cells| && named < |FreeAndMergeNext(s.cells, i)|
    ensures Span(Free(s, i, named).cells) == Span(s.cells)
  {
    hide Span;
    SetSpan(s.cells, i, true);
    var c := s.cells[i := Cell(s.cells[i].size, true)];
    if i + 1 < |s.cells| && s.cells[i + 1].free { MergeSpan(c, i); }
    var d := FreeAndMergeNext(s.cells, i);
    if i > 0 { MergeSpan(d, i - 1); }
  }

  // ---------------------------------------------------------------- live allocations

  /** The live allocations of a run of blocks that starts at `base`: payload address and size. */
  function LiveFrom(cells: seq<Cell>, base: nat): set<(nat, nat)>
    decreases |cells|
  {
    if cells == [] then {}
    else
      (if cells[0].free then {} else {(base + HEADER, cells[0].size)})
      + LiveFrom(cells[1..], base + HEADER + cells[0].size)
  }

  function Live(cells: seq<Cell>): set<(nat, nat)> {
    LiveFrom(cells, HEAP_START)
  }

  lemma SpanFront(cells: seq<Cell>)
    requires cells != []
    ensures Span(cells) == HEADER + cells[0].size + Span(cells[1..])
  {
    assert cells == [cells[0]] + cells[1..];
    SpanConcat([cells[0]], cells[1..]);
    SpanOne(cells[0]);
  }

  lemma {:induction false} LiveConcat(a: seq<Cell>, b: seq<Cell>, base: nat)
    ensures LiveFrom(a + b, base) == LiveFrom(a, base) + LiveFrom(b, base + Span(a))
    decreases |a|
  {
    if a == [] {
      assert a + b == b;
    } else {
      assert (a + b)[1..] == a[1..] + b;
      LiveConcat(a[1..], b, base + HEADER + a[0].size);
      SpanFront(a);
    }
  }

  lemma LiveThree(a: seq<Cell>, m: seq<Cell>, b: seq<Cell>, base: nat)
    ensures LiveFrom(a + m + b, base)
         == LiveFrom(a, base) + LiveFrom(m, base + Span(a)) + LiveFrom(b, base + Span(a) + Span(m))
  {
    hide LiveFrom, Span;
    LiveConcat(a + m, b, base);
    LiveConcat(a, m, base);
    SpanConcat(a, m);
  }

  lemma LiveOne(c: Cell, base: nat)
    ensures LiveFrom([c], base) == if c.free then {} else {(base + HEADER, c.size)}
  {
    assert [c][1..] == [];
  }

  lemma LivePair(c: Cell, d: Cell, base: nat)
    ensures LiveFrom([c, d], base) == LiveFrom([c], base) + LiveFrom([d], base + HEADER + c.size)
  {
    assert [c, d] == [c] + [d];
    LiveConcat([c], [d], base);
    SpanOne(c);
  }

  /** A live allocation lies inside the run, behind its header. */
  lemma {:induction false} LiveBounds(cells: seq<Cell>, base: nat, x: (nat, nat))
    requires x in LiveFrom(cells, base)
    ensures base + HEADER <= x.0 && x.0 + x.1 <= base + Span(cells)
    decreases |cells|
  {
    SpanFront(cells);
    if x in LiveFrom(cells[1..], base + HEADER + cells[0].size) {
      LiveBounds(cells[1..], base + HEADER + cells[0].size, x);
    }
  }

  /** Live allocations never overlap; between two of them there is room for a header. */
  lemma {:induction false} LiveDisjoint(cells: seq<Cell>, base: nat, x: (nat, nat), y: (nat, nat))
    requires x in LiveFrom(cells, base) && y in LiveFrom(cells, base) && x != y
    ensures x.0 + x.1 + HEADER <= y.0 || y.0 + y.1 + HEADER <= x.0
    decreases |cells|
  {
    var rest, b := cells[1..], base + HEADER + cells[0].size;
    if x in LiveFrom(rest, b) { LiveBounds(rest, b, x); }
    if y in LiveFrom(rest, b) { LiveBounds(rest, b, y); }
    if x in LiveFrom(rest, b) && y in LiveFrom(rest, b) { LiveDisjoint(rest, b, x, y); }
  }

  /** Replacing the middle of the arena by a run of the same length leaves the other allocations alone. */
  lemma LiveReplaced(a: seq<Cell>, m: seq<Cell>, m': seq<Cell>, b: seq<Cell>)
    requires Span(m) == Span(m')
    ensures var base := HEAP_START + Span(a);
      Live(a + m' + b) == Live(a + m + b) - LiveFrom(m, base) + LiveFrom(m', base)
  {
    hide LiveFrom, Span;
    var base := HEAP_START + Span(a);
    LiveThree(a, m, b, HEAP_START);
    LiveThree(a, m', b, HEAP_START);
    forall x | x in LiveFrom(m, base) ensures x !in LiveFrom(a, HEAP_START) && x !in LiveFrom(b, base + Span(m)) {
      LiveBounds(m, base, x);
      if x in LiveFrom(a, HEAP_START) { LiveBounds(a, HEAP_START, x); }
      if x in LiveFrom(b, base + Span(m)) { LiveBounds(b, base + Span(m), x); }
    }
  }

  /** Taking a free block adds exactly that allocation. */
  lemma TakeLive(cells: seq<Cell>, i: nat, size: nat)
    requires i < |cells| && Fits(cells[i], size)
    ensures Take(cells, i, size)[i].size >= size && |Take(cells, i, size)| > i
    ensures Live(Take(cells, i, size)) == Live(cells) + {(Addr(cells, i) + HEADER, Take(cells, i, size)[i].size)}
  {
    hide LiveFrom, Span;
    var a, b, base := cells[..i], cells[i + 1..], Addr(cells, i);
    var t := Take(cells, i, size);
    assert cells == a + [cells[i]] + b;
    LiveOne(cells[i], base);
    if cells[i].size >= size + HEADER + 16 {
      var c, d := Cell(size, false), Cell(cells[i].size - size - HEADER, true);
      SpanOne(cells[i]);
      SpanPair(c, d);
      LiveReplaced(a, [cells[i]], [c, d], b);
      LivePair(c, d, base);
      LiveOne(c, base);
      LiveOne(d, base + HEADER + size);
    } else {
      var c := Cell(cells[i].size, false);
      SpanOne(cells[i]);
      SpanOne(c);
      assert t == a + [c] + b;
      LiveReplaced(a, [cells[i]], [c], b);
      LiveOne(c, base);
    }
  }

  lemma MergeLive(cells: seq<Cell>, i: nat)
    requires i + 1 < |cells| && cells[i].free && cells[i + 1].free
    ensures Live(Merge(cells, i)) == Live(cells)
  {
    hide LiveFrom, Span;
    var a, b, base := cells[..i], cells[i + 2..], Addr(cells, i);
    var c, d := cells[i], cells[i + 1];
    var m := Cell(c.size + HEADER + d.size, true);
    assert cells == a + [c, d] + b;
    SpanOne(m);
    SpanPair(c, d);
    LiveReplaced(a, [c, d], [m], b);
    LivePair(c, d, base);
    LiveOne(c, base);
    LiveOne(d, base + HEADER + c.size);
    LiveOne(m, base);
  }

  lemma UnsetLive(cells: seq<Cell>, i: nat)
    requires i < |cells| && !cells[i].free
    ensures Live(cells[i := Cell(cells[i].size, true)]) == Live(cells) - {(Addr(cells, i) + HEADER, cells[i].size)}
  {
    hide LiveFrom, Span;
    var a, b, base := cells[..i], cells[i + 1..], Addr(cells, i);
    var c := Cell(cells[i].size, true);
    assert cells == a + [cells[i]] + b && cells[i := c] == a + [c] + b;
    SpanOne(c);
    SpanOne(cells[i]);
    LiveReplaced(a, [cells[i]], [c], b);
    LiveOne(c, base);
    LiveOne(cells[i], base);
  }

  /** Freeing a live block removes exactly that allocation, whatever block the footer names. */
  lemma FreeLive(s: State, i: nat, named: nat)
    requires i < |s.cells| && named < |FreeAndMergeNext(s.cells, i)| && !s.cells[i].free
    ensures Live(Free(s, i, named).cells) == Live(s.cells) - {(Addr(s.cells, i) + HEADER, s.cells[i].size)}
  {
    hide LiveFrom, Span;
    UnsetLive(s.cells, i);
    var c := s.cells[i := Cell(s.cells[i].size, true)];
    if i + 1 < |s.cells| && s.cells[i + 1].free { MergeLive(c, i); }
    var d := FreeAndMergeNext(s.cells, i);
    if i > 0 && d[i - 1].free { MergeLive(d, i - 1); }
  }

  // ---------------------------------------------------------------- runs

  /** The first block that fits, in circular order from the cursor, not before the `d`-th. */
  function FirstFit(s: State, size: nat, d: nat): (r: Option<nat>)
    requires s.cur < |s.cells| && d <= |s.cells|
    ensures r.Some? ==> r.value < |s.cells| && Fits(s.cells[r.value], size)
    ensures r.None? ==> forall e :: d <= e < |s.cells| ==> !Fits(s.cells[Circular(s, e)], size)
    decreases |s.cells| - d
  {
    if d == |s.cells| then None
    else if Fits(s.cells[Circular(s, d)], size) then Some(Circular(s, d))
    else FirstFit(s, size, d + 1)
  }

  /** A failed search has seen every block. */
  lemma NoFit(s: State, size: nat)
    requires s.cur < |s.cells| && FirstFit(s, size, 0).None?
    ensures forall i :: 0 <= i < |s.cells| ==> !Fits(s.cells[i], size)
  {
    forall i | 0 <= i < |s.cells| ensures !Fits(s.cells[i], size) {
      var d := if i >= s.cur then i - s.cur else i + |s.cells| - s.cur;
      assert Circular(s, d) == i;
    }
  }

  /** Next fit: no block from the cursor up to the one taken, around the end of the list, is large enough. */
  lemma FirstFitIsFirst(s: State, size: nat)
    requires s.cur < |s.cells| && FirstFit(s, size, 0).Some?
    ensures var i := FirstFit(s, size, 0).value;
      && i < |s.cells| && Fits(s.cells[i], size)
      && forall j :: 0 <= j < |s.cells| && (if s.cur <= i then s.cur <= j < i else j < i || s.cur <= j) ==>
           !Fits(s.cells[j], size)
  {
    hide FirstFit;
    var e := FirstFitAt(s, size, 0);
    var i := FirstFit(s, size, 0).value;
    forall j | 0 <= j < |s.cells| && (if s.cur <= i then s.cur <= j < i else j < i || s.cur <= j)
      ensures !Fits(s.cells[j], size)
    {
      var k := if s.cur <= j then j - s.cur else j + |s.cells| - s.cur;
      assert Circular(s, k) == j;
    }
  }

  lemma {:induction false} FirstFitAt(s: State, size: nat, d: nat) returns (e: nat)
    requires s.cur < |s.cells| && d <= |s.cells| && FirstFit(s, size, d).Some?
    ensures d <= e < |s.cells| && FirstFit(s, size, d).value == Circular(s, e) && Fits(s.cells[Circular(s, e)], size)
    ensures forall k :: d <= k < e ==> !Fits(s.cells[Circular(s, k)], size)
    decreases |s.cells| - d
  {
    if Fits(s.cells[Circular(s, d)], size) {
      e := d;
    } else {
      e := FirstFitAt(s, size, d + 1);
    }
  }

  function Malloc(s: State, size: nat): State
    requires s.cur < |s.cells|
  {
    match FirstFit(s, Align(size), 0)
    case None => s
    case Some(i) => State(Take(s.cells, i, Align(size)), i)
  }

  /** One call: an allocation, or the release of live block `i` while the footer before it names
      block `named`. */
  datatype Op = Allocate(size: nat) | Release(i: nat, named: nat)

  ghost predicate CanStep(s: State, op: Op) {
    op.Release? ==> op.i < |s.cells| && !s.cells[op.i].free && op.named < |FreeAndMergeNext(s.cells, op.i)|
  }

  /** The footer before the released block holds the size of the block it belongs to. */
  ghost predicate Honest(op: Op) {
    op.Release? && op.i > 0 ==> op.named == op.i - 1
  }

  function Step(s: State, op: Op): State
    requires s.cur < |s.cells| && CanStep(s, op)
  {
    match op
    case Allocate(size) => Malloc(s, size)
    case Release(i, named) => Free(s, i, named)
  }

  /** Sizes are multiples of 16. */
  ghost predicate Sixteens(cells: seq<Cell>) {
    forall k :: 0 <= k < |cells| ==> cells[k].size % 16 == 0
  }

  /** What every call keeps: the blocks tile the arena, sizes are multiples of 16, and the cursor
      is on a block. */
  ghost predicate Sound(s: State) {
    Tiles(s.cells) && s.cur < |s.cells| && Sixteens(s.cells)
  }

  lemma MergeSixteens(cells: seq<Cell>, i: nat)
    requires i + 1 < |cells| && Sixteens(cells)
    ensures Sixteens(Merge(cells, i)) && |Merge(cells, i)| == |cells| - 1
  {
    hide Merge;
    var m := Merge(cells, i);
    MergeAt(cells, i, 0);
    forall k | 0 <= k < |m| ensures m[k].size % 16 == 0 {
      MergeAt(cells, i, k);
      SumSixteens(cells[i].size, cells[i + 1].size);
    }
  }

  lemma SumSixteens(a: nat, b: nat)
    requires a % 16 == 0 && b % 16 == 0
    ensures (a + HEADER + b) % 16 == 0
  {
  }

  lemma MergeAt(cells: seq<Cell>, i: nat, k: nat)
    requires i + 1 < |cells| && k < |cells| - 1
    ensures |Merge(cells, i)| == |cells| - 1
    ensures k == i ==> Merge(cells, i)[k].size == cells[i].size + HEADER + cells[i + 1].size
    ensures k != i ==> Merge(cells, i)[k] == cells[if k < i then k else k + 1]
  {
  }

  lemma TakeSixteens(cells: seq<Cell>, i: nat, size: nat)
    requires i < |cells| && cells[i].size >= size && size % 16 == 0 && Sixteens(cells)
    ensures Sixteens(Take(cells, i, size)) && |Take(cells, i, size)| >= |cells|
  {
    var t := Take(cells, i, size);
    if cells[i].size >= size + HEADER + 16 {
      forall k | 0 <= k < |t| ensures t[k].size % 16 == 0 {
        if k > i + 1 { assert t[k] == cells[k - 1]; } else if k < i { assert t[k] == cells[k]; }
      }
    }
  }

  lemma FreeSixteens(s: State, i: nat, named: nat)
    requires i < |s.cells| && named < |FreeAndMergeNext(s.cells, i)| && Sixteens(s.cells) && s.cur < |s.cells|
    ensures Sixteens(Free(s, i, named).cells) && Free(s, i, named).cur < |Free(s, i, named).cells|
  {
    hide Merge;
    var c := s.cells[i := Cell(s.cells[i].size, true)];
    if i + 1 < |s.cells| { MergeSixteens(c, i); }
    var d := FreeAndMergeNext(s.cells, i);
    if i > 0 { MergeSixteens(d, i - 1); }
  }

  /** No two neighbouring blocks are both free. */
  ghost predicate Coalesced(cells: seq<Cell>) {
    forall k :: 0 <= k && k + 1 < |cells| ==> !(cells[k].free && cells[k + 1].free)
  }

  lemma StepSound(s: State, op: Op)
    requires Sound(s) && CanStep(s, op)
    ensures Sound(Step(s, op))
  {
    hide Span, Take, Free, Align, FreeAndMergeNext, Sixteens;
    match op
    case Allocate(size) =>
      var f := FirstFit(s, Align(size), 0);
      AlignMultiple(size);
      if f.Some? {
        TakeSpan(s.cells, f.value, Align(size));
        TakeSixteens(s.cells, f.value, Align(size));
      }
    case Release(i, named) =>
      FreeSpan(s, i, named);
      FreeSixteens(s, i, named);
  }

  lemma StepCoalesced(s: State, op: Op)
    requires Sound(s) && CanStep(s, op) && Coalesced(s.cells) && Honest(op)
    ensures Coalesced(Step(s, op).cells)
  {
    hide Span;
    match op
    case Allocate(size) =>
      var f := FirstFit(s, Align(size), 0);
      if f.Some? { TakeCoalesced(s.cells, f.value, Align(size)); }
    case Release(i, named) => FreeCoalesced(s, i, named);
  }

  lemma TakeCoalesced(cells: seq<Cell>, i: nat, size: nat)
    requires i < |cells| && Fits(cells[i], size) && Coalesced(cells)
    ensures Coalesced(Take(cells, i, size))
  {
    var t := Take(cells, i, size);
    if cells[i].size >= size + HEADER + 16 {
      assert forall k :: i + 2 <= k < |t| ==> t[k] == cells[k - 1];
      assert forall k :: 0 <= k < i ==> t[k] == cells[k];
      if i + 1 < |cells| { assert !cells[i + 1].free; }
    }
  }

  /** After the merge with the next block only the pair at `i - 1` can be both free. */
  lemma NextCoalesced(cells: seq<Cell>, i: nat, k: nat)
    requires i < |cells| && Coalesced(cells)
    requires k + 1 < |FreeAndMergeNext(cells, i)| && k + 1 != i
    ensures var c := FreeAndMergeNext(cells, i); !(c[k].free && c[k + 1].free)
  {
    var c := FreeAndMergeNext(cells, i);
    if i + 1 < |cells| && cells[i + 1].free {
      if k >= i { assert c[k + 1] == cells[k + 2] && !(cells[k + 1].free && cells[k + 1 + 1].free); }
      if k > i { assert c[k] == cells[k + 1]; }
      if k + 1 < i { assert !(cells[k].free && cells[k + 1].free); }
    } else {
      assert !(cells[k].free && cells[k + 1].free);
    }
  }

  lemma FreeCoalesced(s: State, i: nat, named: nat)
    requires i < |s.cells| && named < |FreeAndMergeNext(s.cells, i)| && Coalesced(s.cells)
    requires i > 0 ==> named == i - 1
    ensures Coalesced(Free(s, i, named).cells)
  {
    var c := FreeAndMergeNext(s.cells, i);
    forall k: nat | k + 1 < |c| && k + 1 != i ensures !(c[k].free && c[k + 1].free) {
      NextCoalesced(s.cells, i, k);
    }
    hide FreeAndMergeNext;
    var d := Free(s, i, named).cells;
    if i > 0 && c[i - 1].free {
      assert d == Merge(c, i - 1);
      forall k: nat | k + 1 < |d| ensures !(d[k].free && d[k + 1].free) {
        if k + 1 < i - 1 || k + 1 == i - 1 { assert !(c[k].free && c[k + 1].free); }
        else { assert !(c[k + 1].free && c[k + 1 + 1].free); }
      }
    }
  }

  /** What a footer decides: in a heap without free neighbours, the release of a live block leaves
      none exactly when the block before it is not free, or the footer names a free block other than
      the released one. */
  lemma FooterDecides(s: State, i: nat, named: nat)
    requires Coalesced(s.cells) && i < |s.cells| && !s.cells[i].free && named < |FreeAndMergeNext(s.cells, i)|
    ensures Coalesced(Free(s, i, named).cells) <==>
      i == 0 || !s.cells[i - 1].free || (named != i && FreeAndMergeNext(s.cells, i)[named].free)
  {
    var c := FreeAndMergeNext(s.cells, i);
    var honest := if i == 0 then 0 else i - 1;
    FreeCoalesced(s, i, honest);
    if i > 0 {
      assert c[i - 1] == s.cells[i - 1];
      if c[i - 1].free && !(named != i && c[named].free) {
        var k := i - 1;
        assert c[k].free && c[k + 1].free;
      }
    }
  }

  /** The only free block is the last one, and it is taken next. */
  lemma LastTaken(live: seq<Cell>, n: nat, cur: nat)
    requires n >= 64 && cur <= |live| && forall k :: 0 <= k < |live| ==> !live[k].free
    ensures Malloc(State(live + [Cell(n, true)], cur), 16)
         == State(live + [Cell(16, false), Cell(n - 48, true)], |live|)
  {
    var s := State(live + [Cell(n, true)], cur);
    assert Align(16) == 16;
    var f := FirstFit(s, 16, 0);
    assert Fits(s.cells[|live|], 16);
    if f.None? { NoFit(s, 16); }
    assert f == Some(|live|);
    assert s.cells[..|live|] == live && s.cells[|live| + 1..] == [];
  }

  const Bad: seq<Op> := [Allocate(16), Allocate(16), Allocate(16), Release(0, 0), Release(1, 2)]

  const Small := Cell(16, false)
  const Spent := Cell(16, true)

  /** The states of that run; `n` is the size of the whole arena as one block. */
  function BadStates(n: nat): seq<State>
    requires n >= 144
  {
    [State([Cell(n, true)], 0),
     State([Small, Cell(n - 48, true)], 0),
     State([Small, Small, Cell(n - 96, true)], 1),
     State([Small, Small, Small, Cell(n - 144, true)], 2),
     State([Spent, Small, Small, Cell(n - 144, true)], 0),
     State([Spent, Spent, Small, Cell(n - 144, true)], 0)]
  }

  /** A run with one overwritten footer that ends with two free neighbours: of three blocks the first
      is released, then the second while the footer before it names the third, which is live. */
  lemma BadRun(n: nat)
    requires n == HEAP_SIZE - HEADER
    ensures IsRun(BadStates(n), Bad) && Sound(BadStates(n)[5]) && !Coalesced(BadStates(n)[5].cells)
  {
    hide Malloc;
    LastTaken([], n, 0);
    LastTaken([Small], n - 48, 0);
    LastTaken([Small, Small], n - 96, 1);
    assert [] + [Cell(n, true)] == [Cell(n, true)];
    var s := BadStates(n);
    assert [] + [Small, Cell(n - 48, true)] == s[1].cells && [Small] + [Cell(n - 48, true)] == s[1].cells;
    assert [Small] + [Small, Cell(n - 96, true)] == s[2].cells;
    assert [Small, Small] + [Cell(n - 96, true)] == s[2].cells;
    assert [Small, Small] + [Small, Cell(n - 144, true)] == s[3].cells;
    assert s[4] == Free(s[3], 0, 0) by { assert FreeAndMergeNext(s[3].cells, 0) == s[4].cells; }
    assert s[5] == Free(s[4], 1, 2) by { assert FreeAndMergeNext(s[4].cells, 1) == s[5].cells; }
    RunSound(s, Bad, 5);
    assert s[5].cells[0].free && s[5].cells[0 + 1].free;
  }

  /** A run of calls from boot, with the state before each. */
  ghost predicate IsRun(trace: seq<State>, ops: seq<Op>) {
    && |trace| == |ops| + 1 && trace[0] == Initial
    && forall k :: 0 <= k < |ops| ==> RunStep(trace[k], ops[k], trace[k + 1])
  }

  /** One call of a run. `Step` is defined while the cursor is on a block; `RunSound` shows that it
      always is. */
  ghost predicate RunStep(s: State, op: Op, s': State) {
    s.cur < |s.cells| ==> CanStep(s, op) && s' == Step(s, op)
  }

  /** In every state of every run the blocks tile the arena in address order and the cursor is on
      one of them, whatever the footers say. */
  lemma {:induction false} RunSound(trace: seq<State>, ops: seq<Op>, k: nat)
    requires IsRun(trace, ops) && k <= |ops|
    ensures Sound(trace[k])
    decreases k
  {
    if k == 0 {
      SpanOne(Initial.cells[0]);
    } else {
      RunSound(trace, ops, k - 1);
      assert RunStep(trace[k - 1], ops[k - 1], trace[k]);
      StepSound(trace[k - 1], ops[k - 1]);
    }
  }

  /** In every run with honest footers no two neighbours are both free. */
  lemma {:induction false} RunCoalesced(trace: seq<State>, ops: seq<Op>, k: nat)
    requires IsRun(trace, ops) && k <= |ops| && forall j :: 0 <= j < k ==> Honest(ops[j])
    ensures Coalesced(trace[k].cells)
    decreases k
  {
    if k > 0 {
      RunCoalesced(trace, ops, k - 1);
      RunSound(trace, ops, k - 1);
      assert RunStep(trace[k - 1], ops[k - 1], trace[k]);
      StepCoalesced(trace[k - 1], ops[k - 1]);
    }
  }

  lemma {:induction false} AllFree(cells: seq<Cell>, base: nat, k: nat)
    requires LiveFrom(cells, base) == {} && k < |cells|
    ensures cells[k].free
    decreases k
  {
    var x := (base + HEADER, cells[0].size);
    assert !cells[0].free ==> x in LiveFrom(cells, base);
    if k > 0 {
      AllFree(cells[1..], base + HEADER + cells[0].size, k - 1);
    }
  }

  /** When everything has been freed, a heap with honest footers is back in its initial state. */
  lemma RunRestores(trace: seq<State>, ops: seq<Op>, k: nat)
    requires IsRun(trace, ops) && k <= |ops| && forall j :: 0 <= j < k ==> Honest(ops[j])
    requires Live(trace[k].cells) == {}
    ensures trace[k] == Initial
  {
    hide Span, LiveFrom;
    RunSound(trace, ops, k);
    RunCoalesced(trace, ops, k);
    var c := trace[k].cells;
    AllFree(c, HEAP_START, 0);
    assert |c| > 1 ==> !(c[0].free && c[0 + 1].free);
    if |c| > 1 { AllFree(c, HEAP_START, 1); }
    assert c == [c[0]];
    SpanOne(c[0]);
  }

  /** Each call changes the live allocations by at most one: an allocation adds one of at least the
      aligned size that overlaps no other, a release removes the released one. */
  lemma StepLive(s: State, op: Op)
    requires Sound(s) && CanStep(s, op)
    ensures op.Release? ==>
      Live(Step(s, op).cells) == Live(s.cells) - {(Addr(s.cells, op.i) + HEADER, s.cells[op.i].size)}
    ensures op.Allocate? && FirstFit(s, Align(op.size), 0).None? ==> Step(s, op) == s
    ensures op.Allocate? && FirstFit(s, Align(op.size), 0).Some? ==>
      var i := FirstFit(s, Align(op.size), 0).value;
      var x := (Addr(s.cells, i) + HEADER, Step(s, op).cells[i].size);
      && x.1 >= Align(op.size) && x.0 % 16 == 0 && x !in Live(s.cells)
      && HEAP_START + HEADER <= x.0 && x.0 + x.1 <= HEAP_START + HEAP_SIZE
      && Live(Step(s, op).cells) == Live(s.cells) + {x}
      && forall y :: y in Live(s.cells) ==> x.0 + x.1 + HEADER <= y.0 || y.0 + y.1 + HEADER <= x.0
  {
    hide Span, LiveFrom, Addr;
    match op
    case Release(i, named) => FreeLive(s, i, named);
    case Allocate(size) =>
      var f := FirstFit(s, Align(size), 0);
      if f.Some? { TakeApart(s, f.value, Align(size)); }
  }

  lemma TakeApart(s: State, i: nat, size: nat)
    requires Sound(s) && i < |s.cells| && Fits(s.cells[i], size) && size % 16 == 0
    ensures var t := Take(s.cells, i, size); var x := (Addr(s.cells, i) + HEADER, t[i].size);
      && x.1 >= size && x.0 % 16 == 0 && x !in Live(s.cells)
      && HEAP_START + HEADER <= x.0 && x.0 + x.1 <= HEAP_START + HEAP_SIZE
      && Live(t) == Live(s.cells) + {x}
      && forall y :: y in Live(s.cells) ==> x.0 + x.1 + HEADER <= y.0 || y.0 + y.1 + HEADER <= x.0
  {
    hide Span, LiveFrom;
    TakeLive(s.cells, i, size);
    TakeSpan(s.cells, i, size);
    var t := Take(s.cells, i, size);
    var x := (Addr(s.cells, i) + HEADER, t[i].size);
    LiveBounds(t, HEAP_START, x);
    NotLive(s.cells, i, t[i].size);
    AddrAligned(s.cells, i);
    forall y | y in Live(s.cells) ensures x.0 + x.1 + HEADER <= y.0 || y.0 + y.1 + HEADER <= x.0 {
      LiveDisjoint(t, HEAP_START, x, y);
    }
  }

  lemma {:induction false} AddrAligned(cells: seq<Cell>, k: nat)
    requires k <= |cells| && forall j :: 0 <= j < |cells| ==> cells[j].size % 16 == 0
    ensures Addr(cells, k) % 16 == 0
  {
    if k > 0 {
      AddrAligned(cells, k - 1);
      AddrNext(cells, k - 1);
    } else {
      assert Span(cells[..0]) == 0;
    }
  }

  /** No live allocation starts at a free block. */
  lemma NotLive(cells: seq<Cell>, i: nat, n: nat)
    requires i < |cells| && cells[i].free
    ensures (Addr(cells, i) + HEADER, n) !in Live(cells)
  {
    hide Span, LiveFrom;
    var a, b, base := cells[..i], cells[i + 1..], Addr(cells, i);
    assert cells == a + [cells[i]] + b;
    LiveThree(a, [cells[i]], b, HEAP_START);
    LiveOne(cells[i], base);
    SpanOne(cells[i]);
    var x := (base + HEADER, n);
    if x in LiveFrom(a, HEAP_START) { LiveBounds(a, HEAP_START, x); }
    if x in LiveFrom(b, base + HEADER + cells[i].size) { LiveBounds(b, base + HEADER + cells[i].size, x); }
  }

  /** Alignment never loses bytes unless the 64-bit addition wraps around. */
  lemma AlignCovers(size: nat)
    requires size < WORD
    ensures Align(size) >= size <==> size <= WORD - 16
    ensures size > WORD - 16 ==> Align(size) == 0
    ensures Align(size) % 16 == 0
  {
  }

  /** What an allocation leaves: the block taken is live and the cursor is on it; unless what is left over
      has room for a header and 16 bytes, the block keeps its size, and otherwise the rest is a free block
      behind it. All other blocks stay. */
  lemma MallocExact(s: State, size: nat)
    requires Sound(s) && FirstFit(s, Align(size), 0).Some?
    ensures var i, n, t := FirstFit(s, Align(size), 0).value, Align(size), Malloc(s, size);
      && t.cur == i < |t.cells| && t.cells[..i] == s.cells[..i]
      && (s.cells[i].size < n + HEADER + 16 ==>
            t.cells[i] == Cell(s.cells[i].size, false) && t.cells[i + 1..] == s.cells[i + 1..])
      && (s.cells[i].size >= n + HEADER + 16 ==>
            && t.cells[i] == Cell(n, false)
            && t.cells[i + 1..] == [Cell(s.cells[i].size - n - HEADER, true)] + s.cells[i + 1..])
  {
    hide FirstFit, Align;
    FirstFitIsFirst(s, Align(size));
  }

  /** The cursor after a release, as an address: that of the released block if it was behind it, and the
      start of the joined block if that swallowed the one the cursor was on. */
  lemma FreeCursor(s: State, i: nat, named: nat)
    requires s.cur < |s.cells| && i < |s.cells| && named < |FreeAndMergeNext(s.cells, i)|
    ensures var t := Free(s, i, named);
      && t.cur < |t.cells|
      && var a := if i < s.cur then Addr(s.cells, i) else Addr(s.cells, s.cur);
         var joined := i > 0 && named != i && FreeAndMergeNext(s.cells, i)[named].free && s.cells[i - 1].free;
         Addr(t.cells, t.cur) == if joined && a == Addr(s.cells, i) then Addr(s.cells, i - 1) else a
  {
    hide Span, Addr;
    var c, cur := FreeAndMergeNext(s.cells, i), if i < s.cur then i else s.cur;
    SetAddr(s.cells, i, true, cur);
    var d := s.cells[i := Cell(s.cells[i].size, true)];
    if i + 1 < |s.cells| && s.cells[i + 1].free { MergeAddr(d, i, cur); }
    assert Addr(c, cur) == Addr(s.cells, cur);
    if cur < i { AddrApart(s.cells, cur, i); }
    if i > 0 {
      MergeAddr(c, i - 1, if cur == i then i - 1 else cur);
      SamePrefix(s.cells, c, i - 1);
    }
  }

  // ---------------------------------------------------------------- headers and footers in memory

  datatype Header = Header(size: nat, free: bool, next: nat)

  /** The link of block `k`: the next block's address, or null. */
  function NextPtr(cells: seq<Cell>, k: nat): nat
    requires k < |cells|
  {
    if k + 1 < |cells| then Addr(cells, k + 1) else 0
  }

  ghost predicate Linked(hdr: map<nat, Header>, cells: seq<Cell>, k: nat)
    requires k < |cells|
  {
    Addr(cells, k) in hdr && hdr[Addr(cells, k)] == Header(cells[k].size, cells[k].free, NextPtr(cells, k))
  }

  /** The headers in memory are those of the blocks, linked in address order. */
  ghost predicate Links(hdr: map<nat, Header>, cells: seq<Cell>) {
    forall k :: 0 <= k < |cells| ==> Linked(hdr, cells, k)
  }

  ghost predicate Foot(foot: map<nat, nat>, cells: seq<Cell>, k: nat)
    requires k < |cells|
  {
    var a := Addr(cells, k) + HEADER + cells[k].size - 8;
    a in foot && foot[a] == cells[k].size
  }

  /** Every footer holds its block's size. */
  ghost predicate Feet(foot: map<nat, nat>, cells: seq<Cell>) {
    forall k :: 0 <= k < |cells| ==> Foot(foot, cells, k)
  }

  lemma SetAddr(cells: seq<Cell>, i: nat, free: bool, k: nat)
    requires i < |cells| && k <= |cells|
    ensures Addr(cells[i := Cell(cells[i].size, free)], k) == Addr(cells, k)
  {
    hide Span;
    var c := cells[i := Cell(cells[i].size, free)];
    if k <= i {
      assert c[..k] == cells[..k];
    } else {
      assert c[..k] == cells[..k][i := Cell(cells[..k][i].size, free)];
      SetSpan(cells[..k], i, free);
    }
  }

  lemma MergeAddr(cells: seq<Cell>, i: nat, k: nat)
    requires i + 1 < |cells| && k < |cells|
    ensures Addr(Merge(cells, i), k) == if k <= i then Addr(cells, k) else Addr(cells, k + 1)
  {
    hide Span;
    var m := Merge(cells, i);
    if k <= i {
      assert m[..k] == cells[..k];
    } else {
      assert m[..k] == Merge(cells[..k + 1], i);
      MergeSpan(cells[..k + 1], i);
    }
  }

  lemma SetLinks(hdr: map<nat, Header>, cells: seq<Cell>, i: nat, free: bool)
    requires i < |cells| && Links(hdr, cells)
    ensures Links(hdr[Addr(cells, i) := Header(cells[i].size, free, NextPtr(cells, i))],
                  cells[i := Cell(cells[i].size, free)])
  {
    hide Span;
    var a := Addr(cells, i);
    assert Linked(hdr, cells, i);
    var hdr', c := hdr[a := Header(cells[i].size, free, NextPtr(cells, i))], cells[i := Cell(cells[i].size, free)];
    forall k | 0 <= k < |c| ensures Linked(hdr', c, k) {
      assert Linked(hdr, cells, k);
      SetAddr(cells, i, free, k);
      SetAddr(cells, i, free, k + 1);
      if k < i { AddrApart(cells, k, i); } else if i < k { AddrApart(cells, i, k); }
    }
  }

  lemma MergeLinks(hdr: map<nat, Header>, cells: seq<Cell>, i: nat)
    requires i + 1 < |cells| && Links(hdr, cells)
    ensures var n := cells[i].size + HEADER + cells[i + 1].size;
      Links(hdr[Addr(cells, i) := Header(n, cells[i].free, NextPtr(cells, i + 1))], Merge(cells, i))
  {
    hide Span;
    var m := Merge(cells, i);
    var n := cells[i].size + HEADER + cells[i + 1].size;
    var hdr' := hdr[Addr(cells, i) := Header(n, cells[i].free, NextPtr(cells, i + 1))];
    forall k | 0 <= k < |m| ensures Linked(hdr', m, k) {
      var j := if k <= i then k else k + 1;
      assert Linked(hdr, cells, j);
      MergeAddr(cells, i, k);
      MergeAddr(cells, i, k + 1);
      if k < i { AddrApart(cells, k, i); } else if i < k { AddrApart(cells, i, k + 1); }
    }
  }

  lemma MergeFeet(foot: map<nat, nat>, cells: seq<Cell>, i: nat)
    requires i + 1 < |cells| && Feet(foot, cells)
    ensures var n := cells[i].size + HEADER + cells[i + 1].size;
      Feet(foot[Addr(cells, i) + HEADER + n - 8 := n], Merge(cells, i))
  {
    hide Span;
    var m := Merge(cells, i);
    var n := cells[i].size + HEADER + cells[i + 1].size;
    var foot' := foot[Addr(cells, i) + HEADER + n - 8 := n];
    AddrNext(cells, i);
    forall k | 0 <= k < |m| ensures Foot(foot', m, k) {
      var j := if k <= i then k else k + 1;
      assert Foot(foot, cells, j);
      MergeAddr(cells, i, k);
      if k < i { AddrApart(cells, k, i + 1); } else if i < k { AddrApart(cells, i + 1, k + 1); }
    }
  }

  lemma SetFeet(foot: map<nat, nat>, cells: seq<Cell>, i: nat, free: bool)
    requires i < |cells| && Feet(foot, cells)
    ensures Feet(foot, cells[i := Cell(cells[i].size, free)])
  {
    hide Span;
    var c := cells[i := Cell(cells[i].size, free)];
    forall k | 0 <= k < |c| ensures Foot(foot, c, k) {
      assert Foot(foot, cells, k);
      SetAddr(cells, i, free, k);
    }
  }

  /** Splitting is the inverse of merging. */
  lemma SplitAddr(cells: seq<Cell>, i: nat, size: nat, k: nat)
    requires i < |cells| && cells[i].size >= size + HEADER + 16 && k <= |cells| + 1
    ensures Addr(Take(cells, i, size), k)
         == if k <= i then Addr(cells, k) else if k == i + 1 then Addr(cells, i) + HEADER + size else Addr(cells, k - 1)
  {
    hide Span;
    var t := Take(cells, i, size);
    assert Merge(t, i) == cells[i := Cell(cells[i].size, false)];
    if k <= i {
      assert t[..k] == cells[..k];
    } else if k == i + 1 {
      AddrNext(t, i);
      assert t[..i] == cells[..i];
    } else {
      MergeAddr(t, i, k - 1);
      SetAddr(cells, i, false, k - 1);
    }
  }

  lemma SplitLinks(hdr: map<nat, Header>, cells: seq<Cell>, i: nat, size: nat)
    requires i < |cells| && cells[i].size >= size + HEADER + 16 && Links(hdr, cells)
    ensures var a := Addr(cells, i);
      var b := a + HEADER + size;
      Links(hdr[b := Header(cells[i].size - size - HEADER, true, NextPtr(cells, i))][a := Header(size, false, b)],
            Take(cells, i, size))
  {
    hide Span;
    var a := Addr(cells, i);
    var b := a + HEADER + size;
    var t := Take(cells, i, size);
    var hdr' := hdr[b := Header(cells[i].size - size - HEADER, true, NextPtr(cells, i))][a := Header(size, false, b)];
    AddrNext(cells, i);
    forall k | 0 <= k < |t| ensures Linked(hdr', t, k) {
      SplitAddr(cells, i, size, k);
      SplitAddr(cells, i, size, k + 1);
      if k < i {
        assert Linked(hdr, cells, k);
        AddrApart(cells, k, i);
      } else if k > i + 1 {
        assert Linked(hdr, cells, k - 1);
        if k - 1 > i + 1 { AddrApart(cells, i + 1, k - 1); }
      }
    }
  }

  lemma SplitFeet(foot: map<nat, nat>, cells: seq<Cell>, i: nat, size: nat)
    requires i < |cells| && cells[i].size >= size + HEADER + 16 && Feet(foot, cells)
    ensures var a := Addr(cells, i);
      var rest := cells[i].size - size - HEADER;
      Feet(foot[a + HEADER + cells[i].size - 8 := rest][a + HEADER + size - 8 := size], Take(cells, i, size))
  {
    hide Span;
    var a := Addr(cells, i);
    var rest := cells[i].size - size - HEADER;
    var t := Take(cells, i, size);
    var foot' := foot[a + HEADER + cells[i].size - 8 := rest][a + HEADER + size - 8 := size];
    AddrNext(cells, i);
    forall k | 0 <= k < |t| ensures Foot(foot', t, k) {
      SplitAddr(cells, i, size, k);
      if k < i {
        assert Foot(foot, cells, k);
        AddrApart(cells, k, i);
      } else if k > i + 1 {
        assert Foot(foot, cells, k - 1);
        AddrApart(cells, i, k - 1);
      }
    }
  }

  /** Different blocks have different addresses. */
  lemma AddrInjective(cells: seq<Cell>, j: nat, k: nat)
    requires j < |cells| && k < |cells| && Addr(cells, j) == Addr(cells, k)
    ensures j == k
  {
    hide Span;
    if j < k { AddrApart(cells, j, k); }
    if k < j { AddrApart(cells, k, j); }
  }

  const FIELDS: nat := 24   // the bytes of a header that hold its fields; the rest is padding

  /** The eight bytes at `a` hold no field of the header of block `j`. */
  ghost predicate MissesHeader(cells: seq<Cell>, a: nat, j: nat)
    requires j < |cells|
  {
    a + 8 <= Addr(cells, j) || Addr(cells, j) + FIELDS <= a
  }

  /** No footer lies on a header field. The footer of an empty block lies in its header's padding. */
  lemma FooterMissesHeaders(cells: seq<Cell>, k: nat, j: nat)
    requires k < |cells| && j < |cells| && cells[k].size % 16 == 0
    ensures MissesHeader(cells, Addr(cells, k) + HEADER + cells[k].size - 8, j)
  {
    hide Span, Addr;
    if k < j { AddrApart(cells, k, j); } else if j < k { AddrApart(cells, j, k); }
  }

  /** A word of a block's payload lies on no header field and on no other block's footer. */
  lemma PayloadApart(cells: seq<Cell>, i: nat, a: nat, j: nat)
    requires i < |cells| && j < |cells| && Addr(cells, i) + HEADER <= a
    requires a + 8 <= Addr(cells, i) + HEADER + cells[i].size
    ensures MissesHeader(cells, a, j)
    ensures i != j ==> a != Addr(cells, j) + HEADER + cells[j].size - 8
  {
    hide Span, Addr;
    if i < j { AddrApart(cells, i, j); } else if j < i { AddrApart(cells, j, i); }
  }

  class KernelHeap {
    var hdr: map<nat, Header>    // block headers, by address
    var foot: map<nat, nat>      // the words in front of block boundaries
    var cursor: nat
    ghost var state: State

    ghost predicate Valid()
      reads this
    {
      Sound(state) && cursor == Addr(state.cells, state.cur) && Links(hdr, state.cells)
    }

    /** Clients have left the footers alone. */
    ghost predicate HonestFooters()
      reads this
    {
      Feet(foot, state.cells)
    }

    constructor ()
      ensures Valid() && HonestFooters() && state == Initial
    {
      var size := HEAP_SIZE - HEADER;
      hdr := map[HEAP_START := Header(size, true, 0)];
      foot := map[HEAP_START + HEADER + size - 8 := size];
      cursor := HEAP_START;
      state := Initial;
      SpanOne(Initial.cells[0]);
      assert Initial.cells[..0] == [];
    }

    /** A client writes a word of a block it owns. It hits no header field, so the list is as before;
        footers stay honest unless the word is the block's own footer and gets another value. */
    method Scribble(addr: nat, value: nat, ghost i: nat)
      requires Valid() && i < |state.cells| && !state.cells[i].free
      requires Addr(state.cells, i) + HEADER <= addr && addr + 8 <= Addr(state.cells, i) + HEADER + state.cells[i].size
      modifies this`foot
      ensures Valid() && foot == old(foot)[addr := value]
      ensures forall j :: 0 <= j < |state.cells| ==> MissesHeader(state.cells, addr, j)
      ensures old(HonestFooters()) ==>
        (HonestFooters() <==>
           addr != Addr(state.cells, i) + HEADER + state.cells[i].size - 8 || value == state.cells[i].size)
    {
      hide Span, Addr, MissesHeader;
      forall j | 0 <= j < |state.cells|
        ensures MissesHeader(state.cells, addr, j)
        ensures i != j ==> addr != Addr(state.cells, j) + HEADER + state.cells[j].size - 8
      {
        PayloadApart(state.cells, i, addr, j);
      }
      if HonestFooters() {
        assert forall j :: 0 <= j < |state.cells| ==> Foot(foot, state.cells, j);
      }
      foot := foot[addr := value];
      if old(HonestFooters()) {
        forall j | 0 <= j < |state.cells| && j != i ensures Foot(foot, state.cells, j) {
          assert Foot(old(foot), state.cells, j);
        }
        assert HonestFooters() ==> Foot(foot, state.cells, i);
        assert Foot(old(foot), state.cells, i);
      }
    }

    /** First fit from the cursor, around the list at most once; null exactly when no free block is
        large enough. The block holds the request exactly when rounding up the request does not wrap. */
    method Kmalloc(request: nat) returns (ptr: nat)
      requires Valid()
      modifies this
      ensures Valid() && state == Malloc(old(state), request)
      ensures ptr == 0 <==> forall i :: 0 <= i < |old(state).cells| ==> !Fits(old(state).cells[i], Align(request))
      ensures ptr != 0 ==>
        state.cur < |state.cells| && ptr == Addr(state.cells, state.cur) + HEADER && !state.cells[state.cur].free
      ensures ptr != 0 && request < WORD ==> (state.cells[state.cur].size >= request <==> request <= WORD - 16)
      ensures old(HonestFooters()) ==> HonestFooters()
    {
      hide Span, Addr, Links, Feet, Take, Align;
      var size := Align(request);
      AlignMultiple(request);
      if request < WORD { AlignCovers(request); }
      var curr := cursor;
      var start := curr;
      ghost var d := 0;
      while true
        invariant d < |state.cells| && state == old(state) && Valid() && curr == Addr(state.cells, Circular(state, d))
        invariant hdr == old(hdr) && foot == old(foot) && cursor == old(cursor)
        invariant FirstFit(state, size, 0) == FirstFit(state, size, d)
        decreases |state.cells| - d
      {
        ghost var i := Circular(state, d);
        LinkAt(hdr, state.cells, i);
        if hdr[curr].free && hdr[curr].size >= size {
          TakeBlock(curr, size, i);
          ptr := curr + HEADER;
          return;
        }
        curr := hdr[curr].next;
        if curr == 0 { curr := HEAP_START; }
        d := d + 1;
        FirstAddr(state.cells);
        if curr == start {
          if d < |state.cells| { AddrInjective(state.cells, Circular(state, d), state.cur); }
          NoFit(state, size);
          return 0;
        }
      }
    }

    /** Takes block `i` at address `curr`, splitting off what is left over. */
    method TakeBlock(curr: nat, size: nat, ghost i: nat)
      requires Valid() && i < |state.cells| && curr == Addr(state.cells, i) && curr in hdr && Fits(state.cells[i], size)
      requires size % 16 == 0
      modifies this
      ensures Valid() && state == State(Take(old(state).cells, i, size), i)
      ensures |state.cells| > i && curr == Addr(state.cells, i) && !state.cells[i].free
      ensures size <= state.cells[i].size < size + HEADER + 16
      ensures old(HonestFooters()) ==> HonestFooters()
    {
      hide Span, Addr, Links, Feet;
      LinkAt(hdr, state.cells, i);
      TakeSpan(state.cells, i, size);
      TakeSixteens(state.cells, i, size);
      if hdr[curr].size >= size + HEADER + 16 {
        SplitLinks(hdr, state.cells, i, size);
        if HonestFooters() { SplitFeet(foot, state.cells, i, size); }
        SplitAddr(state.cells, i, size, i);
        var b := curr + HEADER + size;
        var rest := hdr[curr].size - size - HEADER;
        hdr := hdr[b := Header(rest, true, hdr[curr].next)];
        foot := foot[b + HEADER + rest - 8 := rest];
        hdr := hdr[curr := Header(size, false, b)];
        foot := foot[curr + HEADER + size - 8 := size];
      } else {
        SetLinks(hdr, state.cells, i, false);
        if HonestFooters() { SetFeet(foot, state.cells, i, false); }
        SetAddr(state.cells, i, false, i);
        hdr := hdr[curr := hdr[curr].(free := false)];
      }
      cursor := curr;
      state := State(Take(state.cells, i, size), i);
    }

    /** The address named by the footer in front of a block. */
    static function PrevPtr(block: nat, size: nat): nat {
      (block - HEADER - size) % WORD
    }

    /** `ptr` belongs to block `i`, and the footer in front of it names block `named` of the list. */
    ghost predicate CanFree(ptr: nat, i: nat, named: nat)
      reads this
    {
      && i < |state.cells| && ptr == Addr(state.cells, i) + HEADER
      && (var c := FreeAndMergeNext(state.cells, i);
          named < |c| &&
          (i > 0 ==> Addr(state.cells, i) - 8 in foot
                     && PrevPtr(Addr(state.cells, i), foot[Addr(state.cells, i) - 8]) == Addr(c, named)))
    }

    /** With honest footers the footer in front of a block names the block before it. */
    lemma HonestNames(i: nat)
      requires Valid() && HonestFooters() && 0 < i < |state.cells|
      ensures CanFree(Addr(state.cells, i) + HEADER, i, i - 1)
    {
      hide Span;
      var c := FreeAndMergeNext(state.cells, i);
      assert Foot(foot, state.cells, i - 1);
      AddrNext(state.cells, i - 1);
      SamePrefix(state.cells, c, i - 1);
      TilesEnd(state.cells, i - 1);
    }

    /** Null and pointers outside the arena are ignored, and so is a block that is free already. */
    method Kfree(ptr: nat, ghost i: nat, ghost named: nat)
      requires Valid()
      requires HEAP_START + HEADER <= ptr < HEAP_START + HEAP_SIZE ==> CanFree(ptr, i, named)
      modifies this
      ensures Valid()
      ensures state == if HEAP_START + HEADER <= ptr < HEAP_START + HEAP_SIZE && !old(state).cells[i].free
                       then Free(old(state), i, named) else old(state)
      ensures |state.cells| == |old(state).cells| ==> foot == old(foot)
      ensures old(HonestFooters()) ==> HonestFooters()
    {
      hide Span, Addr, Links, Feet;
      if ptr == 0 { return; }
      if ptr < HEAP_START + HEADER || ptr >= HEAP_START + HEAP_SIZE { return; }
      var block := ptr - HEADER;
      LinkAt(hdr, state.cells, i);
      if hdr[block].free { return; }
      MergeWithNext(block, i);
      MergeWithPrev(block, i, named, old(state));
    }

    /** Marks block `i` free, moves the cursor back to it, and joins it with a free next block. */
    method MergeWithNext(block: nat, ghost i: nat)
      requires Valid() && i < |state.cells| && block == Addr(state.cells, i) && block in hdr
      modifies this
      ensures Valid() && i < |state.cells| && block == Addr(state.cells, i) && block in hdr
      ensures state == State(FreeAndMergeNext(old(state).cells, i), if i < old(state).cur then i else old(state).cur)
      ensures forall a :: a in old(foot) && a < block + HEADER - 8 ==> a in foot && foot[a] == old(foot)[a]
      ensures |state.cells| == |old(state).cells| ==> foot == old(foot)
      ensures old(HonestFooters()) ==> HonestFooters()
    {
      hide Span, Addr, Links, Feet, Merge;
      ghost var cells := state.cells;
      ghost var c := cells[i := Cell(cells[i].size, true)];
      LinkAt(hdr, cells, i);
      SetLinks(hdr, cells, i, true);
      if HonestFooters() { SetFeet(foot, cells, i, true); }
      SetSpan(cells, i, true);
      SetAddr(cells, i, true, i);
      SetAddr(cells, i, true, state.cur);
      hdr := hdr[block := hdr[block].(free := true)];
      CursorOrder(cells, i, state.cur);
      if block < cursor { cursor := block; }
      ghost var cur := if i < state.cur then i else state.cur;
      NextAddr(c, i);
      var end := block + HEADER + hdr[block].size;
      if end < HEAP_START + HEAP_SIZE {
        LinkAt(hdr, c, i + 1);
        if hdr[end].free {
          WalkLinks(hdr[end].next, block, c, i + 2);
          MergeSixteens(c, i);
          MergeLinks(hdr, c, i);
          if HonestFooters() { MergeFeet(foot, c, i); }
          MergeSpan(c, i);
          MergeAddr(c, i, i);
          MergeAddr(c, i, cur);
          CursorOrder(c, i + 1, cur);
          var size := hdr[block].size + HEADER + hdr[end].size;
          hdr := hdr[block := Header(size, true, hdr[end].next)];
          foot := foot[block + HEADER + size - 8 := size];
          if cursor == end { assert false; }   // the source would move the cursor; it never lies behind the block
        }
      }
      state := State(FreeAndMergeNext(cells, i), cur);
    }

    /** A search of the rest of the list for `block`, without effect. */
    method WalkLinks(first: nat, block: nat, ghost c: seq<Cell>, ghost k: nat)
      requires Links(hdr, c) && k <= |c| && first == if k < |c| then Addr(c, k) else 0
    {
      hide Span, Addr, Links;
      var tmp := first;
      ghost var j := k;
      while tmp != 0
        invariant k <= j <= |c| && tmp == if j < |c| then Addr(c, j) else 0
        decreases |c| - j
      {
        if tmp == block { break; }
        LinkAt(hdr, c, j);
        tmp := hdr[tmp].next;
        j := j + 1;
      }
    }

    /** Joins block `i` with its predecessor when the footer in front of it names a free block. */
    method MergeWithPrev(block: nat, ghost i: nat, ghost named: nat, ghost was: State)
      requires Valid() && i < |state.cells| && block == Addr(state.cells, i) && block in hdr && state.cells[i].free
      requires named < |state.cells| && state.cur <= i
      requires i > 0 ==> block - 8 in foot && PrevPtr(block, foot[block - 8]) == Addr(state.cells, named)
      modifies this
      ensures Valid()
      ensures state == if i > 0 && old(state).cells[named].free && named != i && old(state).cells[i - 1].free
        then State(Merge(old(state).cells, i - 1), if old(state).cur == i then i - 1 else old(state).cur)
        else old(state)
      ensures |state.cells| == |old(state).cells| ==> foot == old(foot)
      ensures old(HonestFooters()) ==> HonestFooters()
    {
      hide Span, Addr, Links, Feet;
      ghost var c := state.cells;
      FirstAddr(c);
      if block <= HEAP_START {
        if i > 0 { AddrApart(c, 0, i); }
        return;
      }
      if i == 0 { assert false; }
      var prev := PrevPtr(block, foot[block - 8]);
      LinkAt(hdr, c, named);
      LinkAt(hdr, c, i - 1);
      if prev == block { AddrInjective(c, named, i); return; }
      if !hdr[prev].free { return; }
      prev := Predecessor(prev, block, c, i, named);
      if hdr[prev].free && hdr[prev].next == block {
        JoinPrev(prev, block, i);
      }
    }

    /** The block linked in front of `block`: the named one, or found by walking the list. */
    method Predecessor(named: nat, block: nat, ghost c: seq<Cell>, ghost i: nat, ghost n: nat) returns (prev: nat)
      requires Links(hdr, c) && 0 < i < |c| && block == Addr(c, i) && n < |c| && named == Addr(c, n)
      ensures prev == Addr(c, i - 1)
    {
      hide Span, Addr, Links;
      prev := named;
      LinkAt(hdr, c, n);
      if hdr[prev].next == block {
        LinkAt(hdr, c, i);
        if n + 1 < |c| { AddrInjective(c, n + 1, i); }
        return;
      }
      if n == i - 1 { assert false; }
      var tmp := HEAP_START;
      ghost var j := 0;
      FirstAddr(c);
      while tmp != 0
        invariant j <= i - 1 && tmp == Addr(c, j)
        decreases i - j
      {
        LinkAt(hdr, c, j);
        if hdr[tmp].next == block {
          AddrInjective(c, j + 1, i);
          prev := tmp;
          break;
        }
        LinkAt(hdr, c, j + 1);
        tmp := hdr[tmp].next;
        j := j + 1;
      }
    }

    method JoinPrev(prev: nat, block: nat, ghost i: nat)
      requires Valid() && 0 < i < |state.cells| && block == Addr(state.cells, i) && prev == Addr(state.cells, i - 1)
      requires state.cells[i - 1].free && state.cur <= i && block in hdr && prev in hdr
      modifies this
      ensures Valid()
      ensures state == State(Merge(old(state).cells, i - 1), if old(state).cur == i then i - 1 else old(state).cur)
      ensures old(HonestFooters()) ==> HonestFooters()
    {
      hide Span, Addr, Links, Feet, Merge, Sixteens;
      ghost var c := state.cells;
      LinkAt(hdr, c, i - 1);
      LinkAt(hdr, c, i);
      MergeSixteens(c, i - 1);
      MergeLinks(hdr, c, i - 1);
      if HonestFooters() { MergeFeet(foot, c, i - 1); }
      MergeSpan(c, i - 1);
      ghost var cur := if state.cur == i then i - 1 else state.cur;
      MergeAddr(c, i - 1, cur);
      if cursor == block { AddrInjective(c, state.cur, i); }
      var size := hdr[prev].size + HEADER + hdr[block].size;
      hdr := hdr[prev := hdr[prev].(size := size, next := hdr[block].next)];
      foot := foot[prev + HEADER + size - 8 := size];
      if cursor == block { cursor := prev; }
      state := State(Merge(c, i - 1), cur);
    }
  }

  /** Addresses order as indices do. */
  lemma CursorOrder(cells: seq<Cell>, i: nat, j: nat)
    requires i < |cells| && j < |cells|
    ensures Addr(cells, i) < Addr(cells, j) <==> i < j
  {
    hide Span;
    if i < j { AddrApart(cells, i, j); }
    if j < i { AddrApart(cells, j, i); }
  }

  lemma NextAddr(cells: seq<Cell>, i: nat)
    requires Tiles(cells) && i < |cells|
    ensures Addr(cells, i) + HEADER + cells[i].size < HEAP_START + HEAP_SIZE <==> i + 1 < |cells|
    ensures i + 1 < |cells| ==> Addr(cells, i + 1) == Addr(cells, i) + HEADER + cells[i].size
  {
    hide Span;
    TilesEnd(cells, i);
    AddrNext(cells, i);
    if i + 1 < |cells| { AddrApart(cells, i + 1, |cells|); }
  }

  lemma AlignMultiple(size: nat)
    ensures Align(size) % 16 == 0
  {
  }

  lemma LinkAt(hdr: map<nat, Header>, cells: seq<Cell>, i: nat)
    requires Links(hdr, cells) && i < |cells|
    ensures Addr(cells, i) in hdr && hdr[Addr(cells, i)] == Header(cells[i].size, cells[i].free, NextPtr(cells, i))
    ensures Addr(cells, i) > 0
  {
    assert Linked(hdr, cells, i);
  }

  lemma FirstAddr(cells: seq<Cell>)
    ensures Addr(cells, 0) == HEAP_START
  {
    assert cells[..0] == [];
  }

  /** A run with one overwritten footer that ends with two free neighbours, call by call: the owner of
      the first of three blocks writes its last word, and the first two blocks are released. */
  method OverwrittenFooter() returns (h: KernelHeap, ghost trace: seq<State>)
    ensures fresh(h) && h.Valid() && !Coalesced(h.state.cells)
    ensures IsRun(trace, Bad) && h.state == trace[5]
  {
    hide Malloc, Free, FreeAndMergeNext, Sound, Coalesced, Addr, Align, BadStates, KernelHeap.Valid;
    ghost var n := HEAP_SIZE - HEADER;
    trace := BadStates(n);
    BadRun(n);
    var p, q;
    h, p, q := ThreeBlocks(n);
    ReleaseTwo(h, p, q, n);
  }

  method ThreeBlocks(ghost n: nat) returns (h: KernelHeap, p: nat, q: nat)
    requires n == HEAP_SIZE - HEADER
    ensures fresh(h) && h.Valid() && h.state == BadStates(n)[3]
    ensures p == HEAP_START + HEADER && q == HEAP_START + HEADER + 48
  {
    hide Malloc, Sound, Addr, Align, Coalesced;
    ghost var s := BadStates(n);
    BadRun(n);
    BadAddresses(n);
    assert forall k :: 0 <= k < 3 ==> RunStep(s[k], Bad[k], s[k + 1]);
    h := new KernelHeap();
    p := h.Kmalloc(16);
    q := h.Kmalloc(16);
    var r := h.Kmalloc(16);
  }

  method ReleaseTwo(h: KernelHeap, p: nat, q: nat, ghost n: nat)
    requires n == HEAP_SIZE - HEADER && h.Valid() && h.state == BadStates(n)[3]
    requires p == HEAP_START + HEADER && q == HEAP_START + HEADER + 48
    modifies h
    ensures h.Valid() && h.state == BadStates(n)[5]
  {
    hide Free, FreeAndMergeNext, Sound, Coalesced, Addr;
    ghost var s := BadStates(n);
    BadRun(n);
    BadAddresses(n);
    assert RunStep(s[3], Bad[3], s[4]) && RunStep(s[4], Bad[4], s[5]);
    h.Scribble(p + 8, WORD - HEADER - 48, 0);
    h.Kfree(p, 0, 0);
    h.Kfree(q, 1, 2);
  }

  /** A request near the 64-bit limit is granted, with a block that is far too small. */
  method WrappedRequest(request: nat) returns (h: KernelHeap, ptr: nat)
    requires WORD - 16 < request < WORD
    ensures fresh(h) && h.Valid() && ptr != 0 && h.state.cur < |h.state.cells|
    ensures ptr == Addr(h.state.cells, h.state.cur) + HEADER && h.state.cells[h.state.cur].size < request
  {
    hide Malloc, Sound, Addr, Align;
    h := new KernelHeap();
    AlignCovers(request);
    assert Fits(Initial.cells[0], Align(request));
    ptr := h.Kmalloc(request);
  }

  /** Where the blocks of that run lie, and that each request finds a block. */
  lemma BadAddresses(n: nat)
    requires n >= 200
    ensures var s := BadStates(n);
      && (forall k :: 1 <= k <= 5 ==> Addr(s[k].cells, 0) == HEAP_START)
      && (forall k :: 2 <= k <= 5 ==> Addr(s[k].cells, 1) == HEAP_START + 48)
      && (forall k :: 3 <= k <= 5 ==> Addr(s[k].cells, 2) == HEAP_START + 96)
      && Fits(s[0].cells[0], Align(16)) && Fits(s[1].cells[1], Align(16)) && Fits(s[2].cells[2], Align(16))
      && FreeAndMergeNext(s[3].cells, 0) == s[4].cells && FreeAndMergeNext(s[4].cells, 1) == s[5].cells
  {
    hide Addr;
    var s := BadStates(n);
    forall k | 1 <= k <= 5
      ensures Addr(s[k].cells, 0) == HEAP_START && Addr(s[k].cells, 1) == HEAP_START + 48
      ensures k >= 2 ==> Addr(s[k].cells, 2) == HEAP_START + 96
    {
      FirstAddr(s[k].cells);
      AddrNext(s[k].cells, 0);
      if k >= 2 { AddrNext(s[k].cells, 1); }
    }
  }
}

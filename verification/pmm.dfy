/** The physical page allocator: one bit per page and a rolling cursor. */
module Pmm {
  const PAGE_SIZE: nat := 4096
  const TOTAL_PAGES: nat := 0x200_0000   // 128 GB of pages
  const LOW_MEGABYTE: nat := 0x100000

  function Mask(k: nat): bv8
    requires k < 8
  {
    (1 as bv8) << k
  }

  lemma MaskValues()
    ensures Mask(0) == 1 && Mask(1) == 2 && Mask(2) == 4 && Mask(3) == 8
    ensures Mask(4) == 16 && Mask(5) == 32 && Mask(6) == 64 && Mask(7) == 128
  {
  }

  lemma MaskCases(k: nat)
    requires k < 8
    ensures Mask(k) in {1, 2, 4, 8, 16, 32, 64, 128}
    ensures forall j: nat :: j < 8 && j != k ==> Mask(j) != Mask(k)
  {
    MaskValues();
  }

  lemma SetMask(b: bv8, i: nat, j: nat)
    requires i < 8 && j < 8
    ensures (b | Mask(i)) & Mask(j) != 0 <==> i == j || b & Mask(j) != 0
  {
    var m, n := Mask(i), Mask(j);
    MaskCases(i); MaskCases(j);
    SetBits(b, m, n);
  }

  lemma SetBits(b: bv8, m: bv8, n: bv8)
    requires m in {1, 2, 4, 8, 16, 32, 64, 128} && n in {1, 2, 4, 8, 16, 32, 64, 128}
    ensures (b | m) & n != 0 <==> m == n || b & n != 0
  {
  }

  lemma ClearMask(b: bv8, i: nat, j: nat)
    requires i < 8 && j < 8
    ensures (b & !Mask(i)) & Mask(j) != 0 <==> i != j && b & Mask(j) != 0
  {
    var m, n := Mask(i), Mask(j);
    MaskCases(i); MaskCases(j);
    ClearBits(b, m, n);
  }

  lemma ClearBits(b: bv8, m: bv8, n: bv8)
    requires m in {1, 2, 4, 8, 16, 32, 64, 128} && n in {1, 2, 4, 8, 16, 32, 64, 128}
    ensures (b & !m) & n != 0 <==> m != n && b & n != 0
  {
  }

  predicate Tracked(p: nat) {
    p < TOTAL_PAGES
  }

  /** The page numbers from `lo` up to `hi` that the bitmap covers. */
  function Range(lo: nat, hi: nat): set<nat> {
    set p: nat | lo <= p < hi && Tracked(p)
  }

  lemma RangeNext(lo: nat, i: nat)
    requires lo <= i
    ensures Range(lo, i + 1) == if i < TOTAL_PAGES then Range(lo, i) + {i} else Range(lo, i)
    ensures Range(lo, lo) == {}
  {
    forall p: nat ensures p in Range(lo, i + 1) <==> p in Range(lo, i) || (p == i && i < TOTAL_PAGES) {
      assert Tracked(p) <==> p < TOTAL_PAGES;
    }
  }

  const WORD: nat := 0x1_0000_0000_0000_0000

  /** A 64-bit number; sums wrap around. */
  type U64 = x: nat | x < WORD

  lemma RangeEmpty(lo: nat, hi: nat)
    requires hi <= lo
    ensures Range(lo, hi) == {}
  {
  }

  datatype Region = Region(addr: U64, len: U64, available: bool)

  /** The whole pages of `len` bytes at `addr`. */
  function Freed(addr: nat, len: nat): set<nat> {
    Range(addr / PAGE_SIZE, (addr + len) % WORD / PAGE_SIZE)
  }

  /** The pages an available region frees at boot. */
  function RegionPages(r: Region): set<nat> {
    var pages := if r.len / PAGE_SIZE > TOTAL_PAGES then TOTAL_PAGES else r.len / PAGE_SIZE;
    if r.available then Freed(r.addr, pages * PAGE_SIZE) else {}
  }

  function AvailablePages(regions: seq<Region>): set<nat> {
    if regions == [] then {}
    else AvailablePages(regions[..|regions| - 1]) + RegionPages(regions[|regions| - 1])
  }

  /** After boot a page is available exactly when one of the available regions frees it; of a region no more
      than the bitmap holds is looked at. */
  lemma {:induction false} AvailableExact(regions: seq<Region>, p: nat)
    ensures p in AvailablePages(regions) <==>
      exists k :: 0 <= k < |regions| && regions[k].available && p in Freed(regions[k].addr, Whole(regions[k].len))
  {
    hide Freed;
    if regions != [] {
      var n := |regions| - 1;
      AvailableExact(regions[..n], p);
      if p in AvailablePages(regions[..n]) {
        var k :| 0 <= k < n && regions[..n][k].available
          && p in Freed(regions[..n][k].addr, Whole(regions[..n][k].len));
        assert regions[k].available;
      }
      if k :| 0 <= k < n && regions[k].available && p in Freed(regions[k].addr, Whole(regions[k].len)) {
        assert regions[..n][k].available;
      }
    }
  }

  /** The bytes of the whole pages, as many as the bitmap has. */
  function Whole(len: nat): (r: nat)
    ensures r % PAGE_SIZE == 0 && r <= len && r <= TOTAL_PAGES * PAGE_SIZE
    ensures r + PAGE_SIZE > len || r == TOTAL_PAGES * PAGE_SIZE
  {
    (if len / PAGE_SIZE > TOTAL_PAGES then TOTAL_PAGES else len / PAGE_SIZE) * PAGE_SIZE
  }

  /** The pages that a reservation of `len` bytes at `addr` touches. */
  function Touched(addr: nat, len: nat): set<nat> {
    Range(addr / PAGE_SIZE, (addr + len + PAGE_SIZE - 1) % WORD / PAGE_SIZE)
  }

  /** A reservation takes every page that holds one of its bytes, and no other page. */
  lemma TouchedExact(addr: nat, len: nat, p: nat)
    requires 0 < len && addr + len + PAGE_SIZE <= WORD
    ensures p in Touched(addr, len) <==> p < TOTAL_PAGES && exists a :: addr <= a < addr + len && a / PAGE_SIZE == p
  {
    if addr / PAGE_SIZE <= p && p * PAGE_SIZE < addr + len {
      var a := if addr / PAGE_SIZE == p then addr else p * PAGE_SIZE;
      assert addr <= a < addr + len && a / PAGE_SIZE == p;
    }
    assert Tracked(p) <==> p < TOTAL_PAGES;
  }

  /** A region frees the pages that end inside it, from the one that holds its first byte on. */
  lemma FreedExact(addr: nat, len: nat, p: nat)
    requires addr + len < WORD
    ensures p in Freed(addr, len) <==>
      p < TOTAL_PAGES && (p + 1) * PAGE_SIZE > addr && (p + 1) * PAGE_SIZE <= addr + len
  {
    assert Tracked(p) <==> p < TOTAL_PAGES;
  }

  /** The freed pages lie inside the region if and only if it starts on a page boundary or frees none: the
      first page of another region is freed whole. */
  lemma FreedInside(addr: nat, len: nat)
    requires addr + len < WORD
    ensures (forall p :: p in Freed(addr, len) ==> addr <= p * PAGE_SIZE && (p + 1) * PAGE_SIZE <= addr + len)
       <==> addr % PAGE_SIZE == 0 || Freed(addr, len) == {}
  {
    hide Freed;
    forall p: nat ensures p in Freed(addr, len) <==>
      p < TOTAL_PAGES && (p + 1) * PAGE_SIZE > addr && (p + 1) * PAGE_SIZE <= addr + len
    {
      FreedExact(addr, len, p);
    }
    if addr % PAGE_SIZE != 0 && Freed(addr, len) != {} {
      var q :| q in Freed(addr, len);
      assert addr / PAGE_SIZE in Freed(addr, len);
    }
  }

  /** An available region that starts in the middle of a page frees the half before it too. */
  lemma FreedOutside()
    ensures 0x200 in Freed(0x20_0800, 0x2000) && 0x200 * PAGE_SIZE < 0x20_0800
  {
    FreedExact(0x20_0800, 0x2000, 0x200);
  }

  lemma GrownNext(was: set<nat>, lo: nat, i: nat)
    requires lo <= i
    ensures was + Range(lo, i + 1) == was + Range(lo, i) + Range(i, i + 1)
  {
    RangeNext(lo, i);
    RangeNext(i, i);
  }

  lemma ShrunkNext(was: set<nat>, lo: nat, i: nat)
    requires lo <= i
    ensures was - Range(lo, i + 1) == was - Range(lo, i) - Range(i, i + 1)
  {
    RangeNext(lo, i);
    RangeNext(i, i);
  }

  lemma SameBit(p: nat, q: nat)
    requires p / 8 == q / 8
    ensures p % 8 == q % 8 <==> p == q
  {
  }

  lemma LowReserved()
    ensures 0 in Touched(0, LOW_MEGABYTE)
  {
    assert Tracked(0);
  }

  class Allocator {
    const bitmap: array<bv8>
    var lastPage: nat
    var freePages: nat
    ghost var free: set<nat>   // the pages whose bit is clear

    predicate Used(p: nat)
      requires bitmap.Length == TOTAL_PAGES / 8 && p < TOTAL_PAGES
      reads bitmap
    {
      bitmap[p / 8] & Mask(p % 8) != 0
    }

    /** The ghost set and the counter agree with the bitmap. */
    ghost predicate Counted()
      reads this, bitmap
    {
      && bitmap.Length == TOTAL_PAGES / 8
      && (forall p: nat :: p < TOTAL_PAGES ==> (p in free <==> !Used(p)))
      && (forall p :: p in free ==> p < TOTAL_PAGES)
      && freePages == |free|
      && lastPage <= TOTAL_PAGES
    }

    /** No free page lies below the cursor. */
    ghost predicate Ordered()
      reads this, bitmap
    {
      Counted() && forall p :: p in free ==> lastPage <= p
    }

    /** After boot page 0 is reserved as well. */
    ghost predicate Valid()
      reads this, bitmap
    {
      Ordered() && 0 !in free
    }

    method SetBit(p: nat)
      requires bitmap.Length == TOTAL_PAGES / 8 && p < TOTAL_PAGES
      modifies bitmap
      ensures forall q: nat :: q < TOTAL_PAGES ==> (Used(q) <==> q == p || old(Used(q)))
    {
      var k := p / 8;
      bitmap[k] := bitmap[k] | Mask(p % 8);
      forall q: nat | q < TOTAL_PAGES ensures Used(q) <==> q == p || old(Used(q)) {
        if q / 8 == k { SetMask(old(bitmap[k]), p % 8, q % 8); SameBit(p, q); }
        hide Mask;
      }
    }

    method ClearBit(p: nat)
      requires bitmap.Length == TOTAL_PAGES / 8 && p < TOTAL_PAGES
      modifies bitmap
      ensures forall q: nat :: q < TOTAL_PAGES ==> (Used(q) <==> q != p && old(Used(q)))
    {
      var k := p / 8;
      bitmap[k] := bitmap[k] & !Mask(p % 8);
      forall q: nat | q < TOTAL_PAGES ensures Used(q) <==> q != p && old(Used(q)) {
        if q / 8 == k { ClearMask(old(bitmap[k]), p % 8, q % 8); SameBit(p, q); }
        hide Mask;
      }
    }

    lemma Known(p: nat)
      requires Counted() && p < TOTAL_PAGES
      ensures p in free <==> !Used(p)
    {
    }

    /** Marks a free page as used. */
    method Take(p: nat)
      requires Counted() && p in free
      modifies this`freePages, this`free, bitmap
      ensures Counted() && free == old(free) - {p}
    {
      hide Used;
      SetBit(p);
      freePages := freePages - 1;
      free := free - {p};
    }

    /** Marks a used page as free. */
    method Give(p: nat)
      requires Counted() && p < TOTAL_PAGES && p !in free
      modifies this`freePages, this`free, bitmap
      ensures Counted() && free == old(free) + {p}
    {
      hide Used;
      ClearBit(p);
      freePages := freePages + 1;
      free := free + {p};
    }

    method ReserveRegion(addr: U64, len: U64)
      requires Counted()
      modifies this`freePages, this`free, bitmap
      ensures Counted() && free == old(free) - Touched(addr, len)
      ensures old(Valid()) ==> Valid()
    {
      hide Range, Used, Counted;
      ReservePages(addr / PAGE_SIZE, (addr + len + PAGE_SIZE - 1) % WORD / PAGE_SIZE);
      if old(Valid()) { Shrunk(old(free)); }
    }

    method ReservePages(start: nat, end: nat)
      requires Counted()
      modifies this`freePages, this`free, bitmap
      ensures Counted() && free == old(free) - Range(start, end)
    {
      hide Range, Used, Counted;
      RangeEmpty(start, start);
      if end < start { RangeEmpty(start, end); }
      var i := start;
      while i < end
        invariant start <= i && (i <= end || i == start)
        invariant Counted() && free == old(free) - Range(start, i)
      {
        ShrunkNext(old(free), start, i);
        TakeUnused(i);
        i := i + 1;
      }
    }

    /** Marks a page as used unless it is, or is beyond the bitmap. */
    method TakeUnused(p: nat)
      requires Counted()
      modifies this`freePages, this`free, bitmap
      ensures Counted() && free == old(free) - Range(p, p + 1)
    {
      hide Used;
      RangeNext(p, p);
      if p < TOTAL_PAGES {
        Known(p);
        var used := Used(p);
        if !used { Take(p); }
      }
    }

    lemma Shrunk(was: set<nat>)
      requires Counted() && free <= was && 0 !in was && forall p :: p in was ==> lastPage <= p
      ensures Valid()
    {
    }

    /** Marks a page as free unless it is, or is beyond the bitmap. */
    method GiveUsed(p: nat)
      requires Counted()
      modifies this`freePages, this`free, bitmap
      ensures Counted() && free == old(free) + Range(p, p + 1)
    {
      hide Used;
      RangeNext(p, p);
      if p < TOTAL_PAGES {
        Known(p);
        var used := Used(p);
        if used { Give(p); }
      }
    }

    method FreeRegion(addr: U64, len: U64)
      requires Counted()
      modifies this`freePages, this`free, bitmap
      ensures Counted() && free == old(free) + Freed(addr, len)
    {
      hide Range, Used, Counted;
      FreePages(addr / PAGE_SIZE, (addr + len) % WORD / PAGE_SIZE);
    }

    method FreePages(start: nat, end: nat)
      requires Counted()
      modifies this`freePages, this`free, bitmap
      ensures Counted() && free == old(free) + Range(start, end)
    {
      hide Range, Used, Counted;
      RangeEmpty(start, start);
      if end < start { RangeEmpty(start, end); }
      var i := start;
      while i < end
        invariant start <= i && (i <= end || i == start)
        invariant Counted() && free == old(free) + Range(start, i)
      {
        GrownNext(old(free), start, i);
        GiveUsed(i);
        i := i + 1;
      }
    }

    /** Boot: everything used, then the available regions freed, then low memory and the kernel
        image reserved. */
    constructor (regions: seq<Region>, kernelStart: U64, kernelEnd: U64)
      requires kernelStart <= kernelEnd
      ensures Valid() && fresh(bitmap)
      ensures free == AvailablePages(regions) - Touched(0, LOW_MEGABYTE) - Touched(kernelStart, kernelEnd - kernelStart)
    {
      bitmap := new bv8[TOTAL_PAGES / 8](_ => 0xff);
      freePages, lastPage, free := 0, 0, {};
      new;
      AllUsed();
      Fill(regions, kernelStart, kernelEnd);
    }

    method Fill(regions: seq<Region>, kernelStart: U64, kernelEnd: U64)
      requires kernelStart <= kernelEnd && Counted() && free == {} && lastPage == 0
      modifies this`freePages, this`free, bitmap
      ensures Valid()
      ensures free == AvailablePages(regions) - Touched(0, LOW_MEGABYTE) - Touched(kernelStart, kernelEnd - kernelStart)
    {
      hide Counted, Range, Touched, AvailablePages, Used;
      FreeAvailable(regions);
      ReserveRegion(0, LOW_MEGABYTE);
      LowReserved();
      ReserveRegion(kernelStart, kernelEnd - kernelStart);
      Ready();
    }

    lemma AllUsed()
      requires bitmap.Length == TOTAL_PAGES / 8 && free == {} && freePages == 0 && lastPage == 0
      requires forall k :: 0 <= k < bitmap.Length ==> bitmap[k] == 0xff
      ensures Counted()
    {
      forall p: nat | p < TOTAL_PAGES ensures Used(p) { MaskCases(p % 8); AllOnes(Mask(p % 8)); }
    }

    lemma Ready()
      requires Counted() && lastPage == 0 && 0 !in free
      ensures Valid()
    {
    }

    method FreeAvailable(regions: seq<Region>)
      requires Counted() && free == {}
      modifies this`freePages, this`free, bitmap
      ensures Counted() && free == AvailablePages(regions)
    {
      hide Counted, Range;
      for i := 0 to |regions|
        invariant Counted() && free == AvailablePages(regions[..i])
      {
        var r := regions[i];
        assert regions[..i + 1][..i] == regions[..i];
        if r.available {
          var pages := r.len / PAGE_SIZE;
          if pages > TOTAL_PAGES { pages := TOTAL_PAGES; }
          FreeRegion(r.addr, pages * PAGE_SIZE);
        }
      }
      assert regions[..|regions|] == regions;
    }

    /** The lowest free page, or 0 when there is none. The wrap-around scan finds nothing: a free
        page below the cursor does not exist. While page 0 is not free, 0 means that no page is. */
    method AllocPage() returns (addr: nat)
      requires Ordered()
      modifies this, bitmap
      ensures Ordered() && (old(Valid()) ==> Valid())
      ensures addr == 0 <==> old(free) == {} || 0 in old(free)
      ensures old(free) == {} ==> free == {}
      ensures old(free) != {} ==>
        && addr % PAGE_SIZE == 0
        && addr / PAGE_SIZE in old(free) && addr / PAGE_SIZE < TOTAL_PAGES
        && (forall p :: p in old(free) ==> addr / PAGE_SIZE <= p)
        && free == old(free) - {addr / PAGE_SIZE}
    {
      hide Used;
      var i := lastPage;
      while i < TOTAL_PAGES
        invariant lastPage <= i <= TOTAL_PAGES && forall p :: p in free ==> i <= p
      {
        var used := Used(i);
        if !used {
          Take(i);
          lastPage := i + 1;
          return i * PAGE_SIZE;
        }
        i := i + 1;
      }
      i := 0;
      while i < lastPage
        invariant i <= lastPage
      {
        var used := Used(i);
        if !used { assert false; }   // the source would allocate page i here
        i := i + 1;
      }
      assert free == {} by {
        if p :| p in free { assert false; }
      }
      addr := 0;
    }

    /** Marks a page as free and moves the cursor back to it. Page 0 may be freed too, and that is the
        one way to lose the invariant: its address is the failure value of the allocation. */
    method FreePage(addr: nat)
      requires Ordered() && addr < TOTAL_PAGES * PAGE_SIZE
      modifies this, bitmap
      ensures Ordered() && free == old(free) + {addr / PAGE_SIZE}
      ensures old(Valid()) ==> (Valid() <==> addr >= PAGE_SIZE)
      ensures lastPage == if addr / PAGE_SIZE !in old(free) && addr / PAGE_SIZE < old(lastPage)
                          then addr / PAGE_SIZE else old(lastPage)
    {
      hide Used;
      var page := addr / PAGE_SIZE;
      var used := Used(page);
      if used {
        Give(page);
        if page < lastPage { lastPage := page; }
      }
    }

    /** A null answer of a full allocator, kept as a page and freed with another page of its owner: the
        next request fails although a page is free. */
    method NullIsFreed(other: nat) returns (first: nat, second: nat)
      requires Valid() && free == {} && PAGE_SIZE <= other < TOTAL_PAGES * PAGE_SIZE
      modifies this, bitmap
      ensures first == 0 && second == 0 && free == {other / PAGE_SIZE}
    {
      hide Used, Counted;
      first := AllocPage();
      FreePage(other);
      FreePage(first);
      second := AllocPage();
    }
  }

  lemma AllOnes(m: bv8)
    requires m in {1, 2, 4, 8, 16, 32, 64, 128}
    ensures (0xff as bv8) & m != 0
  {
  }
}

/** The FAT32 driver of fat32.cpp: the allocation table behind a one-sector cache, cluster
    allocation, reading and writing files along their chains, and the search in a directory. */
module Fat32 {
  import opened Fat
  import opened FatChain

  /** An open file. `k` is the index of the current cluster in the file's chain. */
  class Handle {
    var first: nat
    var curr: nat
    var size: nat
    var offset: nat
    const isDir: bool
    ghost var k: nat

    constructor (first: nat, size: nat, isDir: bool)
      ensures this.first == first && curr == first && this.size == size && offset == 0 && k == 0 && this.isDir == isDir
    {
      this.first, curr, this.size, offset, k, this.isDir := first, first, size, 0, 0, isDir;
    }
  }

  /** What the one-sector cache promises: a clean buffer equals its sector, and so does every buffer
      of a sector of the first copy. */
  ghost predicate Clean(g: Geometry, disk: seq<Sector>, cached: nat, dirty: bool, buf: Sector) {
    buf != [] ==>
      && cached < |disk| && |buf| == g.words
      && (!dirty || cached < g.start + g.size ==> disk[cached] == buf)
  }

  /** The disk with the cached sector laid over it. */
  ghost function Overlay(disk: seq<Sector>, cached: nat, buf: Sector): seq<Sector> {
    if buf != [] && cached < |disk| then disk[cached := buf] else disk
  }

  lemma OverlayFormatted(g: Geometry, disk: seq<Sector>, cached: nat, dirty: bool, buf: Sector)
    requires g.Formatted(disk) && Clean(g, disk, cached, dirty, buf)
    ensures g.Formatted(Overlay(disk, cached, buf))
    ensures forall s :: 0 <= s < g.start + g.size && s < |disk| ==> Overlay(disk, cached, buf)[s] == disk[s]
  {
    hide Geometry.Good, Geometry.Limit;
  }

  /** The first copy on the disk is never stale. */
  lemma FirstCopyFresh(g: Geometry, disk: seq<Sector>, cached: nat, dirty: bool, buf: Sector)
    requires g.Formatted(disk) && Clean(g, disk, cached, dirty, buf)
    ensures g.Formatted(Overlay(disk, cached, buf)) && Table(g, Overlay(disk, cached, buf)) == Table(g, disk)
  {
    hide Geometry.Limit, Geometry.At, Overlay, Clean;
    OverlayFormatted(g, disk, cached, dirty, buf);
    forall c: nat | c < g.clusters ensures Entry(g, Overlay(disk, cached, buf), 0, c) == Entry(g, disk, 0, c) {
      AtInside(g, 0, c);
    }
  }

  class Volume {
    const g: Geometry
    const size: nat          // bytes per cluster
    const scanned: nat       // the bound of the allocation scan
    const inMemory: bool     // a memory image, read and written in place, or a block device
    var disk: seq<Sector>
    var cached: nat
    var dirty: bool
    var buf: Sector          // empty until the first use
    var data: seq<Cluster>
    ghost var chains: map<nat, seq<nat>>

    ghost predicate Coherent()
      reads this
    {
      g.Formatted(disk) && Clean(g, disk, cached, dirty, buf) && (inMemory ==> buf == [])
    }

    ghost function View(): (d: seq<Sector>)
      reads this
    {
      Overlay(disk, cached, buf)
    }

    ghost function Fat(): (t: seq<nat>)
      requires Coherent()
      reads this
    {
      OverlayFormatted(g, disk, cached, dirty, buf);
      Table(g, View())
    }

    ghost predicate Valid()
      reads this
    {
      && Coherent() && size > 0 && scanned + 2 == g.clusters
      && |data| == g.clusters && Filled(data, size)
      && WellFormed(Fat(), chains)
    }

    /** A freshly mounted volume; nothing is cached. */
    constructor (g: Geometry, size: nat, inMemory: bool, disk: seq<Sector>, data: seq<Cluster>,
                 ghost chains: map<nat, seq<nat>>)
      requires g.Formatted(disk) && size > 0 && g.clusters >= 2 && |data| == g.clusters && Filled(data, size)
      requires WellFormed(Table(g, disk), chains)
      ensures Valid() && View() == disk && this.data == data && this.chains == chains
    {
      this.g, this.size, this.scanned, this.inMemory := g, size, g.clusters - 2, inMemory;
      this.disk, cached, dirty, buf, this.data, this.chains := disk, 0, false, [], data, chains;
    }

    /** Fetches a sector into the cache; a dirty buffer of another sector is written back first. A hit
        drops the dirty mark, so a hit on a buffer that differs from its sector is ruled out. */
    method CachedSector(s: nat) returns (sec: Sector)
      requires Coherent() && !inMemory && s < |disk|
      requires buf != [] && cached == s ==> disk[s] == buf
      modifies this`disk, this`cached, this`dirty, this`buf
      ensures Coherent() && View() == old(View()) && sec == View()[s]
      ensures cached == s && buf == sec && disk[s] == sec && |disk| == old(|disk|)
    {
      hide Geometry.Good, Geometry.Limit;
      if s == cached && buf != [] {
        dirty := false;
        return buf;
      }
      if buf != [] && dirty {
        disk := disk[cached := buf];
        dirty := false;
      }
      buf := disk[s];
      cached := s;
      dirty := false;
      return buf;
    }

    /** A sector of the table region. */
    method SectorPtr(s: nat) returns (sec: Sector)
      requires Coherent() && s < |disk|
      requires buf != [] && cached == s ==> disk[s] == buf
      modifies this`disk, this`cached, this`dirty, this`buf
      ensures Coherent() && View() == old(View()) && sec == View()[s] && |disk| == old(|disk|)
      ensures disk[s] == sec && (if inMemory then buf == [] else cached == s && buf == sec)
    {
      hide Geometry.Good, Geometry.Limit;
      if inMemory { return disk[s]; }
      sec := CachedSector(s);
    }

    /** The entry of a cluster. */
    method ReadFat(c: nat) returns (v: nat)
      requires Coherent() && c < g.clusters
      modifies this`disk, this`cached, this`dirty, this`buf
      ensures Coherent() && View() == old(View()) && Fat() == old(Fat()) && v == Fat()[c]
    {
      hide Geometry.Limit, Geometry.At;
      AtInside(g, 0, c);
      OverlayFormatted(g, disk, cached, dirty, buf);
      var sec := SectorPtr(g.At(0, c));
      v := Low(sec[c % g.words]);
    }

    /** Stores a sector back where it came from; the first copy goes to the disk at once. */
    method StoreSector(s: nat, sec: Sector, through: bool)
      requires Coherent() && s < |disk| && |sec| == g.words
      requires if inMemory then buf == [] else buf != [] && cached == s
      requires s < g.start + g.size ==> through
      modifies this`disk, this`dirty, this`buf
      ensures Coherent() && View() == old(View())[s := sec] && |disk| == old(|disk|)
      ensures if inMemory then buf == [] else buf != [] && cached == s
    {
      hide Geometry.Limit, Geometry.At;
      if inMemory {
        disk := disk[s := sec];
      } else {
        buf := sec;
        if cached == s { dirty := true; }
        if through { disk := disk[s := sec]; }
      }
    }

    /** Sets the entry of a cluster in every copy of the table. */
    method WriteFat(c: nat, v: nat)
      requires Coherent() && c < g.clusters && v < LOW
      modifies this`disk, this`cached, this`dirty, this`buf
      ensures Coherent() && g.Formatted(old(View())) && View() == PutFrom(g, old(View()), 0, c, v)
      ensures Fat() == old(Fat())[c := v] && (Agree(g, old(View())) ==> Agree(g, View()))
    {
      hide Geometry.Limit, Geometry.At, Merge, Entry, Put, PutFrom, Table, Clean, Overlay;
      OverlayFormatted(g, disk, cached, dirty, buf);
      ghost var view := View();
      var f := 0;
      while f < g.copies
        invariant f <= g.copies && Coherent() && g.Formatted(View())
        invariant !inMemory && f > 0 ==> buf != [] && cached == g.At(f - 1, c)
        invariant PutFrom(g, View(), f, c, v) == PutFrom(g, view, 0, c, v)
      {
        ghost var before := View();
        WriteCopy(f, c, v);
        PutStep(g, before, f, c, v);
        f := f + 1;
      }
      PutDone(g, View(), c, v);
      WriteIsUpdate(g, view, c, v);
    }

    /** Sets the entry of a cluster in one copy. */
    method WriteCopy(f: nat, c: nat, v: nat)
      requires Coherent() && c < g.clusters && f < g.copies && g.Formatted(View())
      requires !inMemory && f > 0 ==> buf != [] && cached == g.At(f - 1, c)
      modifies this`disk, this`cached, this`dirty, this`buf
      ensures Coherent() && View() == Put(g, old(View()), f, c, v) && (!inMemory ==> buf != [] && cached == g.At(f, c))
    {
      hide Geometry.Limit, Geometry.At, Merge, Overlay;
      AtInside(g, f, c);
      if f > 0 { NextCopy(g, f, c); }
      HitIsClean(g, disk, cached, dirty, buf);
      var s := g.At(f, c);
      var sec := SectorPtr(s);
      var word := Merge(sec[c % g.words], v);
      StoreSector(s, sec[c % g.words := word], f == 0);
    }

    /** The lowest free cluster the scan sees, made a chain of its own and zeroed. */
    method AllocCluster() returns (c: nat)
      requires Valid()
      modifies this
      ensures Valid()
      ensures c == 0 ==> (forall x :: 2 <= x < scanned ==> old(Fat())[x] != 0)
                         && Fat() == old(Fat()) && data == old(data) && chains == old(chains)
      ensures c != 0 ==> 2 <= c < scanned && old(Fat())[c] == 0 && (forall x :: 2 <= x < c ==> old(Fat())[x] != 0)
                         && Fat() == old(Fat())[c := END] && data == old(data)[c := Blank(size)]
                         && chains == old(chains)[c := [c]] && c !in old(chains) && Outside(old(chains), c)
    {
      hide Geometry.Good, Geometry.Limit, Geometry.At, Overlay, Clean, Table, PutFrom, WellFormed;
      ghost var t := Fat();
      c := 2;
      while c < scanned
        invariant c >= 2 && Valid() && Fat() == t && data == old(data) && chains == old(chains)
        invariant forall x :: 2 <= x < c && x < scanned ==> t[x] != 0
      {
        var v := ReadFat(c);
        if v == 0 {
          WriteFat(c, END);
          data := data[c := Blank(size)];
          AllocKeeps(t, chains, c);
          chains := chains[c := [c]];
          return;
        }
        c := c + 1;
      }
      c := 0;
    }

    /** Hangs a new cluster behind the last one of a chain. */
    method Extend(ghost first: nat, curr: nat) returns (c: nat)
      requires Valid() && first in chains && chains[first] != [] && curr == chains[first][|chains[first]| - 1]
      modifies this
      ensures Valid()
      ensures c == 0 ==> (forall x :: 2 <= x < scanned ==> old(Fat())[x] != 0)
                         && Fat() == old(Fat()) && data == old(data) && chains == old(chains)
      ensures c != 0 ==> 2 <= c < scanned && old(Fat())[c] == 0 && Outside(old(chains), c)
                         && data == old(data)[c := Blank(size)]
                         && chains == old(chains)[first := old(chains)[first] + [c]]
                         && Fat() == old(Fat())[c := END][curr := c]
    {
      hide Geometry.Good, Geometry.Limit, Geometry.At, Overlay, Clean, Table, PutFrom, WellFormed;
      ghost var before := chains;
      c := AllocCluster();
      if c == 0 { return; }
      ghost var t := Fat();
      OwnCluster(t, chains, first);
      WriteFat(curr, c);
      LinkKeeps(t, chains, first, c);
      chains := Linked(chains, first, c);
      assert chains == before[first := before[first] + [c]];
    }

    /** A handle's current cluster is one of its chain. */
    ghost predicate Opened(h: Handle)
      reads this, h
    {
      if h.first == 0 then h.curr == 0 && h.k == 0
      else h.first in chains && h.k < |chains[h.first]| && h.curr == chains[h.first][h.k]
    }

    /** The file's chain, empty for a file without clusters. */
    ghost function ChainOf(h: Handle): seq<nat>
      reads this, h
    {
      if h.first != 0 && h.first in chains then chains[h.first] else []
    }

    /** The next cluster of the file, a new one at the end of its chain; 0 when there is none. */
    method Advance(h: Handle) returns (next: nat)
      requires Valid() && h.first != 0 && Opened(h)
      modifies this
      ensures Valid() && Opened(h) && Grows(old(M(h)), M(h), size) && Clusters(h) == old(Clusters(h))
      ensures next == 0 ==> M(h) == old(M(h)) && Full(Fat(), scanned) && h.k + 1 == |ChainOf(h)|
      ensures next != 0 ==> h.k + 1 < |ChainOf(h)| && ChainOf(h)[h.k + 1] == next
    {
      hide Geometry.Good, Geometry.Limit, Geometry.At, Overlay, Clean, Table, PutFrom, WellFormed;
      StepInChain(Fat(), chains, h.first, h.k);
      next := ReadFat(h.curr);
      if next >= EOC {
        ghost var m, t := M(h), Fat();
        next := Extend(h.first, h.curr);
        if next == 0 { return; }
        assert GrownBy(m, M(h), next, size);
        SpareTaken(t, scanned, next);
        SpareKept(t[next := END], scanned, h.curr, next);
      }
    }

    /** What a write may change: the bytes, the chains, and the writer's own chain. */
    ghost function M(h: Handle): File
      reads this, h
    {
      File(data, chains, h.first, ChainOf(h))
    }

    /** How many clusters the file has or can still get. */
    ghost function Clusters(h: Handle): nat
      requires Coherent()
      reads this, h
    {
      |ChainOf(h)| + |Spare(Fat(), scanned)|
    }

    /** How many bytes can be written at the handle's position. */
    ghost function Room(h: Handle): int
      requires Coherent()
      reads this, h
    {
      Position(Clusters(h), size, 0) - Place(h)
    }

    /** Writes part of the buffer in the current cluster. */
    method PutBytes(h: Handle, o: nat, s: seq<bv8>)
      requires Valid() && h.first != 0 && Opened(h) && o + |s| <= size
      modifies this
      ensures Valid() && Opened(h) && Fat() == old(Fat()) && chains == old(chains)
      ensures data == old(data)[h.curr := Splice(old(data)[h.curr], o, s)]
    {
      hide Geometry.Good, Geometry.Limit, Geometry.At, Overlay, Clean, Table, PutFrom, WellFormed;
      StepInChain(Fat(), chains, h.first, h.k);
      data := data[h.curr := Splice(data[h.curr], o, s)];
    }

    /** The position of the handle: the start of its current cluster plus the offset within a cluster. */
    ghost function Place(h: Handle): nat
      reads this, h
    {
      if size == 0 then 0 else Position(h.k, size, h.offset % size)
    }

    /** The position just after the last byte that went through the handle. */
    ghost function Reached(h: Handle): nat
      requires size > 0
      reads this, h
    {
      Position(h.k, size, if h.offset % size == 0 then size else h.offset % size)
    }

    /** Writes as much of the rest of the buffer as the current cluster takes. */
    method WriteChunk(h: Handle, s: seq<bv8>, n: nat, ghost m: File, ghost start: nat) returns (n': nat)
      requires Valid() && Opened(h) && h.first != 0 && n < |s|
      requires Written(m, M(h), size, start, s[..n]) && Position(h.k, size, h.offset % size) == start + n
      modifies this, h`offset, h`size
      ensures Valid() && Opened(h) && n < n' <= |s|
      ensures Written(m, M(h), size, start, s[..n']) && Reached(h) == start + n' && Fat() == old(Fat())
      ensures h.offset == old(h.offset) + n' - n && h.size == if h.offset > old(h.size) then h.offset else old(h.size)
      ensures (h.offset % size == 0 || n' == |s|) && Clusters(h) == old(Clusters(h))
    {
      hide Geometry.Good, Geometry.Limit, Geometry.At, Overlay, Clean, Table, PutFrom, WellFormed, Written, Position,
           Splice, Spare;
      ghost var before := M(h);
      var o := h.offset % size;
      var chunk := size - o;
      if chunk > |s| - n { chunk := |s| - n; }
      PutBytes(h, o, s[n..n + chunk]);
      n' := n + chunk;
      Unrepeated(Fat(), chains, h.first);
      WrittenChunk(m, before, M(h), size, start, s[..n], h.k, o, s[n..n + chunk]);
      assert s[..n] + s[n..n + chunk] == s[..n'];
      OffsetMoves(h.offset, chunk, size);
      PositionPlus(h.k, size, o);
      PositionPlus(h.k, size, o + chunk);
      h.offset := h.offset + chunk;
      if h.offset > h.size { h.size := h.offset; }
    }

    /** Writes a buffer at the handle's position, growing the chain where it ends. */
    method Write(h: Handle, s: seq<bv8>) returns (n: int)
      requires Valid() && Opened(h)
      modifies this, h
      ensures Valid() && Opened(h)
      ensures n == -1 <==> h.isDir || (old(h.first) == 0 && Full(old(Fat()), scanned))
      ensures n == -1 ==> M(h) == old(M(h)) && h.offset == old(h.offset) && h.size == old(h.size)
      ensures n != -1 ==> 0 <= n <= |s| && h.first != 0 && (old(h.first) != 0 ==> h.first == old(h.first))
      ensures n != -1 ==> Written(old(M(h)), M(h), size, old(Place(h)), s[..n])
      ensures 0 <= n < |s| ==> Full(Fat(), scanned)
      ensures n != -1 ==>
        h.offset == old(h.offset) + n && h.size == if n > 0 && h.offset > old(h.size) then h.offset else old(h.size)
      ensures n == 0 ==> h.k == old(h.k)
      ensures n > 0 ==> Reached(h) == old(Place(h)) + n
      ensures n != -1 ==> n == Fitting(|s|, old(Room(h)))
      ensures Clusters(h) == old(Clusters(h))
    {
      hide Geometry.Good, Geometry.Limit, Geometry.At, Overlay, Clean, Table, PutFrom, WellFormed, Written, Position,
           Full, Spare;
      if h.isDir { return -1; }
      ghost var m, start := M(h), Place(h);
      var ok := Begin(h);
      if !ok { return -1; }
      assert s[..0] == [];
      n := WriteAll(h, s, m, start);
    }

    /** The loop of a write: cluster by cluster until the buffer is written or the volume is full. */
    method WriteAll(h: Handle, s: seq<bv8>, ghost m: File, ghost start: nat) returns (n: nat)
      requires Valid() && Opened(h) && h.first != 0 && Written(m, M(h), size, start, []) && start == Place(h)
      modifies this, h`curr, h`k, h`offset, h`size
      ensures Valid() && Opened(h) && n <= |s|
      ensures Written(m, M(h), size, start, s[..n])
      ensures n < |s| ==> Full(Fat(), scanned)
      ensures h.offset == old(h.offset) + n
      ensures h.size == if n > 0 && h.offset > old(h.size) then h.offset else old(h.size)
      ensures n == 0 ==> h.k == old(h.k)
      ensures n > 0 ==> Reached(h) == start + n
      ensures Clusters(h) == old(Clusters(h)) && n == Fitting(|s|, old(Room(h)))
    {
      hide Geometry.Good, Geometry.Limit, Geometry.At, Overlay, Clean, Table, PutFrom, WellFormed, Written, Position,
           Grows, Full, Spare;
      n := 0;
      assert s[..0] == [];
      while n < |s|
        invariant 0 <= n <= |s| && Valid() && Opened(h) && h.first != 0
        invariant Written(m, M(h), size, start, s[..n])
        invariant n < |s| ==> Position(h.k, size, h.offset % size) == start + n
        invariant h.offset == old(h.offset) + n
        invariant h.size == if n > 0 && h.offset > old(h.size) then h.offset else old(h.size)
        invariant if n == 0 then h.k == old(h.k) else Reached(h) == start + n || n < |s|
        invariant Clusters(h) == old(Clusters(h))
      {
        n := WriteChunk(h, s, n, m, start);
        if h.offset % size == 0 && n < |s| {
          var ended := StepOn(h, s[..n], m, start);
          if ended { return; }
        }
      }
      PositionOrder(h.k, Clusters(h), size);
      PositionPlus(h.k, size, h.offset % size);
      PositionPlus(h.k, size, size);
    }

    /** After a full cluster a write goes on in the next one, if there is one or one can be had. */
    method StepOn(h: Handle, ghost s: seq<bv8>, ghost m: File, ghost start: nat) returns (ended: bool)
      requires Valid() && Opened(h) && h.first != 0 && Written(m, M(h), size, start, s)
      requires h.offset % size == 0 && Reached(h) == start + |s|
      modifies this, h`curr, h`k
      ensures Valid() && Opened(h) && Written(m, M(h), size, start, s) && Clusters(h) == old(Clusters(h))
      ensures ended ==> h.k == old(h.k) && Full(Fat(), scanned) && Position(Clusters(h), size, 0) == start + |s|
      ensures !ended ==> Position(h.k, size, 0) == start + |s|
    {
      hide Geometry.Good, Geometry.Limit, Geometry.At, Overlay, Clean, Table, PutFrom, WellFormed, Written, Position,
           Grows, Full, Spare;
      ghost var before := M(h);
      NextPosition(h.k, size);
      var next := Advance(h);
      if next == 0 {
        SpareNone(Fat(), scanned);
        return true;
      }
      WrittenGrows(m, before, M(h), size, start, s);
      h.curr := next;
      h.k := h.k + 1;
      return false;
    }

    /** A file without clusters gets its first one. */
    method Begin(h: Handle) returns (ok: bool)
      requires Valid() && Opened(h)
      modifies this, h`first, h`curr
      ensures Valid() && Opened(h) && ok == !(old(h.first) == 0 && Full(old(Fat()), scanned))
      ensures !ok ==> M(h) == old(M(h))
      ensures ok ==> h.first != 0 && (old(h.first) != 0 ==> h.first == old(h.first))
      ensures ok ==> Written(old(M(h)), M(h), size, Position(h.k, size, h.offset % size), [])
      ensures Clusters(h) == old(Clusters(h))
    {
      hide Geometry.Good, Geometry.Limit, Geometry.At, Overlay, Clean, Table, PutFrom, WellFormed, Written, Position;
      ghost var m, t := M(h), Fat();
      if h.first == 0 {
        var c := AllocCluster();
        if c == 0 { return false; }
        h.first := c;
        h.curr := c;
        WrittenFirst(m, M(h), size, c, h.offset % size);
        SpareTaken(t, scanned, c);
      } else {
        ChainInside(Fat(), chains, h.first, data);
        WrittenNothing(m, size, h.k, h.offset % size);
      }
      return true;
    }

    /** Reads at the handle's position, up to the end of the file or of its chain. */
    method Read(h: Handle, n: nat) returns (r: int, out: seq<bv8>)
      requires Valid() && Opened(h)
      modifies this, h
      ensures Valid() && Opened(h) && Fat() == old(Fat()) && data == old(data) && chains == old(chains)
      ensures h.first == old(h.first) && h.size == old(h.size)
      ensures h.isDir ==> r == -1 && h.offset == old(h.offset)
      ensures !h.isDir ==> r == |out| <= n && h.offset == old(h.offset) + r
      ensures !h.isDir && old(h.offset) <= old(h.size) ==> h.offset <= h.size
      ensures !h.isDir && old(h.offset) >= old(h.size) ==> r == 0
      ensures !h.isDir && h.first == 0 ==> out == []
      ensures !h.isDir && h.first != 0 ==> ReadBack(data, ChainOf(h), old(Place(h)), out)
      ensures !h.isDir && h.first != 0 && r < n && h.offset < h.size ==> AtEnd(data, ChainOf(h), old(Place(h)) + r)
      ensures !h.isDir && h.first != 0 ==>
        Place(h) == old(Place(h)) + r || AtEnd(data, ChainOf(h), old(Place(h)) + r)
    {
      hide Geometry.Good, Geometry.Limit, Geometry.At, Overlay, Clean, Table, PutFrom, WellFormed, Position, Content,
           ReadBack, AtEnd;
      out := [];
      if h.isDir { return -1, []; }
      if h.first != 0 {
        ChainInside(Fat(), chains, h.first, data);
        ReadNothing(data, chains[h.first], h.k, size, h.offset % size);
      }
      if h.offset >= h.size { return 0, []; }
      var remaining := h.size - h.offset;
      var want := if n < remaining then n else remaining;
      ghost var start := Position(h.k, size, h.offset % size);
      ghost var ch := ChainOf(h);
      r := 0;
      while r < want
        invariant 0 <= r <= want && r == |out| && Valid() && Opened(h) && Fat() == old(Fat()) && data == old(data)
        invariant chains == old(chains)
        invariant h.first == old(h.first) && h.size == old(h.size) && h.offset == old(h.offset) + r && ChainOf(h) == ch
        invariant h.first == 0 ==> out == []
        invariant h.first != 0 ==>
          ReadBack(data, ch, start, out) && Position(h.k, size, h.offset % size) == start + r
      {
        ZeroOnly(Fat(), chains, h.first, h.k);
        if h.curr < 2 { return; }
        out := ReadChunk(h, out, want, start);
        r := |out|;
        if h.offset % size == 0 {
          var ended := NextCluster(h);
          if ended { return; }
        }
      }
    }

    /** Moves to the next cluster of the chain, if there is one. */
    method NextCluster(h: Handle) returns (ended: bool)
      requires Valid() && Opened(h) && h.first != 0
      modifies this, h`curr, h`k
      ensures Valid() && Opened(h) && Fat() == old(Fat()) && data == old(data) && chains == old(chains)
      ensures ended ==> h.k == old(h.k) && AtEnd(data, ChainOf(h), Position(h.k, size, size))
      ensures !ended ==> Position(h.k, size, 0) == Position(old(h.k), size, size)
    {
      hide Geometry.Good, Geometry.Limit, Geometry.At, Overlay, Clean, Table, PutFrom, WellFormed, Position, Content,
           AtEnd;
      ChunkEnd(Fat(), chains, h.first, h.k, data, size);
      var next := ReadFat(h.curr);
      if next >= EOC { return true; }
      h.curr := next;
      h.k := h.k + 1;
      return false;
    }

    /** Reads as much of the rest as the current cluster holds. */
    method ReadChunk(h: Handle, out: seq<bv8>, want: nat, ghost start: nat) returns (more: seq<bv8>)
      requires Valid() && Opened(h) && h.first != 0 && |out| < want
      requires ReadBack(data, ChainOf(h), start, out) && Position(h.k, size, h.offset % size) == start + |out|
      modifies h`offset
      ensures |out| < |more| <= want && h.offset == old(h.offset) + |more| - |out|
      ensures ReadBack(data, ChainOf(h), start, more) && Reached(h) == start + |more|
      ensures h.offset % size == 0 || |more| == want
    {
      hide Geometry.Good, Geometry.Limit, Geometry.At, Overlay, Clean, Table, PutFrom, WellFormed, Position, Content,
           ReadBack, AtEnd;
      var o := h.offset % size;
      var chunk := size - o;
      if chunk > want - |out| { chunk := want - |out|; }
      StepInChain(Fat(), chains, h.first, h.k);
      ReadMore(data, ChainOf(h), start, out, h.k, size, o, chunk);
      OffsetMoves(h.offset, chunk, size);
      PositionPlus(h.k, size, o);
      PositionPlus(h.k, size, o + chunk);
      more := out + data[h.curr][o..o + chunk];
      h.offset := h.offset + chunk;
    }

    /** Two reads in a row give the bytes of one read: the second goes on where the first ended, unless
        that was the end of the chain. */
    method ReadTwice(h: Handle, n: nat, n': nat) returns (a: seq<bv8>, b: seq<bv8>)
      requires Valid() && Opened(h) && !h.isDir && h.first != 0
      modifies this, h
      ensures Valid() && Opened(h) && data == old(data) && ChainOf(h) == old(ChainOf(h))
      ensures h.offset == old(h.offset) + |a| + |b| && |a| <= n && |b| <= n'
      ensures ReadBack(data, ChainOf(h), old(Place(h)), a + b) || AtEnd(data, ChainOf(h), old(Place(h)) + |a|)
      ensures old(h.offset) <= h.size ==> h.offset <= h.size
    {
      hide Geometry.Good, Geometry.Limit, Geometry.At, Overlay, Clean, Table, PutFrom, WellFormed, Position, Content,
           AtEnd, ReadBack;
      ghost var p := Place(h);
      var r;
      r, a := Read(h, n);
      ghost var q := Place(h);
      r, b := Read(h, n');
      if q == p + |a| { ReadsJoin(data, ChainOf(h), p, a, b); }
    }

    /** What is written through a fresh handle is read back through another one. */
    method WriteAndReadBack(h: Handle, s: seq<bv8>) returns (n: int, back: seq<bv8>)
      requires Valid() && Opened(h) && h.offset == 0 && h.k == 0 && !h.isDir
      modifies this, h
      ensures Valid() && (n == -1 <==> old(h.first) == 0 && Full(old(Fat()), scanned))
      ensures n >= 0 ==> n <= |s| && n == Fitting(|s|, old(Room(h))) && back == s[..n]
    {
      hide Geometry.Good, Geometry.Limit, Geometry.At, Overlay, Clean, Table, PutFrom, WellFormed, Content, Written,
           Spare;
      ghost var m := M(h);
      n := Write(h, s);
      back := [];
      if n >= 0 {
        Begins(size);
        WrittenReads(m, M(h), size, s[..n]);
        var again := new Handle(h.first, h.size, false);
        HeadOf(Fat(), chains, h.first);
        var r;
        r, back := Read(again, n);
        assert ChainOf(again) == ChainOf(h);
        assert back == s[..n] by { ReadPrefix(data, ChainOf(h), back, s[..n]); }
      }
    }

    /** Two writes in a row are one write, unless the first ends on a cluster boundary; then the
        second starts one cluster too early. The bytes end up where they belong exactly when the first
        write does not end on a boundary. With room for both, both complete. */
    method WriteTwice(h: Handle, a: seq<bv8>, b: seq<bv8>) returns (n: int, n': int, ghost mid: File)
      requires Valid() && Opened(h) && !h.isDir && a != []
      modifies this, h
      ensures Valid() && Opened(h)
      ensures n == -1 <==> old(h.first) == 0 && Full(old(Fat()), scanned)
      ensures n != -1 ==> n == Fitting(|a|, old(Room(h)))
      ensures n == |a| ==>
        n' == Fitting(|b|, old(Room(h)) - |a| + if (old(h.offset) + |a|) % size == 0 then size else 0)
      ensures |a| + |b| <= old(Room(h)) ==> n == |a| && n' == |b|
      ensures n == |a| && n' == |b| && (old(h.offset) + |a|) % size != 0 ==>
                Written(old(M(h)), M(h), size, old(Place(h)), a + b)
      ensures n == |a| && n' == |b| && (old(h.offset) + |a|) % size == 0 ==>
                var p := old(Place(h));
                p + |a| >= size && Written(old(M(h)), mid, size, p, a) && Written(mid, M(h), size, p + |a| - size, b)
      ensures n == |a| && n' == |b| ==> h.offset == old(h.offset) + |a| + |b|
      ensures n == |a| && n' == |b| && b != [] ==>
                (Reached(h) == old(Place(h)) + |a| + |b| <==> (old(h.offset) + |a|) % size != 0)
    {
      hide Geometry.Good, Geometry.Limit, Geometry.At, Overlay, Clean, Table, PutFrom, WellFormed, Content, Written,
           Position, Full, Spare;
      ghost var m := M(h);
      NoRoom(h);
      n := Write(h, a);
      mid := M(h);
      ghost var k, o := h.k, h.offset % size;
      PositionPlus(k, size, size);
      PositionPlus(k, size, o);
      n' := Write(h, b);
      assert n == |a| ==> a[..n] == a;
      assert n' == |b| ==> b[..n'] == b;
      if n == |a| && n' == |b| && o != 0 {
        WrittenTwice(m, mid, M(h), size, old(Place(h)), a, b);
      }
    }

    /** A new file on a full volume has no room. */
    lemma NoRoom(h: Handle)
      requires Valid() && Opened(h)
      ensures h.first == 0 && Full(Fat(), scanned) ==> Room(h) <= 0
    {
      hide Geometry.Good, Geometry.Limit, Geometry.At, Overlay, Clean, Table, PutFrom, WellFormed, Full;
      if h.first == 0 && Full(Fat(), scanned) { SpareNone(Fat(), scanned); }
    }

    /** A file that has or can get a cluster has room for one. */
    lemma RoomForOne(h: Handle)
      requires Valid() && Opened(h) && h.offset == 0 && h.k == 0
      ensures h.first != 0 || !Full(Fat(), scanned) ==> Room(h) >= size
    {
      hide Geometry.Good, Geometry.Limit, Geometry.At, Overlay, Clean, Table, PutFrom, WellFormed, Position;
      Begins(size);
      NextPosition(0, size);
      PositionPlus(0, size, size);
      PositionPlus(0, size, 0);
      SpareSome(Fat(), scanned);
      if Clusters(h) > 0 { PositionOrder(0, Clusters(h), size); }
    }

    /** A cluster written whole through a fresh handle, and then more: the second write goes over the
        first bytes of the first, which are lost. Both writes report success. */
    method SplitWriteLoses(h: Handle, a: seq<bv8>, b: seq<bv8>) returns (n: int, n': int)
      requires Valid() && Opened(h) && !h.isDir && h.offset == 0 && h.k == 0
      requires size >= 512 && |a| == size && 0 < |b| <= size
      modifies this, h
      ensures Valid() && Opened(h)
      ensures n == -1 <==> old(h.first) == 0 && Full(old(Fat()), scanned)
      ensures n != -1 ==> n == |a| && n' == |b| && h.offset == |a| + |b| && Overwritten(data, ChainOf(h), a, b)
    {
      hide Geometry.Good, Geometry.Limit, Geometry.At, Overlay, Clean, Table, PutFrom, WellFormed, Content, Written,
           Overwritten, Full, Spare;
      ghost var m := M(h);
      ghost var mid;
      Begins(size);
      Whole(size);
      RoomForOne(h);
      n, n', mid := WriteTwice(h, a, b);
      if n == |a| && n' == |b| { WrittenOver(m, mid, M(h), size, a, b); }
    }

    /** The first record of a cluster that has the name or ends the directory. */
    method ScanCluster(cl: Cluster, name: seq<bv8>) returns (found: bool, ended: bool, index: nat)
      ensures index <= |cl| / 32 && (forall b: nat :: b < index ==> Skips(cl, b, name))
      ensures !found && !ended ==> index == |cl| / 32
      ensures found || ended ==> index < |cl| / 32
      ensures ended ==> Ends(cl, index)
      ensures found ==> Matches(cl, index, name)
    {
      hide Matches, Ends;
      index := 0;
      while index < |cl| / 32
        invariant index <= |cl| / 32 && (forall b: nat :: b < index ==> Skips(cl, b, name))
      {
        if Ends(cl, index) { return false, true, index; }
        if Matches(cl, index, name) { return true, false, index; }
        index := index + 1;
      }
      return false, false, index;
    }

    /** Searches a directory for a file name. */
    method FindEntry(dir: nat, file: seq<bv8>) returns (found: bool, cluster: nat, index: nat, ghost m: nat)
      requires Valid() && (2 <= dir < EOC ==> dir in chains)
      modifies this
      ensures Valid() && Fat() == old(Fat()) && data == old(data) && chains == old(chains)
      ensures !(2 <= dir < EOC) ==> !found
      ensures 2 <= dir < EOC ==> Skipped(data, chains[dir], size, ShortName(file), m, index)
      ensures found ==> 2 <= dir < EOC && m < |chains[dir]| && cluster == chains[dir][m] && cluster < |data|
      ensures found ==> 32 * index + 32 <= |data[cluster]| && Matches(data[cluster], index, ShortName(file))
      ensures 2 <= dir < EOC && !found ==>
        m == |chains[dir]| || (m < |chains[dir]| && EndsAt(data, chains[dir][m], index))
    {
      hide Geometry.Good, Geometry.Limit, Geometry.At, Overlay, Clean, Table, PutFrom, WellFormed, Matches, Skipped,
           ShortName;
      var name := FilenameToShort(file);
      found, cluster, index, m := SearchChain(dir, name);
    }

    /** The name in the 11 bytes of a record: base and extension in upper case, filled up with blanks. */
    method FilenameToShort(file: seq<bv8>) returns (name: seq<bv8>)
      ensures name == ShortName(file)
    {
      var dot := 0;
      while dot < |file| && file[dot] != DOT
        invariant dot <= |file| && DotFrom(file, 0) == DotFrom(file, dot)
      {
        dot := dot + 1;
      }
      var base := CopyUpper(file[..dot], 8);
      var ext := seq(3, _ => BLANK);
      if dot < |file| { ext := CopyUpper(file[dot + 1..], 3); }
      name := base + ext;
    }

    /** Up to `n` bytes in upper case, over blanks. */
    method CopyUpper(s: seq<bv8>, n: nat) returns (r: seq<bv8>)
      ensures r == Fill(s, n)
    {
      r := seq(n, _ => BLANK);
      var len := if |s| > n then n else |s|;
      var i := 0;
      while i < len
        invariant i <= len && |r| == n
        invariant forall k :: 0 <= k < n ==> r[k] == if k < i then Upper(s[k]) else BLANK
      {
        r := r[i := Upper(s[i])];
        i := i + 1;
      }
    }

    /** Searches the directory chain for a short name; ends because the chain does. All records before
        record `i` of the `m`-th cluster are neither the end mark nor the wanted one. */
    method SearchChain(dir: nat, name: seq<bv8>) returns (found: bool, cluster: nat, index: nat, ghost m: nat)
      requires Valid() && |name| == 11 && (2 <= dir < EOC ==> dir in chains)
      modifies this
      ensures Valid() && Fat() == old(Fat()) && data == old(data) && chains == old(chains)
      ensures !(2 <= dir < EOC) ==> !found
      ensures 2 <= dir < EOC ==> Skipped(data, chains[dir], size, name, m, index)
      ensures found ==> 2 <= dir < EOC && m < |chains[dir]| && cluster == chains[dir][m] && cluster < |data|
                        && 32 * index + 32 <= |data[cluster]| && Matches(data[cluster], index, name)
      ensures 2 <= dir < EOC && !found ==>
        m == |chains[dir]| || (m < |chains[dir]| && EndsAt(data, chains[dir][m], index))
    {
      hide Geometry.Good, Geometry.Limit, Geometry.At, Overlay, Clean, Table, PutFrom, WellFormed, Matches, Ends, Skips;
      var curr := dir;
      m, index, found, cluster := 0, 0, false, 0;
      if 2 <= dir < EOC { HeadOf(Fat(), chains, dir); }
      while 2 <= curr < EOC
        invariant Valid() && Fat() == old(Fat()) && data == old(data) && chains == old(chains) && index == 0 && !found
        invariant 2 <= dir < EOC ==> m <= |chains[dir]| && Skipped(data, chains[dir], size, name, m, 0)
        invariant 2 <= curr < EOC ==> 2 <= dir < EOC && m < |chains[dir]| && curr == chains[dir][m]
        invariant 2 <= dir < EOC && !(2 <= curr < EOC) ==> m == |chains[dir]|
        decreases if 2 <= dir < EOC then |chains[dir]| - m else 0
      {
        StepInChain(Fat(), chains, dir, m);
        cluster := curr;
        var ended;
        found, ended, index := ScanCluster(data[curr], name);
        NextSkipped(data, chains[dir], size, name, m, index);
        if found || ended { return; }
        curr := ReadFat(curr);
        m := m + 1;
        index := 0;
      }
    }
  }

  /** In no chain. */
  ghost predicate Outside(chains: map<nat, seq<nat>>, c: nat) {
    forall h :: h in chains ==> c !in chains[h]
  }

  lemma OwnCluster(t: seq<nat>, chains: map<nat, seq<nat>>, h: nat)
    requires WellFormed(t, chains) && h in chains
    ensures chains[h] != [] && 2 <= chains[h][|chains[h]| - 1] < |t| <= BAD
  {
  }

  lemma PutStep(g: Geometry, d: seq<Sector>, f: nat, c: nat, v: nat)
    requires g.Formatted(d) && f < g.copies && c < g.clusters
    ensures PutFrom(g, d, f, c, v) == PutFrom(g, Put(g, d, f, c, v), f + 1, c, v)
  {
  }

  lemma PutDone(g: Geometry, d: seq<Sector>, c: nat, v: nat)
    requires g.Formatted(d) && c < g.clusters
    ensures PutFrom(g, d, g.copies, c, v) == d
  {
  }

  lemma NextCopy(g: Geometry, f: nat, c: nat)
    requires g.Good() && 0 < f
    ensures g.At(f, c) == g.At(f - 1, c) + g.size
  {
    assert f * g.size == (f - 1) * g.size + g.size;
  }

  lemma HitIsClean(g: Geometry, disk: seq<Sector>, cached: nat, dirty: bool, buf: Sector)
    requires Clean(g, disk, cached, dirty, buf)
    ensures buf != [] && cached < g.start + g.size ==> cached < |disk| && disk[cached] == buf
  {
  }

  /** The bytes of the volume, its chains, and one file's first cluster and chain. */
  datatype File = File(data: seq<Cluster>, chains: map<nat, seq<nat>>, first: nat, chain: seq<nat>)

  /** No cluster the allocation scan sees is free. */
  ghost predicate Full(t: seq<nat>, scanned: nat) {
    forall x :: 2 <= x < scanned && x < |t| ==> t[x] != 0
  }

  /** The free clusters that the scan sees. */
  ghost function Spare(t: seq<nat>, scanned: nat): set<nat> {
    set x: nat | 2 <= x < scanned && x < |t| && t[x] == 0
  }

  lemma SpareNone(t: seq<nat>, scanned: nat)
    requires Full(t, scanned)
    ensures Spare(t, scanned) == {}
  {
  }

  lemma SpareSome(t: seq<nat>, scanned: nat)
    ensures !Full(t, scanned) ==> |Spare(t, scanned)| > 0
  {
    if x: nat :| 2 <= x < scanned && x < |t| && t[x] == 0 { assert x in Spare(t, scanned); }
  }

  lemma SpareTaken(t: seq<nat>, scanned: nat, c: nat)
    requires 2 <= c < scanned && c < |t| && t[c] == 0
    ensures |Spare(t[c := END], scanned)| == |Spare(t, scanned)| - 1
  {
    assert Spare(t[c := END], scanned) == Spare(t, scanned) - {c};
  }

  lemma SpareKept(t: seq<nat>, scanned: nat, c: nat, v: nat)
    requires c < |t| && t[c] != 0 && v != 0
    ensures Spare(t[c := v], scanned) == Spare(t, scanned)
  {
  }

  /** How much of `n` bytes fits into the room. */
  function Fitting(n: nat, room: int): int {
    if n <= room then n else room
  }

  /** The file's chain grew at its end by zeroed clusters that were in no chain; nothing else changed. */
  ghost predicate Grows(m: File, m': File, size: nat) {
    || m' == m
    || (exists c: nat :: GrownBy(m, m', c, size))
  }

  ghost predicate GrownBy(m: File, m': File, c: nat, size: nat) {
    c < |m.data| && Outside(m.chains, c) && m' == m.(data := m.data[c := Blank(size)],
      chain := m.chain + [c], chains := m.chains[m.first := m.chain + [c]])
  }

  /** Bytes `s` were written at position `pos` of the file: its chain grew at most at its end, by
      clusters that were in no chain; its content is the old one, zeros in the new clusters, with `s`
      spliced in; the other chains and every cluster outside the file are as before. */
  ghost predicate Written(m: File, m': File, size: nat, pos: nat, s: seq<bv8>) {
    && Shaped(m, size) && Shaped(m', size)
    && |m'.data| == |m.data| && m.chain <= m'.chain && m'.chains == m.chains[m'.first := m'.chain]
    && (m'.first in m.chains ==> m.chains[m'.first] == m.chain)
    && (forall i :: |m.chain| <= i < |m'.chain| ==> Outside(m.chains, m'.chain[i]))
    && (forall c :: 0 <= c < |m.data| && c !in m'.chain ==> m'.data[c] == m.data[c])
    && pos + |s| <= |Padded(m, m', size)|
    && Content(m'.data, m'.chain) == Splice(Padded(m, m', size), pos, s)
  }

  ghost predicate Shaped(m: File, size: nat) {
    Filled(m.data, size) && Inside(m.data, m.chain)
  }

  /** The old content followed by zeros up to the size of the new chain. */
  ghost function Padded(m: File, m': File, size: nat): seq<bv8>
    requires Inside(m.data, m.chain) && |m.chain| <= |m'.chain|
  {
    Content(m.data, m.chain) + Blank(Position(|m'.chain| - |m.chain|, size, 0))
  }

  /** The step from one cluster of a chain to the next. */
  lemma StepInChain(t: seq<nat>, chains: map<nat, seq<nat>>, h: nat, k: nat)
    requires WellFormed(t, chains) && h in chains && k < |chains[h]|
    ensures 2 <= chains[h][k] < |t| <= BAD
    ensures k + 1 < |chains[h]| ==> t[chains[h][k]] == chains[h][k + 1] && 2 <= chains[h][k + 1] < BAD
    ensures k + 1 == |chains[h]| ==> t[chains[h][k]] >= EOC
  {
  }

  lemma WrittenNothing(m: File, size: nat, k: nat, o: nat)
    requires Shaped(m, size) && k < |m.chain| && o <= size && m.first in m.chains && m.chains[m.first] == m.chain
    ensures Written(m, m, size, Position(k, size, o), [])
  {
    hide Position, Splice, Outside;
    SpliceRoom(m.data, m.chain, k, size, o, []);
    NoZeros(size);
    assert Padded(m, m, size) == Content(m.data, m.chain);
    SpliceNothing(Content(m.data, m.chain), Position(k, size, o));
  }

  lemma NoZeros(size: nat)
    ensures Blank(Position(0, size, 0)) == []
  {
  }

  lemma SpliceNothing(b: seq<bv8>, p: nat)
    requires p <= |b|
    ensures Splice(b, p, []) == b
  {
  }

  /** The first cluster of a file that had none. */
  lemma WrittenFirst(m: File, m': File, size: nat, c: nat, o: nat)
    requires Shaped(m, size) && m.chain == [] && c < |m.data| && Outside(m.chains, c) && c !in m.chains && o <= size
    requires m' == File(m.data[c := Blank(size)], m.chains[c := [c]], c, [c])
    ensures Written(m, m', size, Position(0, size, o), [])
  {
    hide Position, Splice, Outside;
    PositionPlus(0, size, o);
    FirstPosition(size);
    ContentGrow(m'.data, [], c);
    assert [] + [c] == [c];
    assert Content(m'.data, []) == [] && Content(m'.data, [c]) == Blank(size);
    assert Padded(m, m', size) == Blank(size);
    SpliceNothing(Blank(size), o);
  }

  lemma FirstPosition(size: nat)
    ensures Position(0, size, 0) == 0 && Position(1, size, 0) == size
  {
  }

  /** A chunk written in the current cluster right after the bytes written so far. */
  lemma WrittenChunk(m: File, m': File, m'': File, size: nat, pos: nat, s: seq<bv8>, k: nat, o: nat, chunk: seq<bv8>)
    requires Written(m, m', size, pos, s) && k < |m'.chain| && o + |chunk| <= size && Position(k, size, o) == pos + |s|
    requires forall i, j :: 0 <= i < j < |m'.chain| ==> m'.chain[i] != m'.chain[j]
    requires m'' == m'.(data := m'.data[m'.chain[k] := Splice(m'.data[m'.chain[k]], o, chunk)])
    ensures Written(m, m'', size, pos, s + chunk)
  {
    hide Position, Splice, Outside, Content, Blank;
    ContentSplice(m'.data, m'.chain, k, size, o, chunk);
    SpliceTwice(Padded(m, m', size), pos, s, chunk);
    assert Padded(m, m'', size) == Padded(m, m', size);
  }

  /** A zeroed cluster at the end of the chain. */
  lemma WrittenGrow(m: File, m': File, m'': File, size: nat, pos: nat, s: seq<bv8>, c: nat)
    requires Written(m, m', size, pos, s) && GrownBy(m', m'', c, size) && m'.first in m'.chains
    requires m'.chains[m'.first] == m'.chain
    ensures Written(m, m'', size, pos, s)
  {
    hide Position, Splice, Content;
    assert c !in m'.chain;
    GrownOutside(m, m', c);
    ContentFrame(m'.data, m''.data, m'.chain);
    ContentGrow(m''.data, m'.chain, c);
    ZerosGrow(|m'.chain| - |m.chain|, size);
    assert Padded(m, m'', size) == Padded(m, m', size) + Blank(size);
    SpliceFront(Padded(m, m', size), Blank(size), pos, s);
  }

  lemma GrownOutside(m: File, m': File, c: nat)
    requires m'.chains == m.chains[m'.first := m'.chain] && (m'.first in m.chains ==> m.chains[m'.first] == m.chain)
    requires m.chain <= m'.chain && Outside(m'.chains, c)
    ensures Outside(m.chains, c)
  {
    forall h | h in m.chains ensures c !in m.chains[h] {
      assert h in m'.chains && c !in m'.chains[h];
    }
  }

  lemma ZerosGrow(k: nat, size: nat)
    ensures Blank(Position(k + 1, size, 0)) == Blank(Position(k, size, 0)) + Blank(size)
  {
    NextPosition(k, size);
    PositionPlus(k, size, size);
  }

  lemma WrittenGrows(m: File, m': File, m'': File, size: nat, pos: nat, s: seq<bv8>)
    requires Written(m, m', size, pos, s) && Grows(m', m'', size) && m'.first in m'.chains
    requires m'.chains[m'.first] == m'.chain
    ensures Written(m, m'', size, pos, s)
  {
    hide Written, GrownBy;
    if m'' != m' {
      var c: nat :| GrownBy(m', m'', c, size);
      WrittenGrow(m, m', m'', size, pos, s, c);
    }
  }

  lemma Unrepeated(t: seq<nat>, chains: map<nat, seq<nat>>, h: nat)
    requires WellFormed(t, chains) && h in chains
    ensures forall i, j :: 0 <= i < j < |chains[h]| ==> chains[h][i] != chains[h][j]
  {
    forall i, j | 0 <= i < j < |chains[h]| ensures chains[h][i] != chains[h][j] { ChainAcyclic(t, chains[h], i, j); }
  }

  lemma ChainInside(t: seq<nat>, chains: map<nat, seq<nat>>, h: nat, data: seq<Cluster>)
    requires WellFormed(t, chains) && h in chains && |t| == |data|
    ensures Inside(data, chains[h])
  {
  }

  lemma OffsetMoves(offset: nat, chunk: nat, size: nat)
    requires 0 < size && offset % size + chunk <= size
    ensures (offset + chunk) % size == if offset % size + chunk == size then 0 else offset % size + chunk
  {
    var q := offset / size;
    assert offset + chunk == q * size + (offset % size + chunk);
    if offset % size + chunk == size {
      assert offset + chunk == (q + 1) * size + 0;
      Remainder(q + 1, 0, size);
    } else {
      Remainder(q, offset % size + chunk, size);
    }
  }

  lemma Remainder(q: nat, o: nat, size: nat)
    requires o < size
    ensures (q * size + o) % size == o
  {
    var x := q * size + o;
    assert x == x / size * size + x % size;
    SameStrip(q, o, x / size, x % size, size);
  }

  /** The content of the chain ends there. */
  ghost predicate AtEnd(data: seq<Cluster>, ch: seq<nat>, p: nat) {
    Inside(data, ch) && p == |Content(data, ch)|
  }

  ghost predicate ReadBack(data: seq<Cluster>, ch: seq<nat>, start: nat, out: seq<bv8>) {
    && Inside(data, ch) && start + |out| <= |Content(data, ch)|
    && out == Content(data, ch)[start..start + |out|]
  }

  lemma ReadNothing(data: seq<Cluster>, ch: seq<nat>, k: nat, size: nat, o: nat)
    requires Inside(data, ch) && Filled(data, size) && k < |ch| && o <= size
    ensures ReadBack(data, ch, Position(k, size, o), [])
  {
    SpliceRoom(data, ch, k, size, o, []);
  }

  /** The next bytes of the current cluster. */
  lemma ReadMore(data: seq<Cluster>, ch: seq<nat>, start: nat, out: seq<bv8>, k: nat, size: nat, o: nat, n: nat)
    requires ReadBack(data, ch, start, out) && Filled(data, size) && k < |ch| && o + n <= size
    requires Position(k, size, o) == start + |out|
    ensures ch[k] < |data| && ReadBack(data, ch, start, out + data[ch[k]][o..o + n])
  {
    hide Content, Position;
    ContentAt(data, ch, k, size);
    PositionPlus(k, size, o);
    PositionPlus(k, size, size);
    var b, p := Content(data, ch), Position(k, size, 0);
    PartOf(b, p, p + size, o, n);
    Adjoining(b, start, start + |out|, start + |out| + n);
  }

  lemma ReadsJoin(data: seq<Cluster>, ch: seq<nat>, p: nat, a: seq<bv8>, b: seq<bv8>)
    requires ReadBack(data, ch, p, a) && ReadBack(data, ch, p + |a|, b)
    ensures ReadBack(data, ch, p, a + b)
  {
    hide Content;
    Adjoining(Content(data, ch), p, p + |a|, p + |a| + |b|);
  }

  lemma PartOf(b: seq<bv8>, i: nat, j: nat, o: nat, n: nat)
    requires i <= j <= |b| && o + n <= j - i
    ensures b[i..j][o..o + n] == b[i + o..i + o + n]
  {
    var x, y := b[i..j][o..o + n], b[i + o..i + o + n];
    assert |x| == |y| && forall k :: 0 <= k < n ==> x[k] == b[i + o + k] == y[k];
    assert x == y;
  }

  lemma Adjoining(b: seq<bv8>, i: nat, j: nat, k: nat)
    requires i <= j <= k <= |b|
    ensures b[i..j] + b[j..k] == b[i..k]
  {
  }

  /** Past the last byte of a cluster comes the next cluster, or the end of the content. */
  lemma ChunkEnd(t: seq<nat>, chains: map<nat, seq<nat>>, h: nat, k: nat, data: seq<Cluster>, size: nat)
    requires WellFormed(t, chains) && h in chains && k < |chains[h]| && Filled(data, size) && |t| == |data|
    ensures Position(k + 1, size, 0) == Position(k, size, size) && Inside(data, chains[h]) && 2 <= chains[h][k] < |t|
    ensures t[chains[h][k]] >= EOC ==> AtEnd(data, chains[h], Position(k, size, size))
    ensures t[chains[h][k]] < EOC ==> k + 1 < |chains[h]| && t[chains[h][k]] == chains[h][k + 1]
  {
    hide WellFormed;
    NextPosition(k, size);
    StepInChain(t, chains, h, k);
    ChainInside(t, chains, h, data);
    ContentSize(data, chains[h], size);
  }

  lemma ZeroOnly(t: seq<nat>, chains: map<nat, seq<nat>>, h: nat, k: nat)
    requires WellFormed(t, chains)
    ensures h in chains && k < |chains[h]| ==> chains[h][k] >= 2
  {
  }

  lemma HeadOf(t: seq<nat>, chains: map<nat, seq<nat>>, h: nat)
    requires WellFormed(t, chains) && h in chains
    ensures chains[h] != [] && chains[h][0] == h
  {
  }

  lemma Begins(size: nat)
    requires size > 0
    ensures Position(0, size, 0 % size) == 0
  {
  }

  lemma WrittenReads(m: File, m': File, size: nat, s: seq<bv8>)
    requires Written(m, m', size, 0, s)
    ensures Inside(m'.data, m'.chain) && |s| <= |Content(m'.data, m'.chain)| && Content(m'.data, m'.chain)[..|s|] == s
  {
    hide Content, Outside;
    assert Splice(Padded(m, m', size), 0, s)[..|s|] == s;
  }

  lemma ReadPrefix(data: seq<Cluster>, ch: seq<nat>, out: seq<bv8>, s: seq<bv8>)
    requires ReadBack(data, ch, 0, out) && |out| == |s| <= |Content(data, ch)| && Content(data, ch)[..|s|] == s
    ensures out == s
  {
  }

  /** A write that starts where another ended completes it. */
  lemma WrittenTwice(m: File, m': File, m'': File, size: nat, pos: nat, a: seq<bv8>, b: seq<bv8>)
    requires Written(m, m', size, pos, a) && Written(m', m'', size, pos + |a|, b) && m''.first == m'.first
    requires m'.first in m'.chains && m'.chains[m'.first] == m'.chain
    ensures Written(m, m'', size, pos, a + b)
  {
    hide Content, Position, Splice, Blank, Padded;
    PaddedTwice(m, m', m'', size, pos, a);
    SpliceTwice(Padded(m, m'', size), pos, a, b);
    forall i | |m.chain| <= i < |m''.chain| ensures Outside(m.chains, m''.chain[i]) {
      if i >= |m'.chain| { GrownOutside(m, m', m''.chain[i]); }
    }
  }

  lemma PaddedTwice(m: File, m': File, m'': File, size: nat, pos: nat, a: seq<bv8>)
    requires Inside(m.data, m.chain) && Inside(m'.data, m'.chain) && |m.chain| <= |m'.chain| <= |m''.chain|
    requires pos + |a| <= |Padded(m, m', size)| && Content(m'.data, m'.chain) == Splice(Padded(m, m', size), pos, a)
    ensures pos + |a| <= |Padded(m, m'', size)| && Padded(m', m'', size) == Splice(Padded(m, m'', size), pos, a)
  {
    hide Content, Position, Splice;
    var j, k := |m'.chain| - |m.chain|, |m''.chain| - |m'.chain|;
    PositionSum(j, k, size);
    var z := Blank(Position(k, size, 0));
    assert Padded(m, m'', size) == Padded(m, m', size) + z;
    SpliceFront(Padded(m, m', size), z, pos, a);
  }

  lemma PositionSum(j: nat, k: nat, size: nat)
    ensures Position(j + k, size, 0) == Position(j, size, 0) + Position(k, size, 0)
  {
  }

  /** A write leaves every other file's chain and content alone. */
  lemma OthersKept(m: File, m': File, size: nat, pos: nat, s: seq<bv8>, x: nat)
    requires Written(m, m', size, pos, s) && Disjoint(m.chains) && x in m.chains && x != m'.first
    requires Inside(m.data, m.chains[x])
    requires m.chain == [] || (m'.first in m.chains && m.chains[m'.first] == m.chain)
    ensures x in m'.chains && m'.chains[x] == m.chains[x]
    ensures Inside(m'.data, m.chains[x]) && Content(m'.data, m.chains[x]) == Content(m.data, m.chains[x])
  {
    hide Content, Position, Splice, Padded;
    var ch := m.chains[x];
    forall i | 0 <= i < |ch| ensures m'.data[ch[i]] == m.data[ch[i]] {
      assert ch[i] in ch;
      forall j | 0 <= j < |m'.chain| ensures m'.chain[j] != ch[i] {
        if j < |m.chain| { assert m'.chain[j] in m.chain; } else { assert Outside(m.chains, m'.chain[j]); }
      }
    }
    ContentFrame(m.data, m'.data, ch);
  }

  /** The content starts with `b` and then the rest of `a`, not with `a`. */
  ghost predicate Overwritten(data: seq<Cluster>, ch: seq<nat>, a: seq<bv8>, b: seq<bv8>) {
    && Inside(data, ch) && |b| <= |a| <= |Content(data, ch)|
    && Content(data, ch)[..|a|] == b + a[|b|..]
    && (a[..|b|] != b ==> Content(data, ch)[..|a|] != a)
  }

  lemma Whole(size: nat)
    requires size > 0
    ensures (0 + size) % size == 0
  {
  }

  /** Two writes at the start of a file: the second covers the first. */
  lemma WrittenOver(m: File, m': File, m'': File, size: nat, a: seq<bv8>, b: seq<bv8>)
    requires Written(m, m', size, 0, a) && Written(m', m'', size, 0, b) && |b| <= |a|
    ensures Overwritten(m''.data, m''.chain, a, b)
  {
    hide Content, Outside, Position;
    var c := Content(m''.data, m''.chain);
    SpliceTwiceAt(Padded(m, m', size), Padded(m', m'', size), a, b);
    assert (b + a[|b|..])[..|b|] == b;
  }

  lemma SpliceTwiceAt(b: seq<bv8>, c: seq<bv8>, s: seq<bv8>, t: seq<bv8>)
    requires |s| <= |b| && |t| <= |s| && Splice(b, 0, s) <= c
    ensures Splice(c, 0, t)[..|s|] == t + s[|t|..]
  {
    assert Splice(b, 0, s)[..|s|] == s;
    assert c[..|s|] == s;
  }

  // ---------------------------------------------------------------- directories

  const LONGNAME: bv8 := 0x0F
  const DOT: bv8 := 0x2E
  const BLANK: bv8 := 0x20

  function Upper(c: bv8): bv8 {
    if 0x61 <= c <= 0x7A then c - 0x20 else c
  }

  /** The first `n` bytes in upper case, filled up with blanks. */
  function Fill(s: seq<bv8>, n: nat): (r: seq<bv8>)
    ensures |r| == n
  {
    seq(n, k requires 0 <= k < n => if k < |s| then Upper(s[k]) else BLANK)
  }

  /** The first dot from `k` on, the length when there is none. */
  function DotFrom(s: seq<bv8>, k: nat): (d: nat)
    requires k <= |s|
    ensures k <= d <= |s|
    decreases |s| - k
  {
    if k == |s| || s[k] == DOT then k else DotFrom(s, k + 1)
  }

  /** The short name of a file: eight bytes of its base, three of what follows the first dot. */
  function ShortName(file: seq<bv8>): (name: seq<bv8>)
    ensures |name| == 11
  {
    var d := DotFrom(file, 0);
    Fill(file[..d], 8) + Fill(if d < |file| then file[d + 1..] else [], 3)
  }

  /** Byte by byte: the base up to the first dot, cut to eight bytes, and the three bytes behind the dot,
      in upper case, with blanks for what is missing. */
  lemma ShortNameBytes(file: seq<bv8>, d: nat, k: nat)
    requires d <= |file| && DOT !in file[..d] && (d < |file| ==> file[d] == DOT)
    ensures k < 8 ==> ShortName(file)[k] == if k < d then Upper(file[k]) else 0x20
    ensures k < 3 ==> ShortName(file)[8 + k] == if d + 1 + k < |file| then Upper(file[d + 1 + k]) else 0x20
  {
    FirstDot(file, d, 0);
  }

  lemma {:induction false} FirstDot(file: seq<bv8>, d: nat, k: nat)
    requires k <= d <= |file| && DOT !in file[..d] && (d < |file| ==> file[d] == DOT)
    ensures DotFrom(file, k) == d
    decreases d - k
  {
    if k < d {
      assert file[..d][k] != DOT;
      FirstDot(file, d, k + 1);
    }
  }

  /** Upper case clears the case bit of the ASCII letters and leaves every other byte alone. */
  lemma UpperIs(c: bv8)
    ensures Upper(c) == if 0x61 <= c && c <= 0x7A then c & 0xDF else c
  {
  }

  function Uppercase(s: seq<bv8>): (r: seq<bv8>)
    ensures |r| == |s| && forall k :: 0 <= k < |s| ==> r[k] == Upper(s[k])
  {
    seq(|s|, k requires 0 <= k < |s| => Upper(s[k]))
  }

  /** Names that differ only in case are one file. */
  lemma ShortNameFoldsCase(file: seq<bv8>)
    ensures ShortName(Uppercase(file)) == ShortName(file)
  {
    DotFoldsCase(file, 0);
    var d := DotFrom(file, 0);
    var u := Uppercase(file);
    assert forall c: bv8 :: Upper(Upper(c)) == Upper(c);
    assert Fill(u[..d], 8) == Fill(file[..d], 8);
    if d < |file| { assert Fill(u[d + 1..], 3) == Fill(file[d + 1..], 3); }
  }

  lemma {:induction false} DotFoldsCase(file: seq<bv8>, k: nat)
    requires k <= |file|
    ensures DotFrom(Uppercase(file), k) == DotFrom(file, k)
    decreases |file| - k
  {
    if k < |file| && file[k] != DOT {
      UpperKeepsDot(file[k]);
      DotFoldsCase(file, k + 1);
    }
  }

  lemma UpperKeepsDot(c: bv8)
    ensures Upper(c) == DOT <==> c == DOT
  {
  }

  /** A directory record starts with its short name; a zero byte there ends the directory. */
  predicate Ends(cl: Cluster, i: nat)
    requires 32 * i + 32 <= |cl|
  {
    cl[32 * i] == 0
  }

  /** A live record, not part of a long name, with the wanted short name. */
  predicate Matches(cl: Cluster, i: nat, name: seq<bv8>)
    requires 32 * i + 32 <= |cl|
  {
    cl[32 * i] != 0xE5 && cl[32 * i + 11] != LONGNAME && cl[32 * i..32 * i + 11] == name
  }

  /** A directory record of section 6 of the Microsoft FAT specification: eleven bytes of name, the
      attributes, and twenty bytes that a search does not look at. */
  datatype Record = Record(name: seq<bv8>, attributes: bv8, rest: seq<bv8>)
  {
    ghost predicate Valid() { |name| == 11 && |rest| == 20 }

    function Bytes(): seq<bv8> { name + [attributes] + rest }
  }

  /** Of a directory laid out as records, a search looks at the `i`-th: a name that starts with zero ends
      the directory; a deleted record and a part of a long name are passed over. */
  lemma RecordFields(cl: Cluster, i: nat, r: Record, name: seq<bv8>)
    requires r.Valid() && 32 * i + 32 <= |cl| && cl[32 * i..32 * i + 32] == r.Bytes()
    ensures Ends(cl, i) <==> r.name[0] == 0
    ensures Matches(cl, i, name) <==> r.name == name && r.name[0] != 0xE5 && r.attributes != 0x0F
  {
    var b := cl[32 * i..32 * i + 32];
    assert b[0] == cl[32 * i] && b[11] == cl[32 * i + 11] && b[..11] == cl[32 * i..32 * i + 11];
    assert r.Bytes()[0] == r.name[0] && r.Bytes()[11] == r.attributes && r.Bytes()[..11] == r.name;
  }

  ghost predicate Skips(cl: Cluster, i: nat, name: seq<bv8>) {
    32 * i + 32 <= |cl| && !Ends(cl, i) && !Matches(cl, i, name)
  }

  ghost predicate EndsAt(data: seq<Cluster>, c: nat, i: nat) {
    c < |data| && 32 * i + 32 <= |data[c]| && Ends(data[c], i)
  }

  lemma NextSkipped(data: seq<Cluster>, ch: seq<nat>, size: nat, name: seq<bv8>, m: nat, i: nat)
    requires Skipped(data, ch, size, name, m, 0) && m < |ch| && ch[m] < |data| && |data[ch[m]]| == size
    requires i <= size / 32 && forall b: nat :: b < i ==> Skips(data[ch[m]], b, name)
    ensures Skipped(data, ch, size, name, m, i) && (i == size / 32 ==> Skipped(data, ch, size, name, m + 1, 0))
  {
  }

  ghost predicate SkippedTo(data: seq<Cluster>, c: nat, i: nat, name: seq<bv8>) {
    c < |data| && forall b: nat :: b < i ==> Skips(data[c], b, name)
  }

  ghost predicate Skipped(data: seq<Cluster>, ch: seq<nat>, size: nat, name: seq<bv8>, m: nat, i: nat) {
    && (forall a: nat :: a < |ch| && a < m ==> SkippedTo(data, ch[a], size / 32, name))
    && (m < |ch| && i > 0 ==> SkippedTo(data, ch[m], i, name))
  }
}

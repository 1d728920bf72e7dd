/** The ELF loader of elf.cpp ("Program Header" and "Program Loading", chapter 5 of the System V
    gABI): segments are copied page by page into fresh frames and mapped in the new address space. */
module Elf {
  import opened Bits
  import opened Common
  import opened PageTables
  import opened Paging
  import opened Pmm

  const USER_LIMIT: nat := 0x8000_0000_0000   // the end of the user half

  // ---------------------------------------------------------------- the bytes of a page

  /** The low `n` bytes of a number, lowest first. */
  function BytesOf(v: nat, n: nat): (b: seq<byte>)
    ensures |b| == n
  {
    if n == 0 then [] else [v % 256] + BytesOf(v / 256, n - 1)
  }

  function ValueOf(b: seq<byte>): nat {
    if b == [] then 0 else b[0] + 256 * ValueOf(b[1..])
  }

  lemma {:induction false} BytesOfValue(b: seq<byte>)
    ensures BytesOf(ValueOf(b), |b|) == b
  {
    if b != [] {
      BytesOfValue(b[1..]);
      assert ValueOf(b) % 256 == b[0] && ValueOf(b) / 256 == ValueOf(b[1..]);
    }
  }

  function WordOf(v: nat): Word {
    Word(v / 0x1000, v % 0x1000)
  }

  function WordValue(w: Word): nat {
    w.frame * 0x1000 + w.flags
  }

  /** An entry as a 64-bit number (section 4.5 of the Intel SDM, Volume 3A): bit 0 is present, bit 1
      writable, bit 2 user, and the frame number starts at bit 12. */
  lemma EntryBits(w: Word)
    ensures Present(w) <==> WordValue(w) % 2 == 1
    ensures Writable(w) <==> WordValue(w) / 2 % 2 == 1
    ensures User(w) <==> WordValue(w) / 4 % 2 == 1
    ensures w.frame == WordValue(w) / 0x1000 && WordOf(WordValue(w)) == w
    ensures WordValue(Word(w.frame, PRESENT_WRITABLE_USER)) == w.frame * 0x1000 + 7
  {
    var f, g := w.frame, w.flags;
    DivModUnique(WordValue(w), 0x1000, f, g);
    Halved(2048 * f, g);
    Halved(1024 * f, g / 2);
    Halved(512 * f, g / 4);
    assert WordValue(w) / 2 == 1024 * f * 2 + g / 2 && WordValue(w) / 4 == 512 * f * 2 + g / 4;
  }

  lemma Halved(a: nat, b: nat)
    ensures (2 * a + b) % 2 == b % 2 && (2 * a + b) / 2 == a + b / 2
  {
  }

  function WordBytes(w: Word): (b: seq<byte>)
    ensures |b| == 8
  {
    BytesOf(WordValue(w), 8)
  }

  /** A frame seen as bytes, eight to a word. */
  function PageBytes(page: seq<Word>): (b: seq<byte>)
    ensures |b| == 8 * |page|
  {
    if page == [] then [] else WordBytes(page[0]) + PageBytes(page[1..])
  }

  /** The frame that holds given bytes. */
  function PageOf(b: seq<byte>): (page: seq<Word>)
    ensures |page| == |b| / 8
  {
    if |b| < 8 then [] else [WordOf(ValueOf(b[..8]))] + PageOf(b[8..])
  }

  lemma WordRoundTrip(b: seq<byte>)
    requires |b| == 8
    ensures WordBytes(WordOf(ValueOf(b))) == b
  {
    hide BytesOf, ValueOf;
    BytesOfValue(b);
  }

  lemma {:induction false} BytesOfPage(b: seq<byte>)
    requires |b| % 8 == 0
    ensures PageBytes(PageOf(b)) == b
    decreases |b|
  {
    hide WordBytes, ValueOf, WordOf;
    if |b| >= 8 {
      WordRoundTrip(b[..8]);
      BytesOfPage(b[8..]);
      assert PageOf(b)[1..] == PageOf(b[8..]);
      assert b == b[..8] + b[8..];
    }
  }

  function ZeroBytes(n: nat): (b: seq<byte>)
    ensures |b| == n && forall i :: 0 <= i < n ==> b[i] == 0
  {
    seq(n, _ => 0)
  }

  lemma {:induction false} ZeroWord(n: nat)
    ensures BytesOf(0, n) == ZeroBytes(n)
  {
    if n > 0 { ZeroWord(n - 1); }
  }

  lemma ZeroWordBytes()
    ensures WordBytes(ZERO) == ZeroBytes(8)
  {
    hide BytesOf;
    var n := 8;
    ZeroWord(n);
  }

  lemma {:induction false} ZeroPage(page: seq<Word>)
    requires forall i :: 0 <= i < |page| ==> page[i] == ZERO
    ensures PageBytes(page) == ZeroBytes(8 * |page|)
  {
    hide WordBytes;
    if page != [] {
      ZeroPage(page[1..]);
      ZeroWordBytes();
    }
  }

  // ---------------------------------------------------------------- the file

  /** The number of `n` bytes at `at`, lowest byte first. */
  function Number(data: seq<byte>, at: nat, n: nat): nat
    requires at + n <= |data|
  {
    ValueOf(data[at..at + n])
  }

  datatype Segment = Segment(load: bool, offset: nat, vaddr: nat, filesz: nat, memsz: nat)

  const HEADER: nat := 64
  const ENTRY: nat := 56   // size of a program header

  predicate IsElf(data: seq<byte>)
    requires |data| >= 4
  {
    data[0] == 0x7F && data[1] == 'E' as int && data[2] == 'L' as int && data[3] == 'F' as int
  }

  function EntryPoint(data: seq<byte>): nat requires |data| >= HEADER { Number(data, 24, 8) }
  function TableAt(data: seq<byte>): nat requires |data| >= HEADER { Number(data, 32, 8) }
  function TableSize(data: seq<byte>): nat requires |data| >= HEADER { Number(data, 56, 2) }

  /** Program header `i`. */
  function SegmentAt(data: seq<byte>, i: nat): Segment
    requires |data| >= HEADER && TableAt(data) + ENTRY * (i + 1) <= |data|
  {
    var at := TableAt(data) + ENTRY * i;
    Segment(Number(data, at, 4) == 1, Number(data, at + 8, 8), Number(data, at + 16, 8), Number(data, at + 32, 8),
            Number(data, at + 40, 8))
  }

  // ---------------------------------------------------------------- the headers as a compiler writes them

  /** The file header of the gABI, field by field; `ident` starts with the magic number. */
  datatype FileHeader = FileHeader(ident: seq<byte>, etype: nat, machine: nat, version: nat, entry: nat, phoff: nat,
                                   shoff: nat, flags: nat, ehsize: nat, phentsize: nat, phnum: nat, rest: seq<byte>)
  {
    ghost predicate Valid() {
      |ident| == 16 && |rest| == 6 && entry < Pow2(64) && phoff < Pow2(64) && phnum < Pow2(16)
    }

    function Bytes(): seq<byte> {
      ident + (BytesOf(etype, 2) + (BytesOf(machine, 2) + (BytesOf(version, 4) + (BytesOf(entry, 8)
      + (BytesOf(phoff, 8) + (BytesOf(shoff, 8) + (BytesOf(flags, 4) + (BytesOf(ehsize, 2)
      + (BytesOf(phentsize, 2) + (BytesOf(phnum, 2) + rest))))))))))
    }
  }

  /** A program header, field by field. */
  datatype ProgramHeader = ProgramHeader(ptype: nat, flags: nat, offset: nat, vaddr: nat, paddr: nat, filesz: nat,
                                         memsz: nat, align: nat)
  {
    ghost predicate Valid() {
      ptype < Pow2(32) && offset < Pow2(64) && vaddr < Pow2(64) && filesz < Pow2(64) && memsz < Pow2(64)
    }

    function Bytes(): seq<byte> {
      BytesOf(ptype, 4) + (BytesOf(flags, 4) + (BytesOf(offset, 8) + (BytesOf(vaddr, 8) + (BytesOf(paddr, 8)
      + (BytesOf(filesz, 8) + (BytesOf(memsz, 8) + BytesOf(align, 8)))))))
    }
  }

  lemma {:induction false} ValueOfBytes(v: nat, n: nat)
    requires v < Pow2(8 * n)
    ensures ValueOf(BytesOf(v, n)) == v
    decreases n
  {
    hide Pow2;
    if n == 0 {
      Pow2Small();
    } else {
      Pow2Add(8, 8 * (n - 1));
      Pow2Small();
      ValueOfBytes(v / 256, n - 1);
      assert BytesOf(v, n)[1..] == BytesOf(v / 256, n - 1);
    }
  }

  /** The first of two fields that lie at `at`, and the place of the second. */
  lemma FieldSplits(data: seq<byte>, at: nat, a: seq<byte>, b: seq<byte>)
    requires at + |a| + |b| <= |data| && data[at..at + |a| + |b|] == a + b
    ensures data[at..at + |a|] == a && data[at + |a|..at + |a| + |b|] == b
  {
    var x := data[at..at + |a| + |b|];
    assert x[..|a|] == data[at..at + |a|] && x[|a|..] == data[at + |a|..at + |a| + |b|];
  }

  /** A number that was written at `at`, with more behind it. */
  lemma NumberAt(data: seq<byte>, at: nat, v: nat, n: nat, rest: seq<byte>)
    requires at + n + |rest| <= |data| && data[at..at + n + |rest|] == BytesOf(v, n) + rest
    ensures data[at + n..at + n + |rest|] == rest && (v < Pow2(8 * n) ==> Number(data, at, n) == v)
  {
    hide Pow2, BytesOf, ValueOf;
    FieldSplits(data, at, BytesOf(v, n), rest);
    if v < Pow2(8 * n) { ValueOfBytes(v, n); }
  }

  /** The loader reads from the file header what was written there. */
  lemma HeaderFields(data: seq<byte>, h: FileHeader)
    requires h.Valid() && |data| >= HEADER && data[..HEADER] == h.Bytes()
    ensures EntryPoint(data) == h.entry && TableAt(data) == h.phoff && TableSize(data) == h.phnum
    ensures IsElf(data) <==> h.ident[..4] == [0x7F, 0x45, 0x4C, 0x46]
  {
    hide Pow2, BytesOf, Number;
    var r11 := h.rest;
    var r10 := BytesOf(h.phnum, 2) + r11;
    var r9 := BytesOf(h.phentsize, 2) + r10;
    var r8 := BytesOf(h.ehsize, 2) + r9;
    var r7 := BytesOf(h.flags, 4) + r8;
    var r6 := BytesOf(h.shoff, 8) + r7;
    var r5 := BytesOf(h.phoff, 8) + r6;
    var r4 := BytesOf(h.entry, 8) + r5;
    var r3 := BytesOf(h.version, 4) + r4;
    var r2 := BytesOf(h.machine, 2) + r3;
    var r1 := BytesOf(h.etype, 2) + r2;
    assert data[..HEADER] == data[0..HEADER];
    FieldSplits(data, 0, h.ident, r1);
    NumberAt(data, 16, h.etype, 2, r2);
    NumberAt(data, 18, h.machine, 2, r3);
    NumberAt(data, 20, h.version, 4, r4);
    NumberAt(data, 24, h.entry, 8, r5);
    NumberAt(data, 32, h.phoff, 8, r6);
    NumberAt(data, 40, h.shoff, 8, r7);
    NumberAt(data, 48, h.flags, 4, r8);
    NumberAt(data, 52, h.ehsize, 2, r9);
    NumberAt(data, 54, h.phentsize, 2, r10);
    NumberAt(data, 56, h.phnum, 2, r11);
    assert data[0..16] == h.ident;
    assert h.ident[..4] == data[..4] == [data[0], data[1], data[2], data[3]];
  }

  /** The loader reads from a program header what was written there; only type 1 is loaded. */
  lemma SegmentFields(data: seq<byte>, i: nat, h: ProgramHeader)
    requires h.Valid() && |data| >= HEADER && TableAt(data) + ENTRY * (i + 1) <= |data|
    requires data[TableAt(data) + ENTRY * i..TableAt(data) + ENTRY * (i + 1)] == h.Bytes()
    ensures SegmentAt(data, i) == Segment(h.ptype == 1, h.offset, h.vaddr, h.filesz, h.memsz)
  {
    hide Pow2, BytesOf, Number, TableAt;
    var at := TableAt(data) + ENTRY * i;
    var r7 := BytesOf(h.align, 8);
    var r6 := BytesOf(h.memsz, 8) + r7;
    var r5 := BytesOf(h.filesz, 8) + r6;
    var r4 := BytesOf(h.paddr, 8) + r5;
    var r3 := BytesOf(h.vaddr, 8) + r4;
    var r2 := BytesOf(h.offset, 8) + r3;
    var r1 := BytesOf(h.flags, 4) + r2;
    NumberAt(data, at, h.ptype, 4, r1);
    NumberAt(data, at + 4, h.flags, 4, r2);
    NumberAt(data, at + 8, h.offset, 8, r3);
    NumberAt(data, at + 16, h.vaddr, 8, r4);
    NumberAt(data, at + 24, h.paddr, 8, r5);
    NumberAt(data, at + 32, h.filesz, 8, r6);
    NumberAt(data, at + 40, h.memsz, 8, r7);
  }

  function First(g: Segment): nat { g.vaddr / PAGE_SIZE }
  function Last(g: Segment): nat { (g.vaddr + g.memsz + 0xFFF) / PAGE_SIZE }

  /** The segment has a page at page number `p`. */
  predicate Covers(g: Segment, p: nat) {
    g.load && First(g) <= p < Last(g)
  }

  /** The segment lies in user space and its bytes lie in the file. */
  predicate Sound(data: seq<byte>, g: Segment) {
    g.load ==> g.vaddr + g.memsz <= USER_LIMIT && g.offset + g.filesz <= |data|
  }

  ghost predicate WellFormed(data: seq<byte>) {
    && |data| >= HEADER && TableAt(data) + ENTRY * TableSize(data) <= |data|
    && forall i: nat :: i < TableSize(data) ==> Sound(data, SegmentAt(data, i))
  }

  /** What page `p` of a segment holds: the file's bytes where the file reaches, zeros elsewhere. */
  function Image(data: seq<byte>, g: Segment, p: nat): (b: seq<byte>)
    requires g.offset + g.filesz <= |data|
    ensures |b| == PAGE_SIZE
  {
    seq(PAGE_SIZE, k requires 0 <= k < PAGE_SIZE =>
      var a := p * PAGE_SIZE + k;
      if g.vaddr <= a < g.vaddr + g.filesz then data[g.offset + a - g.vaddr] else 0)
  }

  /** The last loadable segment among the first `n` that has a page at `p`; the loader lets it win. */
  function Winner(data: seq<byte>, n: nat, p: nat): (r: Option<nat>)
    requires |data| >= HEADER && TableAt(data) + ENTRY * TableSize(data) <= |data| && n <= TableSize(data)
    ensures r.Some? ==> r.value < n && Covers(SegmentAt(data, r.value), p)
    ensures forall i: nat :: i < n && (r.None? || i > r.value) ==> !Covers(SegmentAt(data, i), p)
  {
    if n == 0 then None
    else if Covers(SegmentAt(data, n - 1), p) then Some(n - 1)
    else Winner(data, n - 1, p)
  }

  // ---------------------------------------------------------------- the loaded pages

  /** Page `p` of space `s` is a user page of its own, mapped present, writable and user, and holds `b`. */
  ghost predicate PageIs(w: World, s: nat, p: nat, b: seq<byte>) {
    var e := Lookup(w.mem, s, PageVa(p));
    && e.Some? && e.value.flags == PRESENT_WRITABLE_USER
    && e.value.frame in w.leaf && w.leaf[e.value.frame].va == PageVa(p)
    && e.value.frame < |w.mem| && PageBytes(w.mem[e.value.frame]) == b
  }

  const PAGES: nat := 0x8_0000_0000   // page numbers of the user half

  lemma PageNumber(p: nat)
    requires p < PAGES
    ensures ValidVa(PageVa(p)) && PageVa(p).i4 < USER_HALF && AddrOf(PageVa(p)) == p * PAGE_SIZE
  {
    hide VaOf;
    var q1 := p / 512;
    var q2 := q1 / 512;
    var v := Va(q2 / 512, q2 % 512, q1 % 512, p % 512);
    assert AddrOf(v) == p * PAGE_SIZE;
    VaRoundTrip(v);
  }

  lemma PagesApart(p: nat, q: nat)
    requires p < PAGES && q < PAGES && p != q
    ensures PageVa(p) != PageVa(q)
  {
    hide PageVa, AddrOf;
    PageNumber(p);
    PageNumber(q);
  }

  /** A user page is recorded under its own address. */
  lemma Recorded(w: World, s: nat, v: Va)
    requires w.Inv() && w.Space(s) && ValidVa(v) && UserPage(Lookup(w.mem, s, v))
    ensures var f := Lookup(w.mem, s, v).value.frame; w.Fb(f) || (f in w.leaf && w.leaf[f].va == v)
  {
    UserRecord(w, s, s, v);
  }

  /** A frame taken and written: other pages stay. */
  lemma TakenKeeps(w: World, f: nat, page: seq<Word>, s: nat, p: nat, b: seq<byte>)
    requires w.Inv() && w.Space(s) && f in w.free && f < FRAMES && PageIs(w, s, p, b) && ValidVa(PageVa(p))
    requires SameLookups(w, WriteFrame(w, f, page, w.free - {f}))
    ensures PageIs(WriteFrame(w, f, page, w.free - {f}), s, p, b)
  {
    hide Lookup, PageBytes, PageVa, World.Tables, World.Trees, World.LeafEntries, World.Leaves, World.Reachable,
         World.Shares;
  }

  /** A page mapped elsewhere: other pages stay. */
  lemma MappedKeeps(w: World, w': World, s: nat, q: nat, x: Word, p: nat, b: seq<byte>)
    requires w.Inv() && w.Space(s) && Remapped(w, w', s, PageVa(q), x) && Present(x) && PageIs(w, s, p, b)
    requires ValidVa(PageVa(p)) && ValidVa(PageVa(q)) && PageVa(p) != PageVa(q) && x.frame !in w.leaf
    ensures PageIs(w', s, p, b)
  {
    hide Lookup, PageBytes, PageVa, World.Tables, World.Trees, World.LeafEntries, World.Leaves, World.Reachable,
         World.Shares, World.OwnPath;
    var e := Lookup(w.mem, s, PageVa(q));
    if UserPage(e) { Recorded(w, s, PageVa(q)); }
    var f := Lookup(w.mem, s, PageVa(p)).value.frame;
    assert f !in w.free && f !in w.role;
  }

  /** Bytes written into another frame: the page stays. */
  lemma WrittenKeeps(w: World, f: nat, page: seq<Word>, s: nat, p: nat, b: seq<byte>)
    requires w.Inv() && w.Space(s) && f < FRAMES && PageIs(w, s, p, b) && ValidVa(PageVa(p))
    requires SameLookups(w, WriteFrame(w, f, page, w.free))
    requires Lookup(w.mem, s, PageVa(p)).value.frame != f
    ensures PageIs(WriteFrame(w, f, page, w.free), s, p, b)
  {
    hide Lookup, PageBytes, PageVa, World.Tables, World.Trees, World.LeafEntries, World.Leaves, World.Reachable,
         World.Shares;
  }

  /** The segment whose bytes page `p` should hold once segment `i` is loaded up to page `q`. */
  function Expect(data: seq<byte>, i: nat, q: nat, p: nat): (r: Option<nat>)
    requires WellFormed(data) && i <= TableSize(data)
    ensures r.Some? ==> r.value < TableSize(data) && Covers(SegmentAt(data, r.value), p)
  {
    if i < TableSize(data) && Covers(SegmentAt(data, i), p) && p < q then Some(i) else Winner(data, i, p)
  }

  ghost predicate Progress(w: World, s: nat, data: seq<byte>, i: nat, q: nat)
    requires WellFormed(data) && i <= TableSize(data)
  {
    forall p: nat :: p < PAGES && Expect(data, i, q, p).Some? ==> PageDone(w, s, data, Expect(data, i, q, p).value, p)
  }

  ghost predicate PageDone(w: World, s: nat, data: seq<byte>, i: nat, p: nat) {
    && |data| >= HEADER && TableAt(data) + ENTRY * (i + 1) <= |data|
    && SegmentAt(data, i).offset + SegmentAt(data, i).filesz <= |data|
    && PageIs(w, s, p, Image(data, SegmentAt(data, i), p))
  }

  /** The space can take every page of the file: it has its own tables there. */
  ghost predicate Ready(w: World, s: nat, data: seq<byte>)
    requires WellFormed(data)
  {
    && w.Space(s) && s != w.kernel
    && forall p: nat, i: nat :: i < TableSize(data) && Covers(SegmentAt(data, i), p) ==> w.OwnPath(s, PageVa(p))
  }

  /** No frame the loader could get is free. */
  ghost predicate Exhausted(w: World) {
    forall f :: f in w.free ==> f >= FRAMES
  }

  /** The translations of the other spaces. */
  ghost predicate OthersKept(w: World, w': World, s: nat) {
    && (forall r :: w.Space(r) ==> w'.Space(r)) && w'.kernel == w.kernel
    && (forall r, v :: w.Space(r) && r != s && ValidVa(v) ==> Lookup(w'.mem, r, v) == Lookup(w.mem, r, v))
  }

  lemma OthersTwice(w: World, w1: World, w2: World, s: nat)
    requires OthersKept(w, w1, s) && OthersKept(w1, w2, s)
    ensures OthersKept(w, w2, s)
  {
    hide Lookup;
  }

  lemma ReadyKept(w: World, w': World, s: nat, data: seq<byte>)
    requires WellFormed(data) && Ready(w, s, data) && OwnPathsKept(w, w') && w'.Space(s) && w'.kernel == w.kernel
    ensures Ready(w', s, data)
  {
    hide World.OwnPath, PageVa, Covers, SegmentAt;
  }

  /** What mapping a page, or failing to, leaves alone. */
  lemma MapOthers(w: World, w': World, s: nat, v: Va, x: Word)
    requires w.Space(s) && (Remapped(w, w', s, v, x) || Grows(w, w', s))
    ensures OthersKept(w, w', s) && OwnPathsKept(w, w') && w'.Space(s) && w'.kernel == w.kernel
    ensures forall f :: 0 <= f < |w.mem| && f !in w.free && f !in w.role ==> f < |w'.mem| && w'.mem[f] == w.mem[f]
    ensures forall f :: f in w'.free ==> f in w.free
  {
    hide Lookup, World.OwnPath;
  }

  lemma WriteOthers(w: World, c: nat, page: seq<Word>, free: set<nat>, s: nat)
    requires w.Inv() && c < FRAMES && c !in w.role && |page| == ENTRIES && free <= w.free
    ensures var w' := WriteFrame(w, c, page, free);
      w'.Inv() && SameLookups(w, w') && OthersKept(w, w', s) && OwnPathsKept(w, w')
  {
    hide Lookup, World.OwnPath, World.Tables, World.Trees, World.LeafEntries, World.Leaves, World.Reachable,
         World.Shares;
    WriteFrameKeeps(w, c, page, free);
  }

  lemma CoversPage(data: seq<byte>, i: nat, p: nat)
    requires WellFormed(data) && i < TableSize(data) && Covers(SegmentAt(data, i), p)
    ensures p < PAGES && SegmentAt(data, i).offset + SegmentAt(data, i).filesz <= |data|
  {
    assert Sound(data, SegmentAt(data, i));
  }

  lemma LoadAllowed(w: World, w1: World, s: nat, data: seq<byte>, i: nat, p: nat, f: nat)
    requires WellFormed(data) && Ready(w, s, data) && i < TableSize(data) && Covers(SegmentAt(data, i), p)
    requires w.Inv() && f in w.free && f < FRAMES && w1 == WriteFrame(w, f, Zeros(), w.free - {f})
    requires OwnPathsKept(w, w1)
    ensures MapAllowed(w1, s, PageVa(p), Word(f, PRESENT_WRITABLE_USER))
  {
    hide World.OwnPath, World.Tables, World.Trees, World.LeafEntries, World.Leaves, World.Reachable, World.Shares,
         PageVa, SegmentAt, Covers;
    CoversPage(data, i, p);
    PageNumber(p);
  }

  /** One page is loaded: it holds its image, and the pages loaded before still hold theirs. */
  lemma PageLoaded(w: World, w1: World, w2: World, w3: World, s: nat, data: seq<byte>, i: nat, p: nat, f: nat)
    requires WellFormed(data) && i < TableSize(data) && Covers(SegmentAt(data, i), p) && Progress(w, s, data, i, p)
    requires w.Inv() && w1.Inv() && w2.Inv() && w.Space(s) && f in w.free && f < FRAMES
    requires SegmentAt(data, i).offset + SegmentAt(data, i).filesz <= |data|
    requires w1 == WriteFrame(w, f, Zeros(), w.free - {f}) && SameLookups(w, w1)
    requires Remapped(w1, w2, s, PageVa(p), Word(f, PRESENT_WRITABLE_USER)) && w2.Space(s)
    requires w3 == WriteFrame(w2, f, PageOf(Image(data, SegmentAt(data, i), p)), w2.free) && SameLookups(w2, w3)
    ensures Progress(w3, s, data, i, p + 1)
  {
    hide Lookup, World.OwnPath, World.Tables, World.Trees, World.LeafEntries, World.Leaves, World.Reachable,
         World.Shares, PageVa, SegmentAt, Covers, Winner, PageBytes, PageOf, Image, PageIs, Remapped;
    CoversPage(data, i, p);
    NewPage(w1, w2, w3, s, p, f, Image(data, SegmentAt(data, i), p));
    var next := p + 1;
    forall q: nat | q < PAGES && Expect(data, i, next, q).Some?
      ensures PageDone(w3, s, data, Expect(data, i, next, q).value, q)
    {
      if q != p {
        assert Expect(data, i, next, q) == Expect(data, i, p, q);
        var j := Expect(data, i, p, q).value;
        assert PageDone(w, s, data, j, q);
        OldPage(w, w1, w2, w3, s, p, f, q, Image(data, SegmentAt(data, j), q),
                PageOf(Image(data, SegmentAt(data, i), p)));
      }
    }
  }

  lemma NewPage(w1: World, w2: World, w3: World, s: nat, p: nat, f: nat, b: seq<byte>)
    requires w1.Inv() && w2.Inv() && w1.Space(s) && w2.Space(s) && f < FRAMES && p < PAGES && |b| == PAGE_SIZE
    requires !w1.Fb(f)
    requires Remapped(w1, w2, s, PageVa(p), Word(f, PRESENT_WRITABLE_USER))
    requires w3 == WriteFrame(w2, f, PageOf(b), w2.free) && SameLookups(w2, w3)
    ensures PageIs(w3, s, p, b)
  {
    hide Lookup, World.OwnPath, World.Tables, World.Trees, World.LeafEntries, World.Leaves, World.Reachable,
         World.Shares, PageVa, PageBytes, PageOf;
    PageNumber(p);
    BytesOfPage(b);
  }

  lemma OldPage(w: World, w1: World, w2: World, w3: World, s: nat, p: nat, f: nat, q: nat, b: seq<byte>,
                page: seq<Word>)
    requires w.Inv() && w1.Inv() && w2.Inv() && w.Space(s) && w2.Space(s) && f in w.free && f < FRAMES
    requires p < PAGES && q < PAGES && p != q && PageIs(w, s, q, b)
    requires w1 == WriteFrame(w, f, Zeros(), w.free - {f}) && SameLookups(w, w1)
    requires Remapped(w1, w2, s, PageVa(p), Word(f, PRESENT_WRITABLE_USER))
    requires w3 == WriteFrame(w2, f, page, w2.free) && SameLookups(w2, w3)
    ensures PageIs(w3, s, q, b)
  {
    hide Lookup, World.OwnPath, World.Tables, World.Trees, World.LeafEntries, World.Leaves, World.Reachable,
         World.Shares, PageVa, PageBytes, Remapped;
    PageNumber(p);
    PageNumber(q);
    PagesApart(p, q);
    TakenKeeps(w, f, Zeros(), s, q, b);
    MappedKeeps(w1, w2, s, p, Word(f, PRESENT_WRITABLE_USER), q, b);
    OtherLookup(w1, w2, s, PageVa(p), Word(f, PRESENT_WRITABLE_USER), PageVa(q));
    WrittenKeeps(w2, f, page, s, q, b);
  }

  lemma OtherLookup(w: World, w': World, s: nat, v: Va, x: Word, u: Va)
    requires w.Space(s) && Remapped(w, w', s, v, x) && ValidVa(u) && u != v
    ensures Lookup(w'.mem, s, u) == Lookup(w.mem, s, u)
  {
    hide Lookup, World.OwnPath;
  }

  /** The slice of the file that falls on the page is the page's image. */
  lemma SliceIsImage(data: seq<byte>, g: Segment, p: nat)
    requires g.offset + g.filesz <= |data|
    ensures var start, end := p * PAGE_SIZE, p * PAGE_SIZE + PAGE_SIZE;
      var from := if g.vaddr > start then g.vaddr else start;
      var to := if g.vaddr + g.filesz < end then g.vaddr + g.filesz else end;
      if to > from then
        var at := g.offset + (from - g.vaddr);
        && g.vaddr <= from && from - start + (to - from) <= PAGE_SIZE && at + (to - from) <= |data|
        && Image(data, g, p) == ZeroBytes(from - start) + data[at..at + (to - from)] + ZeroBytes(end - to)
      else Image(data, g, p) == ZeroBytes(PAGE_SIZE)
  {
  }

  /** Copies the file's bytes that belong on the page into the fresh frame. */
  method FillPage(m: Machine, f: nat, data: seq<byte>, g: Segment, p: nat)
    requires f < FRAMES && |m.mem| == FRAMES && m.mem[f] == Zeros() && g.offset + g.filesz <= |data|
    modifies m`mem
    ensures m.mem == old(m.mem)[f := PageOf(Image(data, g, p))]
  {
    hide PageBytes, PageOf, Image, Zeros;
    SliceIsImage(data, g, p);
    ZeroFrame();
    var start, end := p * PAGE_SIZE, p * PAGE_SIZE + PAGE_SIZE;
    var from := if g.vaddr > start then g.vaddr else start;
    var to := if g.vaddr + g.filesz < end then g.vaddr + g.filesz else end;
    if to > from {
      var at := g.offset + (from - g.vaddr);
      var off, len := from - start, to - from;
      var old_bytes := PageBytes(m.mem[f]);
      var new_bytes := old_bytes[..off] + data[at..at + len] + old_bytes[off + len..];
      assert new_bytes == Image(data, g, p) by {
        assert ZeroBytes(PAGE_SIZE)[..off] == ZeroBytes(off)
            && ZeroBytes(PAGE_SIZE)[off + len..] == ZeroBytes(end - to);
      }
      m.mem := m.mem[f := PageOf(new_bytes)];
    } else {
      assert m.mem == m.mem[f := PageOf(ZeroBytes(PAGE_SIZE))];
    }
  }

  lemma ZeroFrame()
    ensures PageBytes(Zeros()) == ZeroBytes(PAGE_SIZE) && PageOf(ZeroBytes(PAGE_SIZE)) == Zeros()
  {
    hide PageBytes, PageOf;
    ZeroPage(Zeros());
    var n := PAGE_SIZE;
    ZeroPageOf(n);
  }

  lemma {:induction false} ZeroPageOf(n: nat)
    requires n % 8 == 0
    ensures forall i :: 0 <= i < n / 8 ==> PageOf(ZeroBytes(n))[i] == ZERO
  {
    if n >= 8 {
      ZeroPageOf(n - 8);
      assert ZeroBytes(n)[8..] == ZeroBytes(n - 8) && ZeroBytes(n)[..8] == ZeroBytes(8);
      ZeroValue(ZeroBytes(n)[..8]);
    }
  }

  lemma {:induction false} ZeroValue(b: seq<byte>)
    requires forall i :: 0 <= i < |b| ==> b[i] == 0
    ensures ValueOf(b) == 0
  {
    if b != [] { ZeroValue(b[1..]); }
  }

  /** Loads one page of a segment. The result of map_page is not looked at. `sofar` and `done` tell
      whether everything was loaded before and after this page; it takes at most a frame for the page
      and three for tables. */
  method LoadPage(m: Machine, s: nat, data: seq<byte>, i: nat, p: nat, ghost sofar: bool)
    returns (ok: bool, ghost done: bool)
    requires m.Valid() && WellFormed(data) && Ready(m.W(), s, data) && i < TableSize(data)
    requires Covers(SegmentAt(data, i), p)
    requires if sofar then Progress(m.W(), s, data, i, p) else Exhausted(m.W())
    modifies m, m.pmm, m.pmm.bitmap
    ensures m.Valid() && Ready(m.W(), s, data) && OthersKept(old(m.W()), m.W(), s)
    ensures if done then sofar && ok && Progress(m.W(), s, data, i, p + 1) else Exhausted(m.W())
    ensures |Below(m.pmm.free)| >= |Below(old(m.pmm.free))| - 4
    ensures sofar && |Below(old(m.pmm.free))| >= 4 ==> done
  {
    hide Lookup, World.OwnPath, World.Tables, World.Trees, World.LeafEntries, World.Leaves, World.Reachable,
         World.Shares, Allocator.Valid, PageVa, SegmentAt, Covers, PageOf, Image, Remapped, Grows, Progress, Ready,
         VaOf, Winner, Below, MapAllowed, Again, OwnMap;
    ghost var w := m.W();
    CoversPage(data, i, p);
    var f := m.AllocFrame();
    if f == 0 { OthersSame(w, s); BelowNone(w.free); return false, false; }
    ghost var w1 := m.W();
    WriteOthers(w, f, Zeros(), w.free - {f}, s);
    ReadySpace(w, s, data);
    ReadyKept(w, w1, s, data);
    LoadAllowed(w, w1, s, data, i, p, f);
    VaOfPage(p);
    assert f * PAGE_SIZE / PAGE_SIZE == f;
    var mapped := m.MapPage(s, p * PAGE_SIZE, f * PAGE_SIZE, PRESENT_WRITABLE_USER);
    ghost var w2 := m.W();
    MapOthers(w1, w2, s, PageVa(p), Word(f, PRESENT_WRITABLE_USER));
    ReadyKept(w1, w2, s, data);
    FillPage(m, f, data, SegmentAt(data, i), p);
    NotATable(w1, w2, s, f, PageVa(p));
    WriteOthers(w2, f, PageOf(Image(data, SegmentAt(data, i), p)), w2.free, s);
    ReadyKept(w2, m.W(), s, data);
    OthersTwice(w, w1, w2, s);
    OthersTwice(w, w2, m.W(), s);
    done := mapped && sofar;
    if done { PageLoaded(w, w1, w2, m.W(), s, data, i, p, f); }
    return true, done;
  }

  lemma OthersSame(w: World, s: nat)
    ensures OthersKept(w, w, s)
  {
  }

  lemma ReadySpace(w: World, s: nat, data: seq<byte>)
    requires WellFormed(data) && Ready(w, s, data)
    ensures w.Space(s) && s != w.kernel
  {
  }

  /** New tables are taken from free frames. */
  lemma NotATable(w1: World, w2: World, s: nat, f: nat, v: Va)
    requires f !in w1.free && f !in w1.role
    requires Remapped(w1, w2, s, v, Word(f, PRESENT_WRITABLE_USER)) || Grows(w1, w2, s)
    ensures f !in w2.role
  {
    hide Lookup, World.OwnPath;
  }

  /** The pages a segment needs. */
  function PageCount(g: Segment): nat {
    if g.load then Last(g) - First(g) else 0
  }

  /** The pages the first `n` segments need. */
  function TotalPages(data: seq<byte>, n: nat): nat
    requires |data| >= HEADER && TableAt(data) + ENTRY * TableSize(data) <= |data| && n <= TableSize(data)
  {
    if n == 0 then 0 else TotalPages(data, n - 1) + PageCount(SegmentAt(data, n - 1))
  }

  /** Loads the pages of one segment. */
  method LoadSegment(m: Machine, s: nat, data: seq<byte>, i: nat, ghost sofar: bool)
    returns (ok: bool, ghost done: bool)
    requires m.Valid() && WellFormed(data) && Ready(m.W(), s, data) && i < TableSize(data) && SegmentAt(data, i).load
    requires if sofar then Progress(m.W(), s, data, i, 0) else Exhausted(m.W())
    modifies m, m.pmm, m.pmm.bitmap
    ensures m.Valid() && Ready(m.W(), s, data) && OthersKept(old(m.W()), m.W(), s)
    ensures if done then sofar && ok && Progress(m.W(), s, data, i + 1, 0) else Exhausted(m.W())
    ensures done ==> |Below(m.pmm.free)| >= |Below(old(m.pmm.free))| - 4 * PageCount(SegmentAt(data, i))
    ensures sofar && |Below(old(m.pmm.free))| >= 4 * PageCount(SegmentAt(data, i)) ==> done
  {
    hide Progress, Ready, OthersKept, Allocator.Valid, World.Inv, SegmentAt, Below, Exhausted;
    ghost var w := m.W();
    OthersSame(w, s);
    var g := SegmentAt(data, i);
    var p, end := First(g), Last(g);
    SegmentStarts(m.W(), s, data, i, p);
    done := sofar;
    while p < end
      invariant m.Valid() && Ready(m.W(), s, data) && OthersKept(w, m.W(), s) && First(g) <= p
      invariant if done then sofar && Progress(m.W(), s, data, i, p) else Exhausted(m.W())
      invariant |Below(m.pmm.free)| >= |Below(w.free)| - 4 * (p - First(g))
      invariant p <= end || p == First(g)
      invariant sofar && |Below(w.free)| >= 4 * (end - First(g)) ==> done
    {
      ghost var before := m.W();
      ok, done := LoadPage(m, s, data, i, p, done);
      OthersTwice(w, before, m.W(), s);
      if !ok { return; }
      p := p + 1;
    }
    if done { SegmentEnds(m.W(), s, data, i, p); }
    return true, done;
  }

  lemma SegmentStarts(w: World, s: nat, data: seq<byte>, i: nat, q: nat)
    requires WellFormed(data) && i < TableSize(data) && q <= First(SegmentAt(data, i))
    ensures Progress(w, s, data, i, 0) <==> Progress(w, s, data, i, q)
  {
    hide SegmentAt, Winner, PageDone;
    assert forall p: nat :: Expect(data, i, q, p) == Winner(data, i, p) == Expect(data, i, 0, p);
  }

  lemma SegmentEnds(w: World, s: nat, data: seq<byte>, i: nat, q: nat)
    requires WellFormed(data) && i < TableSize(data) && (q >= Last(SegmentAt(data, i)) || !SegmentAt(data, i).load)
    ensures Progress(w, s, data, i, q) ==> Progress(w, s, data, i + 1, 0)
  {
    hide SegmentAt, PageDone, WellFormed;
    var next := i + 1;
    forall p: nat ensures Expect(data, next, 0, p) == Expect(data, i, q, p) {
    }
  }

  /** Loads a program into an address space and gives its entry point. Either every page of every
      loadable segment holds its image, or memory ran out; with four free frames for every page it does
      not. */
  method Load(m: Machine, s: nat, data: seq<byte>) returns (entry: nat, ghost done: bool)
    requires m.Valid() && WellFormed(data) && Ready(m.W(), s, data)
    modifies m, m.pmm, m.pmm.bitmap
    ensures m.Valid() && OthersKept(old(m.W()), m.W(), s)
    ensures !IsElf(data) ==> entry == 0 && m.W() == old(m.W())
    ensures done ==> entry == EntryPoint(data) && Progress(m.W(), s, data, TableSize(data), 0)
    ensures IsElf(data) && !done ==> Exhausted(m.W())
    ensures IsElf(data) && |Below(old(m.pmm.free))| >= 4 * TotalPages(data, TableSize(data)) ==> done
  {
    hide Progress, Ready, OthersKept, Allocator.Valid, World.Inv, SegmentAt, EntryPoint, Below, Exhausted, PageCount;
    ghost var w := m.W();
    OthersSame(w, s);
    if !IsElf(data) { return 0, false; }
    var i := 0;
    NothingYet(w, s, data);
    done := true;
    ghost var enough := |Below(w.free)| >= 4 * TotalPages(data, TableSize(data));
    while i < TableSize(data)
      invariant i <= TableSize(data) && m.Valid() && Ready(m.W(), s, data) && OthersKept(w, m.W(), s)
      invariant if done then Progress(m.W(), s, data, i, 0) else Exhausted(m.W())
      invariant done ==> |Below(m.pmm.free)| >= |Below(w.free)| - 4 * TotalPages(data, i)
      invariant enough ==> done
    {
      TotalNext(data, i);
      if SegmentAt(data, i).load {
        ghost var before := m.W();
        var ok;
        ok, done := LoadSegment(m, s, data, i, done);
        OthersTwice(w, before, m.W(), s);
        if !ok { return 0, false; }
      } else if done {
        SegmentEnds(m.W(), s, data, i, 0);
      }
      i := i + 1;
    }
    return EntryPoint(data), done;
  }

  lemma TotalNext(data: seq<byte>, i: nat)
    requires WellFormed(data) && i < TableSize(data)
    ensures TotalPages(data, i + 1) == TotalPages(data, i) + PageCount(SegmentAt(data, i))
    ensures TotalPages(data, i + 1) <= TotalPages(data, TableSize(data))
  {
    hide SegmentAt, PageCount;
    TotalMonotone(data, i + 1);
  }

  lemma {:induction false} TotalMonotone(data: seq<byte>, i: nat)
    requires WellFormed(data) && i <= TableSize(data)
    ensures TotalPages(data, i) <= TotalPages(data, TableSize(data))
    decreases TableSize(data) - i
  {
    hide SegmentAt, PageCount;
    if i < TableSize(data) { TotalMonotone(data, i + 1); }
  }

  lemma NothingYet(w: World, s: nat, data: seq<byte>)
    requires WellFormed(data)
    ensures Progress(w, s, data, 0, 0)
  {
  }

  /** A read of address `a` through the tables of space `s` gives `b`. */
  ghost predicate Reads(w: World, s: nat, a: nat, b: byte) {
    var e := Lookup(w.mem, s, VaOf(a));
    && e.Some? && e.value.frame < |w.mem|
    && var bytes := PageBytes(w.mem[e.value.frame]);
       a % PAGE_SIZE < |bytes| && bytes[a % PAGE_SIZE] == b
  }

  lemma SamePage(a: nat)
    ensures VaOf(a) == PageVa(a / PAGE_SIZE)
  {
    var p := a / PAGE_SIZE;
    assert a / 0x20_0000 == p / 512 && a / 0x4000_0000 == p / 512 / 512 && a / 0x80_0000_0000 == p / 512 / 512 / 512;
    var c := p * PAGE_SIZE;
    assert c / 0x1000 == p && c / 0x20_0000 == p / 512 && c / 0x4000_0000 == p / 512 / 512
        && c / 0x80_0000_0000 == p / 512 / 512 / 512;
  }

  /** Read back through the page tables, a segment is its file bytes followed by zeros, on every page
      that no later segment takes. */
  lemma SegmentReadsBack(w: World, s: nat, data: seq<byte>, i: nat, a: nat)
    requires WellFormed(data) && Progress(w, s, data, TableSize(data), 0) && i < TableSize(data)
    requires var g := SegmentAt(data, i); g.load && g.vaddr <= a < g.vaddr + g.memsz
    requires forall j: nat :: i < j < TableSize(data) ==> !Covers(SegmentAt(data, j), a / PAGE_SIZE)
    ensures var g := SegmentAt(data, i);
      && (a < g.vaddr + g.filesz ==> g.offset + a - g.vaddr < |data|)
      && Reads(w, s, a, if a < g.vaddr + g.filesz then data[g.offset + a - g.vaddr] else 0)
  {
    hide SegmentAt, Lookup, VaOf, PageVa, PageBytes;
    var g, p := SegmentAt(data, i), a / PAGE_SIZE;
    assert Sound(data, g);
    PageWithin(g.vaddr, g.memsz, a);
    assert Covers(g, p);
    CoversPage(data, i, p);
    var n := TableSize(data);
    assert Winner(data, n, p) == Some(i);
    assert Expect(data, n, 0, p) == Some(i);
    assert PageDone(w, s, data, i, p);
    SamePage(a);
    assert a == p * PAGE_SIZE + a % PAGE_SIZE;
  }

  lemma PageWithin(vaddr: nat, memsz: nat, a: nat)
    requires vaddr <= a < vaddr + memsz
    ensures vaddr / PAGE_SIZE <= a / PAGE_SIZE < (vaddr + memsz + 0xFFF) / PAGE_SIZE
  {
  }

  /** A new address space is ready for every program whose pages avoid the kernel's PDPT slots. */
  lemma CreatedReady(w: World, w': World, s: nat, data: seq<byte>)
    requires WellFormed(data) && Created(w, w', s)
    requires forall p: nat, i: nat :: i < TableSize(data) && Covers(SegmentAt(data, i), p) ==> !KernelSlot(w, PageVa(p))
    ensures Ready(w', s, data)
  {
    hide Lookup, World.OwnPath, PageVa, SegmentAt, Covers, KernelSlot;
    forall p: nat, i: nat | i < TableSize(data) && Covers(SegmentAt(data, i), p) ensures w'.OwnPath(s, PageVa(p)) {
      CoversPage(data, i, p);
      PageNumber(p);
    }
  }
}

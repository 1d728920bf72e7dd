/** Four-level page tables as values (section 4.5 of the Intel SDM, Volume 3A): the walk, the
    invariant that makes the tables of all address spaces a forest sharing only kernel tables, and
    what a write to one entry does to the translations of every address space. */
module PageTables {
  import opened Common
  import opened Bits

  const FRAMES: nat := 0x10000   // frames below the identity-mapped 256 MB line
  const ENTRIES: nat := 512
  const USER_HALF: nat := 256    // PML4 entries of user space

  /** A 64-bit table entry: the frame number above bit 12 and the twelve flag bits. */
  datatype Word = Word(frame: nat, flags: Flags)

  type Flags = x: int | 0 <= x < 0x1000

  const ZERO := Word(0, 0)

  predicate Present(w: Word) { w.flags % 2 == 1 }
  predicate Writable(w: Word) { w.flags / 2 % 2 == 1 }
  predicate User(w: Word) { w.flags / 4 % 2 == 1 }

  /** Present, writable and user. */
  predicate Open(w: Word) { Present(w) && Writable(w) && User(w) }

  type Memory = seq<seq<Word>>

  predicate Shaped(mem: Memory) {
    |mem| == FRAMES && forall f :: 0 <= f < FRAMES ==> |mem[f]| == ENTRIES
  }

  function At(mem: Memory, f: nat, i: nat): Word {
    if f < |mem| && i < |mem[f]| then mem[f][i] else ZERO
  }

  function Put(mem: Memory, f: nat, i: nat, w: Word): (r: Memory)
    requires Shaped(mem) && f < FRAMES && i < ENTRIES
    ensures Shaped(r)
  {
    mem[f := mem[f][i := w]]
  }

  /** A page address: the four table indices. */
  datatype Va = Va(i4: nat, i3: nat, i2: nat, i1: nat)

  predicate ValidVa(v: Va) {
    v.i4 < ENTRIES && v.i3 < ENTRIES && v.i2 < ENTRIES && v.i1 < ENTRIES
  }

  function VaOf(addr: nat): (v: Va)
    ensures ValidVa(v)
  {
    Va(addr / 0x80_0000_0000 % 512, addr / 0x4000_0000 % 512, addr / 0x20_0000 % 512, addr / 0x1000 % 512)
  }

  function AddrOf(v: Va): nat {
    v.i4 * 0x80_0000_0000 + v.i3 * 0x4000_0000 + v.i2 * 0x20_0000 + v.i1 * 0x1000
  }

  /** The four indices are the digits of the page number in base 512, the PML4 index first. */
  lemma VaDigits(addr: nat)
    requires addr < 0x1_0000_0000_0000
    ensures var v := VaOf(addr);
      ValidVa(v) && ((v.i4 * ENTRIES + v.i3) * ENTRIES + v.i2) * ENTRIES + v.i1 == addr / 0x1000
  {
    var p := addr / 0x1000;
    assert addr / 0x20_0000 == p / 512 && addr / 0x4000_0000 == p / 512 / 512;
    assert addr / 0x80_0000_0000 == p / 512 / 512 / 512;
  }

  lemma VaRoundTrip(v: Va)
    requires ValidVa(v)
    ensures VaOf(AddrOf(v)) == v
  {
    var a := AddrOf(v);
    var p3 := v.i4 * 512 + v.i3;
    var p2 := p3 * 512 + v.i2;
    var p1 := p2 * 512 + v.i1;
    DivModUnique(a, 0x80_0000_0000, v.i4, v.i3 * 0x4000_0000 + v.i2 * 0x20_0000 + v.i1 * 0x1000);
    DivModUnique(a, 0x4000_0000, p3, v.i2 * 0x20_0000 + v.i1 * 0x1000);
    DivModUnique(a, 0x20_0000, p2, v.i1 * 0x1000);
    DivModUnique(a, 0x1000, p1, 0);
  }

  /** A table's place: its level and the indices that lead to it. */
  datatype Slot = Root | Pdpt(i4: nat) | Pd(i4: nat, i3: nat) | Pt(i4: nat, i3: nat, i2: nat)
  {
    function Depth(): nat {
      match this case Root => 3 case Pdpt(_) => 2 case Pd(_, _) => 1 case Pt(_, _, _) => 0
    }

    /** The index that `v` uses in this table. */
    function Index(v: Va): nat {
      match this case Root => v.i4 case Pdpt(_) => v.i3 case Pd(_, _) => v.i2 case Pt(_, _, _) => v.i1
    }

    function Child(i: nat): (s: Slot)
      requires !Pt?
      ensures s.Depth() == Depth() - 1
    {
      match this case Root => Pdpt(i) case Pdpt(a) => Pd(a, i) case Pd(a, b) => Pt(a, b, i)
    }

    /** The table above this one, and the entry there that leads here. */
    function Above(): (s: Slot)
      requires !Root?
      ensures !s.Pt? && s.Depth() == Depth() + 1 && s.Child(Entry()) == this
    {
      match this case Pdpt(_) => Root case Pd(a, _) => Pdpt(a) case Pt(a, b, _) => Pd(a, b)
    }

    function Entry(): nat
      requires !Root?
    {
      match this case Pdpt(a) => a case Pd(_, b) => b case Pt(_, _, c) => c
    }

    /** The table is on the path of `v`. */
    predicate On(v: Va) {
      match this
      case Root => true
      case Pdpt(a) => a == v.i4
      case Pd(a, b) => a == v.i4 && b == v.i3
      case Pt(a, b, c) => a == v.i4 && b == v.i3 && c == v.i2
    }
  }

  /** The walk from table `f`: the leaf entry `v` reaches, if every entry on the way is present. */
  function Walk(mem: Memory, f: nat, slot: Slot, v: Va): Option<Word>
    decreases slot.Depth()
  {
    var e := At(mem, f, slot.Index(v));
    if !Present(e) then None
    else if slot.Pt? then Some(e)
    else Walk(mem, e.frame, slot.Child(slot.Index(v)), v)
  }

  /** The translation of `v` in the address space with PML4 frame `r`. */
  function Lookup(mem: Memory, r: nat, v: Va): Option<Word> {
    Walk(mem, r, Root, v)
  }

  /** The page directory of gigabyte `i` of the first PML4 slot. */
  function Gigabyte(mem: Memory, r: nat, i: nat): Option<nat> {
    var e := At(mem, r, 0);
    var d := At(mem, e.frame, i);
    if Present(e) && Present(d) then Some(d.frame) else None
  }

  predicate UserPage(e: Option<Word>) {
    e.Some? && User(e.value)
  }

  /** Every entry above the leaf is present, writable and user. */
  ghost predicate OpenPath(mem: Memory, f: nat, slot: Slot, v: Va)
    decreases slot.Depth()
  {
    slot.Pt? ||
    (var e := At(mem, f, slot.Index(v));
     Open(e) && OpenPath(mem, e.frame, slot.Child(slot.Index(v)), v))
  }

  // ---------------------------------------------------------------- ownership

  /** Whose table a frame is (an address space is named by its PML4 frame), where it belongs, and
      the table it hangs from. */
  datatype Role = Role(owner: nat, slot: Slot, parent: nat)

  /** Whose user page a frame holds, and at which address. */
  datatype Leaf = Leaf(owner: nat, va: Va)

  datatype World = World(mem: Memory, role: map<nat, Role>, leaf: map<nat, Leaf>, free: set<nat>,
                         kernel: nat, fbLo: nat, fbHi: nat)
  {
    /** A frame of the framebuffer. */
    predicate Fb(f: nat) { fbLo <= f < fbHi }

    ghost predicate Space(r: nat) { r in role && role[r].slot.Root? }

    /** Before the first process: the kernel's tables are shared with nobody. */
    ghost predicate KernelOnly() { forall r :: Space(r) ==> r == kernel }

    /** An entry above leaf level is zero or leads to the table that belongs there, which is the
        owner's own or a kernel table. */
    ghost predicate EntryOk(f: nat, i: nat)
      requires f in role && !role[f].slot.Pt?
    {
      var e := At(mem, f, i);
      if Present(e) then
        && e.frame in role
        && role[e.frame].slot == role[f].slot.Child(i)
        && (role[e.frame].owner == role[f].owner || role[e.frame].owner == kernel)
      else e == ZERO
    }

    /** A table below the root hangs from a table of the same owner. */
    ghost predicate Hung(c: nat)
      requires c in role && !role[c].slot.Root?
    {
      var p, k := role[c].parent, role[c].slot.Entry();
      && p in role && role[p].owner == role[c].owner && role[p].slot == role[c].slot.Above()
      && k < ENTRIES && Present(At(mem, p, k)) && At(mem, p, k).frame == c
    }

    /** A user leaf maps the framebuffer, in whoever's table, or is recorded as the page of that
        address of a process. */
    ghost predicate LeafEntryOk(f: nat, i: nat)
      requires f in role && role[f].slot.Pt?
    {
      var e := At(mem, f, i);
      Present(e) && User(e) && !Fb(e.frame) ==>
        && role[f].owner != kernel && role[f].slot.i4 < USER_HALF
        && e.frame in leaf && leaf[e.frame] == Leaf(role[f].owner, LeafVa(role[f].slot, i))
    }

    ghost predicate Frames() {
      && Shaped(mem)
      && kernel in role && role[kernel].slot.Root?
      && (forall f :: f in role ==> 0 < f < FRAMES && f !in free && f !in leaf)
      && (forall f :: f in role && role[f].slot.Root? ==> role[f].owner == f)
      && (forall f :: f in role ==> Space(role[f].owner))
      && (forall f :: f in leaf ==> 0 < f < FRAMES && f !in free && !Fb(f))
      && (forall f :: f in free ==> f > 0 && !Fb(f))
    }

    ghost predicate Trees() {
      forall c :: c in role && !role[c].slot.Root? ==> Hung(c)
    }

    ghost predicate Tables() {
      forall f, i :: f in role && !role[f].slot.Pt? && 0 <= i < ENTRIES ==> EntryOk(f, i)
    }

    ghost predicate LeafEntries() {
      forall f, i :: f in role && role[f].slot.Pt? && 0 <= i < ENTRIES ==> LeafEntryOk(f, i)
    }

    /** Every recorded user page is mapped where the record says. */
    ghost predicate Mapped(f: nat)
      requires f in leaf
    {
      var l := leaf[f];
      && Space(l.owner) && ValidVa(l.va)
      && UserPage(Lookup(mem, l.owner, l.va)) && Lookup(mem, l.owner, l.va).value.frame == f
    }

    ghost predicate Leaves() {
      forall f :: f in leaf ==> Mapped(f)
    }

    /** Every user page is reachable in user mode. */
    ghost predicate Reachable() {
      forall r, v :: Space(r) && ValidVa(v) && UserPage(Lookup(mem, r, v)) ==> OpenPath(mem, r, Root, v)
    }

    /** Every space shares the gigabytes that the kernel's first PDPT maps. */
    ghost predicate Shares() {
      forall r, i :: Space(r) && 0 <= i < ENTRIES && Gigabyte(mem, kernel, i).Some? ==>
        Gigabyte(mem, r, i) == Gigabyte(mem, kernel, i)
    }

    ghost predicate Inv() {
      Frames() && Tables() && Trees() && LeafEntries() && Leaves() && Reachable() && Shares()
    }

    /** The walk of `v` from `f` stays in tables of the same owner. */
    ghost predicate OwnPath(f: nat, v: Va)
      decreases if f in role then role[f].slot.Depth() else 0
    {
      f in role &&
      (role[f].slot.Pt? ||
       (var e := At(mem, f, role[f].slot.Index(v));
        Present(e) ==>
          && e.frame in role && role[e.frame].owner == role[f].owner
          && role[e.frame].slot.Depth() < role[f].slot.Depth()
          && OwnPath(e.frame, v)))
    }
  }

  function LeafVa(slot: Slot, i: nat): Va
    requires slot.Pt?
  {
    Va(slot.i4, slot.i3, slot.i2, i)
  }

  // ---------------------------------------------------------------- writes and walks

  /** The walk of `v` from a table of `w` at `slot` does not depend on entry `i` of `f`. */
  ghost predicate Misses(w: World, g: nat, v: Va, f: nat, i: nat)
    requires f in w.role && g in w.role
  {
    || !w.role[f].slot.On(v) || w.role[f].slot.Index(v) != i
    || (w.role[f].owner != w.role[g].owner && w.role[f].owner != w.kernel)
  }

  /** The child that `v` leads to, when the entry is present. */
  lemma ChildTable(w: World, g: nat, v: Va)
    requires w.Frames() && w.Tables() && g in w.role && !w.role[g].slot.Pt? && w.role[g].slot.On(v) && ValidVa(v)
    requires Present(At(w.mem, g, w.role[g].slot.Index(v)))
    ensures var c := At(w.mem, g, w.role[g].slot.Index(v)).frame;
      && c in w.role && w.role[c].slot == w.role[g].slot.Child(w.role[g].slot.Index(v))
      && w.role[c].slot.On(v)
      && (w.role[c].owner == w.role[g].owner || w.role[c].owner == w.kernel)
  {
    assert w.EntryOk(g, w.role[g].slot.Index(v));
  }

  lemma {:induction false} WalkMisses(w: World, mem': Memory, g: nat, v: Va, f: nat, i: nat, x: Word)
    requires w.Frames() && w.Tables() && g in w.role && w.role[g].slot.On(v) && ValidVa(v)
    requires f in w.role && i < ENTRIES && mem' == Put(w.mem, f, i, x)
    requires Misses(w, g, v, f, i)
    ensures Walk(mem', g, w.role[g].slot, v) == Walk(w.mem, g, w.role[g].slot, v)
    ensures OpenPath(mem', g, w.role[g].slot, v) == OpenPath(w.mem, g, w.role[g].slot, v)
    decreases w.role[g].slot.Depth()
  {
    var slot := w.role[g].slot;
    var k := slot.Index(v);
    assert At(mem', g, k) == At(w.mem, g, k);
    if !slot.Pt? && Present(At(w.mem, g, k)) {
      ChildTable(w, g, v);
      WalkMisses(w, mem', At(w.mem, g, k).frame, v, f, i, x);
    }
  }

  /** Writing a frame that is no table changes no walk. */
  lemma {:induction false} WalkForeign(w: World, mem': Memory, g: nat, v: Va, c: nat)
    requires w.Frames() && w.Tables() && g in w.role && w.role[g].slot.On(v) && ValidVa(v)
    requires |mem'| == FRAMES && forall f :: 0 <= f < FRAMES && f != c ==> mem'[f] == w.mem[f]
    requires c !in w.role
    ensures Walk(mem', g, w.role[g].slot, v) == Walk(w.mem, g, w.role[g].slot, v)
    ensures OpenPath(mem', g, w.role[g].slot, v) == OpenPath(w.mem, g, w.role[g].slot, v)
    decreases w.role[g].slot.Depth()
  {
    var slot := w.role[g].slot;
    var k := slot.Index(v);
    assert At(mem', g, k) == At(w.mem, g, k);
    if !slot.Pt? && Present(At(w.mem, g, k)) {
      ChildTable(w, g, v);
      WalkForeign(w, mem', At(w.mem, g, k).frame, v, c);
    }
  }

  /** Adding flags to an entry above leaf level changes no translation and closes no path. */
  lemma {:induction false} WalkEscalates(w: World, mem': Memory, g: nat, v: Va, f: nat, i: nat, x: Word)
    requires w.Frames() && w.Tables() && g in w.role && w.role[g].slot.On(v) && ValidVa(v)
    requires f in w.role && !w.role[f].slot.Pt? && i < ENTRIES && mem' == Put(w.mem, f, i, x)
    requires Present(At(w.mem, f, i)) && Present(x) && x.frame == At(w.mem, f, i).frame
    requires Open(At(w.mem, f, i)) ==> Open(x)
    ensures Walk(mem', g, w.role[g].slot, v) == Walk(w.mem, g, w.role[g].slot, v)
    ensures OpenPath(w.mem, g, w.role[g].slot, v) ==> OpenPath(mem', g, w.role[g].slot, v)
    decreases w.role[g].slot.Depth()
  {
    var slot := w.role[g].slot;
    var k := slot.Index(v);
    assert g != f || k != i ==> At(mem', g, k) == At(w.mem, g, k);
    if !slot.Pt? && Present(At(w.mem, g, k)) {
      ChildTable(w, g, v);
      WalkEscalates(w, mem', At(w.mem, g, k).frame, v, f, i, x);
    }
  }

  /** Hanging an empty table into an absent entry adds no translation. */
  lemma {:induction false} WalkHangs(w: World, mem': Memory, g: nat, v: Va, f: nat, i: nat, x: Word)
    requires w.Frames() && w.Tables() && g in w.role && w.role[g].slot.On(v) && ValidVa(v)
    requires f in w.role && !w.role[f].slot.Pt? && i < ENTRIES && mem' == Put(w.mem, f, i, x)
    requires !Present(At(w.mem, f, i))
    requires x.frame < FRAMES && x.frame !in w.role && forall j :: 0 <= j < ENTRIES ==> At(w.mem, x.frame, j) == ZERO
    ensures Walk(mem', g, w.role[g].slot, v) == Walk(w.mem, g, w.role[g].slot, v)
    decreases w.role[g].slot.Depth()
  {
    var slot := w.role[g].slot;
    var k := slot.Index(v);
    if g == f && k == i {
      var j := slot.Child(k).Index(v);
      assert At(mem', x.frame, j) == At(w.mem, x.frame, j) == ZERO;
    } else {
      assert At(mem', g, k) == At(w.mem, g, k);
      if !slot.Pt? && Present(At(w.mem, g, k)) {
        ChildTable(w, g, v);
        WalkHangs(w, mem', At(w.mem, g, k).frame, v, f, i, x);
      }
    }
  }

  // ---------------------------------------------------------------- steps

  /** Two worlds in which every address space translates alike. */
  ghost predicate SameLookups(w: World, w': World) {
    forall r, v :: w.Space(r) && ValidVa(v) ==> Lookup(w'.mem, r, v) == Lookup(w.mem, r, v)
  }

  ghost predicate PathsStayOpen(w: World, w': World) {
    forall r, v :: w.Space(r) && ValidVa(v) && OpenPath(w.mem, r, Root, v) ==> OpenPath(w'.mem, r, Root, v)
  }

  /** Leaves and reachability only depend on the translations. */
  lemma SameLookupsKeep(w: World, w': World)
    requires w.Leaves() && w.Reachable() && SameLookups(w, w') && PathsStayOpen(w, w')
    requires w'.leaf == w.leaf && (forall r :: w.Space(r) <==> w'.Space(r))
    ensures w'.Leaves() && w'.Reachable()
  {
    hide Lookup, OpenPath;
    forall f | f in w'.leaf ensures w'.Mapped(f) {
      assert w.Mapped(f);
    }
  }

  /** Writing a frame that is no table, and taking frames out of the free set. */
  ghost function WriteFrame(w: World, c: nat, page: seq<Word>, free: set<nat>): World
    requires w.Frames() && c < FRAMES
  {
    w.(mem := w.mem[c := page], free := free)
  }

  lemma WriteFrameKeeps(w: World, c: nat, page: seq<Word>, free: set<nat>)
    requires w.Inv() && c < FRAMES && c !in w.role && |page| == ENTRIES && free <= w.free
    ensures WriteFrame(w, c, page, free).Inv()
    ensures SameLookups(w, WriteFrame(w, c, page, free))
    ensures forall f, v :: w.OwnPath(f, v) ==> WriteFrame(w, c, page, free).OwnPath(f, v)
  {
    hide OpenPath, Walk, World.EntryOk, World.LeafEntryOk, World.Hung;
    var w' := WriteFrame(w, c, page, free);
    forall r, v | w.Space(r) && ValidVa(v)
      ensures Lookup(w'.mem, r, v) == Lookup(w.mem, r, v)
      ensures OpenPath(w'.mem, r, Root, v) == OpenPath(w.mem, r, Root, v)
    {
      WalkForeign(w, w'.mem, r, v, c);
    }
    SameLookupsKeep(w, w');
    ForeignTables(w, w', c);
    ForeignShares(w, w', c);
    forall f, v | w.OwnPath(f, v) ensures w'.OwnPath(f, v) {
      OwnPathForeign(w, w', f, v, c);
    }
  }

  /** Writing a frame that is no table changes no entry. */
  lemma ForeignTables(w: World, w': World, c: nat)
    requires w.Frames() && w.Tables() && w.Trees() && w.LeafEntries() && c !in w.role
    requires w' == w.(mem := w'.mem, free := w'.free) && |w'.mem| == FRAMES
    requires forall f :: 0 <= f < FRAMES && f != c ==> w'.mem[f] == w.mem[f]
    ensures w'.Tables() && w'.Trees() && w'.LeafEntries()
  {
    hide OpenPath, Walk, Lookup;
    forall f, i | f in w'.role && !w'.role[f].slot.Pt? && 0 <= i < ENTRIES ensures w'.EntryOk(f, i) {
      assert w.EntryOk(f, i);
    }
    forall f, i | f in w'.role && w'.role[f].slot.Pt? && 0 <= i < ENTRIES ensures w'.LeafEntryOk(f, i) {
      assert w.LeafEntryOk(f, i);
    }
    forall d | d in w'.role && !w'.role[d].slot.Root? ensures w'.Hung(d) {
      assert w.Hung(d);
    }
  }

  /** The first PDPT of a space is a table. */
  lemma FirstPdpt(w: World, r: nat)
    requires w.Frames() && w.Tables() && w.Space(r) && Present(At(w.mem, r, 0))
    ensures var p := At(w.mem, r, 0).frame;
      p in w.role && w.role[p].slot == Pdpt(0) && (w.role[p].owner == r || w.role[p].owner == w.kernel)
  {
    assert w.EntryOk(r, 0);
  }

  /** Where no gigabyte of a space changed, the kernel's are still shared. */
  lemma SharesKept(w: World, w': World)
    requires w.Frames() && w.Shares() && w'.kernel == w.kernel && (forall r :: w'.Space(r) <==> w.Space(r))
    requires forall r, i :: w.Space(r) && 0 <= i < ENTRIES ==> Gigabyte(w'.mem, r, i) == Gigabyte(w.mem, r, i)
    ensures w'.Shares()
  {
    hide Gigabyte;
  }

  lemma ForeignShares(w: World, w': World, c: nat)
    requires w.Frames() && w.Tables() && w.Shares() && c !in w.role
    requires w' == w.(mem := w'.mem, free := w'.free) && |w'.mem| == FRAMES
    requires forall f :: 0 <= f < FRAMES && f != c ==> w'.mem[f] == w.mem[f]
    ensures w'.Shares()
  {
    hide World.EntryOk;
    forall r, i | w.Space(r) && 0 <= i < ENTRIES ensures Gigabyte(w'.mem, r, i) == Gigabyte(w.mem, r, i) {
      assert At(w'.mem, r, 0) == At(w.mem, r, 0);
      if Present(At(w.mem, r, 0)) { FirstPdpt(w, r); }
    }
    SharesKept(w, w');
  }

  lemma {:induction false} OwnPathForeign(w: World, w': World, f: nat, v: Va, c: nat)
    requires w.Frames() && w.OwnPath(f, v) && c !in w.role && w'.role == w.role
    requires |w'.mem| == FRAMES && forall g :: 0 <= g < FRAMES && g != c ==> w'.mem[g] == w.mem[g]
    ensures w'.OwnPath(f, v)
    decreases w.role[f].slot.Depth()
  {
    var e := At(w.mem, f, w.role[f].slot.Index(v));
    assert At(w'.mem, f, w.role[f].slot.Index(v)) == e;
    if !w.role[f].slot.Pt? && Present(e) { OwnPathForeign(w, w', e.frame, v, c); }
  }

  /** Adding flags to a present entry above leaf level. */
  ghost function Escalate(w: World, f: nat, i: nat, x: Word): World
    requires w.Frames() && f in w.role && i < ENTRIES
  {
    w.(mem := Put(w.mem, f, i, x))
  }

  ghost predicate CanEscalate(w: World, f: nat, i: nat, x: Word) {
    && w.Inv() && f in w.role && !w.role[f].slot.Pt? && i < ENTRIES
    && Present(At(w.mem, f, i)) && Present(x) && x.frame == At(w.mem, f, i).frame
    && (Open(At(w.mem, f, i)) ==> Open(x))
  }

  lemma EscalateKeeps(w: World, f: nat, i: nat, x: Word)
    requires CanEscalate(w, f, i, x)
    ensures Escalate(w, f, i, x).Inv() && SameLookups(w, Escalate(w, f, i, x))
    ensures forall g, v :: w.OwnPath(g, v) ==> Escalate(w, f, i, x).OwnPath(g, v)
  {
    hide OpenPath, Walk, World.EntryOk, World.LeafEntryOk, World.Hung;
    var w' := Escalate(w, f, i, x);
    forall r, v | w.Space(r) && ValidVa(v)
      ensures Lookup(w'.mem, r, v) == Lookup(w.mem, r, v)
      ensures OpenPath(w.mem, r, Root, v) ==> OpenPath(w'.mem, r, Root, v)
    {
      WalkEscalates(w, w'.mem, r, v, f, i, x);
    }
    SameLookupsKeep(w, w');
    EscalateTables(w, f, i, x);
    EscalateTrees(w, f, i, x);
    EscalateShares(w, f, i, x);
    forall g, v | w.OwnPath(g, v) ensures w'.OwnPath(g, v) {
      OwnPathEscalates(w, w', g, v, f, i, x);
    }
  }

  lemma EscalateTables(w: World, f: nat, i: nat, x: Word)
    requires CanEscalate(w, f, i, x)
    ensures Escalate(w, f, i, x).Tables()
  {
    hide OpenPath, Walk, Lookup, World.LeafEntryOk, World.Hung, World.OwnPath, World.Leaves, World.Reachable,
         World.Shares;
    var w' := Escalate(w, f, i, x);
    forall g, j | g in w'.role && !w'.role[g].slot.Pt? && 0 <= j < ENTRIES ensures w'.EntryOk(g, j) {
      assert w.EntryOk(g, j);
    }
  }

  lemma EscalateShares(w: World, f: nat, i: nat, x: Word)
    requires CanEscalate(w, f, i, x)
    ensures Escalate(w, f, i, x).Shares()
  {
    hide OpenPath, Walk, Lookup, World.EntryOk, World.LeafEntryOk, World.Hung, World.OwnPath, World.Leaves,
         World.Reachable, World.Shares;
    var w' := Escalate(w, f, i, x);
    forall r, j | w.Space(r) && 0 <= j < ENTRIES ensures Gigabyte(w'.mem, r, j) == Gigabyte(w.mem, r, j) {
      assert r != f || i != 0 ==> At(w'.mem, r, 0) == At(w.mem, r, 0);
      var p := At(w.mem, r, 0).frame;
      assert p != f || i != j ==> At(w'.mem, p, j) == At(w.mem, p, j);
    }
    SharesKept(w, w');
  }

  lemma EscalateTrees(w: World, f: nat, i: nat, x: Word)
    requires CanEscalate(w, f, i, x)
    ensures Escalate(w, f, i, x).Trees() && Escalate(w, f, i, x).LeafEntries()
  {
    hide OpenPath, Walk, Lookup, World.EntryOk, World.OwnPath, World.Leaves, World.Reachable, World.Shares;
    var w' := Escalate(w, f, i, x);
    forall g, j | g in w'.role && w'.role[g].slot.Pt? && 0 <= j < ENTRIES ensures w'.LeafEntryOk(g, j) {
      assert w.LeafEntryOk(g, j);
    }
    forall d | d in w'.role && !w'.role[d].slot.Root? ensures w'.Hung(d) {
      assert w.Hung(d);
    }
  }

  lemma {:induction false} OwnPathEscalates(w: World, w': World, g: nat, v: Va, f: nat, i: nat, x: Word)
    requires CanEscalate(w, f, i, x) && w' == Escalate(w, f, i, x) && w.OwnPath(g, v)
    ensures w'.OwnPath(g, v)
    decreases w.role[g].slot.Depth()
  {
    var k := w.role[g].slot.Index(v);
    var e := At(w.mem, g, k);
    assert g != f || k != i ==> At(w'.mem, g, k) == e;
    if !w.role[g].slot.Pt? && Present(e) { OwnPathEscalates(w, w', e.frame, v, f, i, x); }
  }

  /** Hanging a zeroed frame into an absent entry as the table that belongs there. */
  ghost function Hang(w: World, f: nat, i: nat, x: Word): World
    requires w.Frames() && f in w.role && !w.role[f].slot.Pt? && i < ENTRIES
  {
    w.(mem := Put(w.mem, f, i, x),
       role := w.role[x.frame := Role(w.role[f].owner, w.role[f].slot.Child(i), f)])
  }

  ghost predicate CanHang(w: World, f: nat, i: nat, x: Word) {
    && w.Inv() && f in w.role && !w.role[f].slot.Pt? && i < ENTRIES
    && !Present(At(w.mem, f, i)) && Present(x) && (w.role[f].owner == w.kernel ==> w.KernelOnly())
    && 0 < x.frame < FRAMES && x.frame !in w.role && x.frame !in w.leaf && x.frame !in w.free
    && forall j :: 0 <= j < ENTRIES ==> At(w.mem, x.frame, j) == ZERO
  }

  lemma HangKeeps(w: World, f: nat, i: nat, x: Word)
    requires CanHang(w, f, i, x)
    ensures Hang(w, f, i, x).Inv() && SameLookups(w, Hang(w, f, i, x))
    ensures forall g, v :: w.OwnPath(g, v) ==> Hang(w, f, i, x).OwnPath(g, v)
  {
    hide OpenPath, Walk;
    var w' := Hang(w, f, i, x);
    forall r, v | w.Space(r) && ValidVa(v)
      ensures Lookup(w'.mem, r, v) == Lookup(w.mem, r, v)
      ensures OpenPath(w.mem, r, Root, v) && UserPage(Lookup(w.mem, r, v)) ==> OpenPath(w'.mem, r, Root, v)
    {
      WalkHangs(w, w'.mem, r, v, f, i, x);
      if UserPage(Lookup(w.mem, r, v)) { OpenPathHangs(w, w'.mem, r, v, f, i, x); }
    }
    HangTables(w, f, i, x);
    HangShares(w, f, i, x);
    forall g | g in w'.leaf ensures w'.Mapped(g) {
      assert w.Mapped(g);
    }
    forall g, v | w.OwnPath(g, v) ensures w'.OwnPath(g, v) {
      OwnPathHangs(w, w', g, v, f, i, x);
    }
  }

  /** A new table of a process lies outside the kernel's gigabytes; the kernel's own tables are
      completed before the first process. */
  lemma HangShares(w: World, f: nat, i: nat, x: Word)
    requires CanHang(w, f, i, x)
    ensures Hang(w, f, i, x).Shares()
  {
    hide OpenPath, Walk, Lookup, World.EntryOk, World.LeafEntryOk, World.Hung, World.OwnPath, World.Leaves,
         World.Reachable;
    var w' := Hang(w, f, i, x);
    forall r, j | w'.Space(r) && 0 <= j < ENTRIES && Gigabyte(w'.mem, w.kernel, j).Some?
      ensures Gigabyte(w'.mem, r, j) == Gigabyte(w'.mem, w.kernel, j)
    {
      if r != w.kernel {
        HangGigabyte(w, f, i, x, w.kernel, j);
        HangGigabyte(w, f, i, x, r, j);
        KernelPdpt(w, f);
      }
    }
  }

  lemma KernelPdpt(w: World, f: nat)
    requires w.Frames() && w.Tables() && f in w.role
    ensures f == w.kernel ==> w.role[f].owner == w.kernel
    ensures Present(At(w.mem, w.kernel, 0)) && At(w.mem, w.kernel, 0).frame == f ==> w.role[f].owner == w.kernel
  {
    assert w.EntryOk(w.kernel, 0);
  }

  /** Hanging a table changes a gigabyte only where it hangs in that very PDPT. */
  lemma HangGigabyte(w: World, f: nat, i: nat, x: Word, r: nat, j: nat)
    requires CanHang(w, f, i, x) && w.Space(r) && j < ENTRIES
    ensures Gigabyte(w.mem, r, j).Some? ==> Gigabyte(Hang(w, f, i, x).mem, r, j) == Gigabyte(w.mem, r, j)
    ensures f != r && !(Present(At(w.mem, r, 0)) && At(w.mem, r, 0).frame == f) ==>
      Gigabyte(Hang(w, f, i, x).mem, r, j) == Gigabyte(w.mem, r, j)
    ensures f == r ==> Gigabyte(Hang(w, f, i, x).mem, r, j) == Gigabyte(w.mem, r, j)
  {
    hide World.KernelOnly, OpenPath, Walk, Lookup, World.LeafEntryOk, World.Hung, World.OwnPath, World.Leaves,
         World.Reachable, World.Shares;
    var mem' := Hang(w, f, i, x).mem;
    assert w.EntryOk(r, 0);
    var p := At(w.mem, r, 0).frame;
    assert r != f || i != 0 ==> At(mem', r, 0) == At(w.mem, r, 0);
    assert p != f || i != j ==> At(mem', p, j) == At(w.mem, p, j);
    if r == f && i == 0 { assert At(mem', x.frame, j) == At(w.mem, x.frame, j); }
  }

  lemma HangTables(w: World, f: nat, i: nat, x: Word)
    requires CanHang(w, f, i, x)
    ensures var w' := Hang(w, f, i, x); w'.Frames() && w'.Tables() && w'.Trees() && w'.LeafEntries()
  {
    hide CanHang, Hang, World.Frames, World.Tables, World.Trees, World.LeafEntries;
    HangFrames(w, f, i, x);
    HangTrees(w, f, i, x);
    HangEntries(w, f, i, x);
    HangLeaves(w, f, i, x);
  }

  lemma HangTrees(w: World, f: nat, i: nat, x: Word)
    requires CanHang(w, f, i, x)
    ensures Hang(w, f, i, x).Trees()
  {
    hide World.KernelOnly, World.Tables, World.LeafEntries, World.Leaves, World.Reachable, World.Shares;
    var w' := Hang(w, f, i, x);
    forall d | d in w'.role && !w'.role[d].slot.Root? ensures w'.Hung(d) {
      if d != x.frame { assert w.Hung(d); }
    }
  }

  lemma HangFrames(w: World, f: nat, i: nat, x: Word)
    requires CanHang(w, f, i, x)
    ensures Hang(w, f, i, x).Frames()
  {
    hide World.KernelOnly, World.Tables, World.Trees, World.LeafEntries, World.Leaves, World.Reachable, World.Shares;
    var w' := Hang(w, f, i, x);
    assert forall r :: w.Space(r) ==> w'.Space(r);
  }

  lemma HangEntries(w: World, f: nat, i: nat, x: Word)
    requires CanHang(w, f, i, x)
    ensures Hang(w, f, i, x).Tables()
  {
    hide World.KernelOnly, OpenPath, Walk, Lookup, World.LeafEntryOk, World.Hung, World.Leaves, World.Reachable,
         World.Shares;
    var w' := Hang(w, f, i, x);
    forall g, j | g in w'.role && !w'.role[g].slot.Pt? && 0 <= j < ENTRIES ensures w'.EntryOk(g, j) {
      if g == x.frame {
        assert At(w'.mem, g, j) == At(w.mem, g, j);
      } else {
        assert w.EntryOk(g, j);
      }
    }
  }

  lemma HangLeaves(w: World, f: nat, i: nat, x: Word)
    requires CanHang(w, f, i, x)
    ensures Hang(w, f, i, x).LeafEntries()
  {
    hide World.KernelOnly, OpenPath, Walk, Lookup, World.EntryOk, World.Hung, World.Leaves, World.Reachable,
         World.Shares;
    var w' := Hang(w, f, i, x);
    forall g, j | g in w'.role && w'.role[g].slot.Pt? && 0 <= j < ENTRIES ensures w'.LeafEntryOk(g, j) {
      if g == x.frame {
        assert At(w'.mem, g, j) == At(w.mem, g, j);
      } else {
        assert w.LeafEntryOk(g, j);
      }
    }
  }

  /** A path that ends in a leaf does not run through an absent entry. */
  lemma {:induction false} OpenPathHangs(w: World, mem': Memory, g: nat, v: Va, f: nat, i: nat, x: Word)
    requires CanHang(w, f, i, x) && mem' == Put(w.mem, f, i, x)
    requires g in w.role && w.role[g].slot.On(v) && ValidVa(v) && Walk(w.mem, g, w.role[g].slot, v).Some?
    ensures OpenPath(mem', g, w.role[g].slot, v) == OpenPath(w.mem, g, w.role[g].slot, v)
    decreases w.role[g].slot.Depth()
  {
    var k := w.role[g].slot.Index(v);
    assert At(mem', g, k) == At(w.mem, g, k);
    if !w.role[g].slot.Pt? {
      ChildTable(w, g, v);
      OpenPathHangs(w, mem', At(w.mem, g, k).frame, v, f, i, x);
    }
  }

  lemma {:induction false} OwnPathHangs(w: World, w': World, g: nat, v: Va, f: nat, i: nat, x: Word)
    requires CanHang(w, f, i, x) && w' == Hang(w, f, i, x) && w.OwnPath(g, v)
    ensures w'.OwnPath(g, v)
    decreases w.role[g].slot.Depth()
  {
    var k := w.role[g].slot.Index(v);
    var e := At(w.mem, g, k);
    if !w.role[g].slot.Pt? {
      if g == f && k == i {
        var c := x.frame;
        var j := w'.role[c].slot.Index(v);
        assert At(w'.mem, c, j) == At(w.mem, c, j);
        if j < ENTRIES { assert At(w.mem, c, j) == ZERO; }
        assert w'.OwnPath(c, v);
      } else {
        assert At(w'.mem, g, k) == e;
        if Present(e) { OwnPathHangs(w, w', e.frame, v, f, i, x); }
      }
    }
  }

  // ---------------------------------------------------------------- writing a leaf

  /** The walk of `v` from `g` passes present entries down to the page table `f`. */
  ghost predicate Reaches(mem: Memory, g: nat, slot: Slot, v: Va, f: nat)
    decreases slot.Depth()
  {
    if slot.Pt? then g == f
    else
      var e := At(mem, g, slot.Index(v));
      Present(e) && Reaches(mem, e.frame, slot.Child(slot.Index(v)), v, f)
  }

  lemma {:induction false} WalkHits(w: World, mem': Memory, g: nat, v: Va, f: nat, x: Word)
    requires w.Frames() && w.Tables() && g in w.role && w.role[g].slot.On(v) && ValidVa(v)
    requires f in w.role && w.role[f].slot.Pt? && mem' == Put(w.mem, f, v.i1, x)
    requires Reaches(w.mem, g, w.role[g].slot, v, f)
    ensures Walk(mem', g, w.role[g].slot, v) == if Present(x) then Some(x) else None
    ensures Walk(w.mem, g, w.role[g].slot, v)
         == if Present(At(w.mem, f, v.i1)) then Some(At(w.mem, f, v.i1)) else None
    ensures OpenPath(mem', g, w.role[g].slot, v) == OpenPath(w.mem, g, w.role[g].slot, v)
    decreases w.role[g].slot.Depth()
  {
    var slot := w.role[g].slot;
    if !slot.Pt? {
      var k := slot.Index(v);
      assert At(mem', g, k) == At(w.mem, g, k);
      ChildTable(w, g, v);
      WalkHits(w, mem', At(w.mem, g, k).frame, v, f, x);
    }
  }

  /** The entry is a user page outside the framebuffer, which the kernel allocated. */
  predicate OwnedPage(w: World, x: Word) {
    Present(x) && User(x) && !w.Fb(x.frame)
  }

  ghost function SetLeaf(w: World, f: nat, i: nat, x: Word): World
    requires w.Frames() && f in w.role && w.role[f].slot.Pt? && i < ENTRIES
  {
    var e := At(w.mem, f, i);
    var rest := if OwnedPage(w, e) then w.leaf - {e.frame} else w.leaf;
    w.(mem := Put(w.mem, f, i, x),
       leaf := if OwnedPage(w, x) then rest[x.frame := Leaf(w.role[f].owner, LeafVa(w.role[f].slot, i))] else rest)
  }

  ghost predicate CanSetLeaf(w: World, f: nat, i: nat, x: Word) {
    && w.Inv() && f in w.role && w.role[f].slot.Pt? && i < ENTRIES
    && (w.role[f].owner == w.kernel ==> w.KernelOnly())
    && (Present(x) && User(x) ==> OpenPath(w.mem, w.role[f].owner, Root, LeafVa(w.role[f].slot, i)))
    && (OwnedPage(w, x) ==> w.role[f].owner != w.kernel && w.role[f].slot.i4 < USER_HALF)
    && (OwnedPage(w, x) ==> 0 < x.frame < FRAMES && x.frame !in w.role && x.frame !in w.leaf && x.frame !in w.free)
  }

  /** Every table of an address space is reached from its root by the path of its place. */
  lemma {:induction false} HungReaches(w: World, f: nat, g: nat, v: Va)
    requires w.Frames() && w.Trees() && f in w.role && w.role[f].slot.Pt? && w.role[f].slot.On(v)
    requires g in w.role && w.role[g].owner == w.role[f].owner && w.role[g].slot.On(v)
    requires Reaches(w.mem, g, w.role[g].slot, v, f)
    ensures Reaches(w.mem, w.role[f].owner, Root, v, f)
    decreases 3 - w.role[g].slot.Depth()
  {
    if !w.role[g].slot.Root? {
      assert w.Hung(g);
      HungReaches(w, f, w.role[g].parent, v);
    }
  }

  lemma {:induction false} HungIndices(w: World, g: nat)
    requires w.Frames() && w.Trees() && g in w.role
    ensures match w.role[g].slot
            case Root => true
            case Pdpt(a) => a < ENTRIES
            case Pd(a, b) => a < ENTRIES && b < ENTRIES
            case Pt(a, b, c) => a < ENTRIES && b < ENTRIES && c < ENTRIES
    decreases 3 - w.role[g].slot.Depth()
  {
    if !w.role[g].slot.Root? {
      assert w.Hung(g);
      HungIndices(w, w.role[g].parent);
    }
  }

  /** An address space has at most one table at a place. */
  lemma {:induction false} OneTable(w: World, c: nat, d: nat)
    requires w.Frames() && w.Trees() && c in w.role && d in w.role
    requires w.role[c].owner == w.role[d].owner && w.role[c].slot == w.role[d].slot
    ensures c == d
    decreases 3 - w.role[c].slot.Depth()
  {
    if !w.role[c].slot.Root? {
      assert w.Hung(c) && w.Hung(d);
      OneTable(w, w.role[c].parent, w.role[d].parent);
    }
  }

  /** Exactly the translation of that address in the owner's space changes. */
  ghost predicate OnlyLookup(w: World, w': World, s: nat, va: Va, x: Option<Word>) {
    && Lookup(w'.mem, s, va) == x
    && forall r, v :: w.Space(r) && ValidVa(v) && (r != s || v != va) ==>
         Lookup(w'.mem, r, v) == Lookup(w.mem, r, v)
  }

  lemma SetLeafLookups(w: World, f: nat, i: nat, x: Word)
    requires CanSetLeaf(w, f, i, x)
    ensures var w', s, va := SetLeaf(w, f, i, x), w.role[f].owner, LeafVa(w.role[f].slot, i);
      && ValidVa(va) && OnlyLookup(w, w', s, va, if Present(x) then Some(x) else None)
      && (forall r, v :: w.Space(r) && ValidVa(v) ==> OpenPath(w'.mem, r, Root, v) == OpenPath(w.mem, r, Root, v))
      && Lookup(w.mem, s, va) == if Present(At(w.mem, f, i)) then Some(At(w.mem, f, i)) else None
  {
    hide Walk, OpenPath;
    var w', s, va := SetLeaf(w, f, i, x), w.role[f].owner, LeafVa(w.role[f].slot, i);
    HungIndices(w, f);
    HungReaches(w, f, f, va);
    WalkHits(w, w'.mem, s, va, f, x);
    forall r, v | w.Space(r) && ValidVa(v) && (r != s || v != va)
      ensures Lookup(w'.mem, r, v) == Lookup(w.mem, r, v)
      ensures OpenPath(w'.mem, r, Root, v) == OpenPath(w.mem, r, Root, v)
    {
      WalkMisses(w, w'.mem, r, v, f, i, x);
    }
  }

  lemma SetLeafTables(w: World, f: nat, i: nat, x: Word)
    requires CanSetLeaf(w, f, i, x)
    ensures var w' := SetLeaf(w, f, i, x); w'.Frames() && w'.Tables() && w'.Trees() && w'.LeafEntries()
  {
    hide Walk, OpenPath, Lookup, World.Leaves, World.Reachable, World.Shares, World.EntryOk, World.LeafEntryOk,
         World.Hung;
    var w' := SetLeaf(w, f, i, x);
    SetLeafUpper(w, f, i, x);
    SetLeafTrees(w, f, i, x);
    forall g, j | g in w'.role && w'.role[g].slot.Pt? && 0 <= j < ENTRIES ensures w'.LeafEntryOk(g, j) {
      SetLeafEntry(w, f, i, x, g, j);
    }
  }

  lemma SetLeafTrees(w: World, f: nat, i: nat, x: Word)
    requires CanSetLeaf(w, f, i, x)
    ensures SetLeaf(w, f, i, x).Trees()
  {
    hide Walk, OpenPath, Lookup, World.Leaves, World.Reachable, World.Shares, World.EntryOk, World.LeafEntryOk;
    var w' := SetLeaf(w, f, i, x);
    forall d | d in w'.role && !w'.role[d].slot.Root? ensures w'.Hung(d) {
      assert w.Hung(d);
    }
  }

  lemma SetLeafShares(w: World, f: nat, i: nat, x: Word)
    requires CanSetLeaf(w, f, i, x)
    ensures SetLeaf(w, f, i, x).Shares()
  {
    hide Walk, OpenPath, Lookup, World.Leaves, World.Reachable, World.Shares, World.LeafEntryOk, World.Hung,
         World.EntryOk;
    var w' := SetLeaf(w, f, i, x);
    forall r, j | w.Space(r) && 0 <= j < ENTRIES ensures Gigabyte(w'.mem, r, j) == Gigabyte(w.mem, r, j) {
      assert At(w'.mem, r, 0) == At(w.mem, r, 0);
      if Present(At(w.mem, r, 0)) { FirstPdpt(w, r); }
    }
    SharesKept(w, w');
  }

  lemma SetLeafUpper(w: World, f: nat, i: nat, x: Word)
    requires CanSetLeaf(w, f, i, x)
    ensures SetLeaf(w, f, i, x).Tables()
  {
    hide Walk, OpenPath, Lookup, World.Leaves, World.Reachable, World.Shares, World.LeafEntryOk, World.Hung;
    var w' := SetLeaf(w, f, i, x);
    forall g, j | g in w'.role && !w'.role[g].slot.Pt? && 0 <= j < ENTRIES ensures w'.EntryOk(g, j) {
      assert w.EntryOk(g, j);
    }
  }

  lemma SetLeafEntry(w: World, f: nat, i: nat, x: Word, g: nat, j: nat)
    requires CanSetLeaf(w, f, i, x) && g in w.role && w.role[g].slot.Pt? && j < ENTRIES
    ensures SetLeaf(w, f, i, x).LeafEntryOk(g, j)
  {
    hide Walk, OpenPath, Lookup, World.Leaves, World.Reachable, World.Shares;
    assert w.LeafEntryOk(g, j);
    if (g != f || j != i) && OwnedPage(w, At(w.mem, f, i)) && OwnedPage(w, At(w.mem, g, j)) {
      OtherPage(w, f, i, g, j);
    }
  }

  /** Different leaf entries of own pages hold different frames. */
  lemma OtherPage(w: World, f: nat, i: nat, g: nat, j: nat)
    requires w.Frames() && w.Trees() && w.LeafEntries()
    requires f in w.role && g in w.role && w.role[f].slot.Pt? && w.role[g].slot.Pt?
    requires i < ENTRIES && j < ENTRIES && (g != f || j != i)
    requires OwnedPage(w, At(w.mem, f, i)) && OwnedPage(w, At(w.mem, g, j))
    ensures At(w.mem, f, i).frame != At(w.mem, g, j).frame
  {
    assert w.LeafEntryOk(f, i) && w.LeafEntryOk(g, j);
    if At(w.mem, f, i).frame == At(w.mem, g, j).frame { OneTable(w, f, g); }
  }

  lemma SetLeafKeeps(w: World, f: nat, i: nat, x: Word)
    requires CanSetLeaf(w, f, i, x)
    ensures SetLeaf(w, f, i, x).Inv()
    ensures forall g, v :: w.OwnPath(g, v) ==> SetLeaf(w, f, i, x).OwnPath(g, v)
  {
    hide Walk, OpenPath, Lookup;
    var w', s, va := SetLeaf(w, f, i, x), w.role[f].owner, LeafVa(w.role[f].slot, i);
    SetLeafLookups(w, f, i, x);
    SetLeafTables(w, f, i, x);
    SetLeafShares(w, f, i, x);
    forall g | g in w'.leaf ensures w'.Mapped(g) {
      if g in w.leaf { assert w.Mapped(g); }
      assert w.LeafEntryOk(f, i);
    }
    forall g, v | w.OwnPath(g, v) ensures w'.OwnPath(g, v) {
      OwnPathLeaf(w, w', g, v, f, i, x);
    }
  }

  lemma {:induction false} OwnPathLeaf(w: World, w': World, g: nat, v: Va, f: nat, i: nat, x: Word)
    requires w.Frames() && f in w.role && w.role[f].slot.Pt? && i < ENTRIES
    requires w'.mem == Put(w.mem, f, i, x) && w'.role == w.role && w.OwnPath(g, v)
    ensures w'.OwnPath(g, v)
    decreases w.role[g].slot.Depth()
  {
    if !w.role[g].slot.Pt? {
      var e := At(w.mem, g, w.role[g].slot.Index(v));
      assert At(w'.mem, g, w.role[g].slot.Index(v)) == e;
      if Present(e) { OwnPathLeaf(w, w', e.frame, v, f, i, x); }
    }
  }

  // ---------------------------------------------------------------- frames given back, spaces added

  lemma GiveBackKeeps(w: World, f: nat)
    requires w.Inv() && 0 < f && f !in w.role && f !in w.leaf && !w.Fb(f)
    ensures w.(free := w.free + {f}).Inv()
    ensures forall g, v :: w.OwnPath(g, v) ==> w.(free := w.free + {f}).OwnPath(g, v)
  {
    hide Walk, OpenPath, Lookup;
    var w' := w.(free := w.free + {f});
    assert SameLookups(w, w') && PathsStayOpen(w, w');
    SameLookupsKeep(w, w');
    forall g, i | g in w'.role && !w'.role[g].slot.Pt? && 0 <= i < ENTRIES ensures w'.EntryOk(g, i) {
      assert w.EntryOk(g, i);
    }
    forall g, i | g in w'.role && w'.role[g].slot.Pt? && 0 <= i < ENTRIES ensures w'.LeafEntryOk(g, i) {
      assert w.LeafEntryOk(g, i);
    }
    forall d | d in w'.role && !w'.role[d].slot.Root? ensures w'.Hung(d) {
      assert w.Hung(d);
    }
    ForeignShares(w, w', FRAMES);
    forall g, v | w.OwnPath(g, v) ensures w'.OwnPath(g, v) {
      OwnPathForeign(w, w', g, v, FRAMES);
    }
  }

  /** A user page outside the framebuffer lies in the lower half and is recorded under its space and
      address. */
  lemma {:induction false} UserRecord(w: World, r: nat, g: nat, v: Va)
    requires w.Frames() && w.Tables() && w.LeafEntries()
    requires g in w.role && (w.role[g].owner == r || w.role[g].owner == w.kernel) && w.role[g].slot.On(v) && ValidVa(v)
    requires UserPage(Walk(w.mem, g, w.role[g].slot, v))
    ensures var f := Walk(w.mem, g, w.role[g].slot, v).value.frame;
      w.Fb(f) || (v.i4 < USER_HALF && w.role[g].owner != w.kernel && f in w.leaf && w.leaf[f] == Leaf(r, v))
    decreases w.role[g].slot.Depth()
  {
    var slot := w.role[g].slot;
    var k := slot.Index(v);
    if slot.Pt? {
      assert w.LeafEntryOk(g, k);
    } else {
      ChildTable(w, g, v);
      UserRecord(w, r, At(w.mem, g, k).frame, v);
    }
  }

  /** The only user pages of the kernel are those of the framebuffer. */
  lemma KernelUserIsFb(w: World, v: Va)
    requires w.Inv() && ValidVa(v) && UserPage(Lookup(w.mem, w.kernel, v))
    ensures w.Fb(Lookup(w.mem, w.kernel, v).value.frame)
  {
    hide Walk, World.Leaves, World.Reachable, World.Shares, World.Trees;
    UserRecord(w, w.kernel, w.kernel, v);
  }

  /** In the kernel's gigabytes every space translates as the kernel does. */
  lemma SharedSlot(w: World, r: nat, v: Va)
    requires w.Inv() && w.Space(r) && ValidVa(v) && KernelSlot(w, v)
    ensures Lookup(w.mem, r, v) == Lookup(w.mem, w.kernel, v)
  {
    hide World.Leaves, World.Reachable, World.Trees, World.LeafEntries, World.Tables;
    assert Gigabyte(w.mem, r, v.i3) == Gigabyte(w.mem, w.kernel, v.i3);
    ThroughGigabyte(w.mem, r, v);
    ThroughGigabyte(w.mem, w.kernel, v);
  }

  lemma ThroughGigabyte(mem: Memory, r: nat, v: Va)
    requires v.i4 == 0 && Gigabyte(mem, r, v.i3).Some?
    ensures Lookup(mem, r, v) == Walk(mem, Gigabyte(mem, r, v.i3).value, Pd(0, v.i3), v)
  {
    var e := At(mem, r, 0);
    assert Walk(mem, r, Root, v) == Walk(mem, e.frame, Pdpt(0), v);
  }

  /** The tables of a new space: the upper half of the kernel's PML4, and a private copy of the
      kernel's first PDPT. */
  function RootPage(mem: Memory, kernel: nat, pdpt: nat): (r: seq<Word>)
    ensures |r| == ENTRIES
  {
    seq(ENTRIES, i requires 0 <= i < ENTRIES =>
      if i == 0 then Word(pdpt, 7) else if i >= USER_HALF then At(mem, kernel, i) else ZERO)
  }

  function PdptPage(mem: Memory, kernel: nat): (r: seq<Word>)
    ensures |r| == ENTRIES
  {
    var k := At(mem, kernel, 0).frame;
    seq(ENTRIES, i requires 0 <= i < ENTRIES => if k != 0 then At(mem, k, i) else ZERO)
  }

  ghost function AddSpace(w: World, r: nat, p: nat): World
    requires w.Frames() && r < FRAMES && p < FRAMES
  {
    w.(mem := w.mem[r := RootPage(w.mem, w.kernel, p)][p := PdptPage(w.mem, w.kernel)],
       role := w.role[r := Role(r, Root, r)][p := Role(r, Pdpt(0), r)])
  }

  ghost predicate CanAdd(w: World, r: nat, p: nat) {
    && w.Inv() && 0 < r < FRAMES && 0 < p < FRAMES && r != p
    && r !in w.role && r !in w.leaf && r !in w.free && p !in w.role && p !in w.leaf && p !in w.free
  }

  /** The address lies in a gigabyte the kernel's first PDPT maps. */
  ghost predicate KernelSlot(w: World, v: Va) {
    v.i4 == 0 && Gigabyte(w.mem, w.kernel, v.i3).Some?
  }

  lemma AddSpaceTables(w: World, r: nat, p: nat)
    requires CanAdd(w, r, p)
    ensures var w' := AddSpace(w, r, p); w'.Frames() && w'.Tables() && w'.Trees() && w'.LeafEntries()
  {
    hide Walk, OpenPath, Lookup, RootPage, PdptPage, World.EntryOk, World.LeafEntryOk, World.Leaves, World.Reachable,
         World.Shares, World.Hung, World.Trees, World.LeafEntries;
    var w' := AddSpace(w, r, p);
    forall g, i | g in w'.role && !w'.role[g].slot.Pt? && 0 <= i < ENTRIES ensures w'.EntryOk(g, i) {
      AddSpaceEntry(w, r, p, g, i);
    }
    AddSpaceLeaves(w, r, p);
    AddSpaceTrees(w, r, p);
  }

  lemma AddSpaceLeaves(w: World, r: nat, p: nat)
    requires CanAdd(w, r, p)
    ensures AddSpace(w, r, p).LeafEntries()
  {
    hide Walk, OpenPath, Lookup, RootPage, PdptPage, World.EntryOk, World.Leaves, World.Reachable, World.Shares,
         World.Trees;
    var w' := AddSpace(w, r, p);
    forall g, i | g in w'.role && w'.role[g].slot.Pt? && 0 <= i < ENTRIES ensures w'.LeafEntryOk(g, i) {
      assert w.LeafEntryOk(g, i);
    }
  }

  lemma AddSpaceTrees(w: World, r: nat, p: nat)
    requires CanAdd(w, r, p)
    ensures AddSpace(w, r, p).Trees()
  {
    hide Walk, OpenPath, Lookup, PdptPage;
    var w' := AddSpace(w, r, p);
    forall d | d in w'.role && !w'.role[d].slot.Root? ensures w'.Hung(d) {
      if d != p { assert w.Hung(d); }
    }
  }

  lemma AddSpaceEntry(w: World, r: nat, p: nat, g: nat, i: nat)
    requires CanAdd(w, r, p) && i < ENTRIES
    requires var w' := AddSpace(w, r, p); g in w'.role && !w'.role[g].slot.Pt?
    ensures AddSpace(w, r, p).EntryOk(g, i)
  {
    hide Walk, OpenPath, Lookup, World.Leaves, World.Reachable, World.Shares, World.LeafEntries, World.Trees;
    var k := At(w.mem, w.kernel, 0).frame;
    assert w.EntryOk(w.kernel, 0);
    if g == r {
      assert w.EntryOk(w.kernel, i);
    } else if g == p {
      if k != 0 { assert w.EntryOk(k, i); }
    } else {
      assert w.EntryOk(g, i);
    }
  }

  /** A table of `w` is walked in the extended world as before. */
  lemma AddSpaceWalks(w: World, r: nat, p: nat, g: nat, v: Va)
    requires CanAdd(w, r, p) && g in w.role && w.role[g].slot.On(v) && ValidVa(v)
    ensures var mem' := AddSpace(w, r, p).mem;
      && Walk(mem', g, w.role[g].slot, v) == Walk(w.mem, g, w.role[g].slot, v)
      && OpenPath(mem', g, w.role[g].slot, v) == OpenPath(w.mem, g, w.role[g].slot, v)
  {
    hide Walk, OpenPath;
    var page := RootPage(w.mem, w.kernel, p);
    var w1 := WriteFrame(w, r, page, w.free);
    WalkForeign(w, w1.mem, g, v, r);
    WriteFrameKeeps(w, r, page, w.free);
    WalkForeign(w1, AddSpace(w, r, p).mem, g, v, p);
  }

  /** What the new space maps: the kernel's pages in the upper half and the first PML4 slot. */
  lemma AddSpaceLookup(w: World, r: nat, p: nat, v: Va)
    requires CanAdd(w, r, p) && ValidVa(v)
    ensures Lookup(AddSpace(w, r, p).mem, r, v)
         == if v.i4 == 0 || v.i4 >= USER_HALF then Lookup(w.mem, w.kernel, v) else None
  {
    var w' := AddSpace(w, r, p);
    var e := At(w.mem, w.kernel, v.i4);
    assert w.EntryOk(w.kernel, v.i4);
    if v.i4 >= USER_HALF {
      assert At(w'.mem, r, v.i4) == e;
      if Present(e) { AddSpaceWalks(w, r, p, e.frame, v); }
    } else if v.i4 == 0 {
      assert At(w'.mem, r, 0) == Word(p, 7);
      var d := At(w'.mem, p, v.i3);
      if Present(e) {
        assert w.EntryOk(e.frame, v.i3);
        assert d == At(w.mem, e.frame, v.i3);
        if Present(d) { AddSpaceWalks(w, r, p, d.frame, v); }
      }
    } else {
      assert At(w'.mem, r, v.i4) == ZERO;
    }
  }

  /** Space `r` has no page of its own. */
  ghost predicate NoOwnedPages(w: World, r: nat) {
    forall v :: ValidVa(v) && UserPage(Lookup(w.mem, r, v)) ==> w.Fb(Lookup(w.mem, r, v).value.frame)
  }

  /** The inherited framebuffer pages are reachable in user mode in the new space. */
  lemma AddSpaceOpen(w: World, r: nat, p: nat, v: Va)
    requires CanAdd(w, r, p) && ValidVa(v) && UserPage(Lookup(AddSpace(w, r, p).mem, r, v))
    ensures OpenPath(AddSpace(w, r, p).mem, r, Root, v)
  {
    hide World.Leaves, World.Trees, World.LeafEntries, World.Shares, World.Reachable, Walk, Lookup, RootPage, PdptPage;
    var w' := AddSpace(w, r, p);
    AddSpaceLookup(w, r, p, v);
    KernelOpen(w, v);
    AddSpacePages(w, r, p, v);
    var e := At(w.mem, w.kernel, v.i4);
    assert w.EntryOk(w.kernel, v.i4);
    if v.i4 >= USER_HALF {
      AddSpaceWalks(w, r, p, e.frame, v);
    } else {
      var d := At(w'.mem, p, v.i3);
      assert w.EntryOk(e.frame, v.i3);
      AddSpaceWalks(w, r, p, d.frame, v);
      assert OpenPath(w'.mem, p, Pdpt(0), v);
    }
  }

  lemma KernelOpen(w: World, v: Va)
    requires w.Inv() && ValidVa(v) && UserPage(Lookup(w.mem, w.kernel, v))
    ensures OpenPath(w.mem, w.kernel, Root, v) && w.Space(w.kernel)
  {
    hide OpenPath, Lookup;
  }

  /** The entries of the new tables on the way to `v`. */
  lemma AddSpacePages(w: World, r: nat, p: nat, v: Va)
    requires CanAdd(w, r, p) && ValidVa(v)
    ensures var mem' := AddSpace(w, r, p).mem;
      && (v.i4 >= USER_HALF ==> At(mem', r, v.i4) == At(w.mem, w.kernel, v.i4))
      && At(mem', r, 0) == Word(p, 7)
      && (Present(At(w.mem, w.kernel, 0)) ==> At(mem', p, v.i3) == At(w.mem, At(w.mem, w.kernel, 0).frame, v.i3))
  {
    hide World.Leaves, World.Trees, World.LeafEntries, World.Shares, World.Reachable;
    assert w.EntryOk(w.kernel, 0);
  }

  lemma AddSpaceShares(w: World, r: nat, p: nat)
    requires CanAdd(w, r, p)
    ensures AddSpace(w, r, p).Shares()
  {
    hide World.Leaves, World.Trees, World.LeafEntries, World.Reachable, World.EntryOk;
    var w' := AddSpace(w, r, p);
    forall g, i | w'.Space(g) && 0 <= i < ENTRIES && Gigabyte(w'.mem, w.kernel, i).Some?
      ensures Gigabyte(w'.mem, g, i) == Gigabyte(w'.mem, w.kernel, i)
    {
      AddSpaceGigabyte(w, r, p, w.kernel, i);
      if g != r {
        AddSpaceGigabyte(w, r, p, g, i);
      } else {
        FirstPdpt(w, w.kernel);
        assert At(w'.mem, r, 0) == Word(p, 7);
      }
    }
  }

  lemma AddSpaceGigabyte(w: World, r: nat, p: nat, g: nat, i: nat)
    requires CanAdd(w, r, p) && w.Space(g) && i < ENTRIES
    ensures Gigabyte(AddSpace(w, r, p).mem, g, i) == Gigabyte(w.mem, g, i)
  {
    hide World.Leaves, World.Trees, World.LeafEntries, World.Reachable, World.EntryOk, World.Shares;
    var w' := AddSpace(w, r, p);
    assert At(w'.mem, g, 0) == At(w.mem, g, 0);
    if Present(At(w.mem, g, 0)) { FirstPdpt(w, g); }
  }

  lemma AddSpaceKeeps(w: World, r: nat, p: nat)
    requires CanAdd(w, r, p)
    ensures AddSpace(w, r, p).Inv() && SameLookups(w, AddSpace(w, r, p)) && NoOwnedPages(AddSpace(w, r, p), r)
  {
    hide Walk, OpenPath;
    var w' := AddSpace(w, r, p);
    AddSpaceTables(w, r, p);
    AddSpaceShares(w, r, p);
    forall v | ValidVa(v) && UserPage(Lookup(w'.mem, r, v)) ensures w.Fb(Lookup(w'.mem, r, v).value.frame) {
      AddSpaceLookup(w, r, p, v);
      KernelUserIsFb(w, v);
    }
    forall v | ValidVa(v) && UserPage(Lookup(w'.mem, r, v)) ensures OpenPath(w'.mem, r, Root, v) {
      AddSpaceOpen(w, r, p, v);
    }
    forall g, v | w.Space(g) && ValidVa(v)
      ensures Lookup(w'.mem, g, v) == Lookup(w.mem, g, v)
      ensures OpenPath(w'.mem, g, Root, v) == OpenPath(w.mem, g, Root, v)
    {
      AddSpaceWalks(w, r, p, g, v);
    }
    forall g | g in w'.leaf ensures w'.Mapped(g) {
      assert w.Mapped(g);
    }
  }

  /** Outside the kernel's gigabytes the lower half of a new space is its own. */
  lemma AddSpaceOwn(w: World, r: nat, p: nat, v: Va)
    requires CanAdd(w, r, p) && ValidVa(v) && v.i4 < USER_HALF && !KernelSlot(w, v)
    ensures AddSpace(w, r, p).OwnPath(r, v)
  {
    var w' := AddSpace(w, r, p);
    assert w.EntryOk(w.kernel, 0);
    if v.i4 == 0 {
      assert At(w'.mem, r, 0) == Word(p, 7);
      var k := At(w.mem, w.kernel, 0).frame;
      assert At(w'.mem, p, v.i3) == if k != 0 then At(w.mem, k, v.i3) else ZERO;
      assert w'.OwnPath(p, v);
    } else {
      assert At(w'.mem, r, v.i4) == ZERO;
    }
  }
}

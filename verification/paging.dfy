/** The paging code of paging.cpp over physical memory and the page allocator: mapping, unmapping,
    address spaces, the fork copy and teardown. */
module Paging {
  import opened Bits
  import opened Common
  import opened PageTables
  import opened Pmm

  const PRESENT_WRITABLE: Flags := 3
  const PRESENT_WRITABLE_USER: Flags := 7

  // ---------------------------------------------------------------- what one space may change

  /** Tables are only added, out of free frames, for space `s`. */
  ghost predicate RolesGrow(w: World, w': World, s: nat) {
    && w'.kernel == w.kernel && w'.fbLo == w.fbLo && w'.fbHi == w.fbHi
    && (forall f :: f in w.role ==> f in w'.role && w'.role[f] == w.role[f])
    && (forall f :: f in w'.role && f !in w.role ==> f in w.free && w'.role[f].owner == s && !w'.role[f].slot.Root?)
  }

  /** Frames in use stay as they are, except the tables of space `s`. */
  ghost predicate Untouched(w: World, w': World, s: nat) {
    && |w'.mem| == |w.mem|
    && forall f :: 0 <= f < |w.mem| && f !in w.free && !(f in w.role && w.role[f].owner == s) ==> w'.mem[f] == w.mem[f]
  }

  ghost predicate OwnPathsKept(w: World, w': World) {
    forall g, v :: w.OwnPath(g, v) ==> w'.OwnPath(g, v)
  }

  /** Space `s` gained tables and nothing else happened. */
  ghost predicate Grows(w: World, w': World, s: nat) {
    && RolesGrow(w, w', s) && w'.leaf == w.leaf
    && w'.free == w.free - (w'.role.Keys - w.role.Keys)
    && Untouched(w, w', s) && SameLookups(w, w') && OwnPathsKept(w, w')
  }

  lemma GrowsTwice(w: World, w1: World, w2: World, s: nat)
    requires Grows(w, w1, s) && Grows(w1, w2, s)
    ensures Grows(w, w2, s)
  {
    hide Lookup, World.OwnPath;
    assert forall r :: w.Space(r) ==> w1.Space(r);
    forall f | f in w2.role && f !in w.role ensures f in w.free && w2.role[f].owner == s && !w2.role[f].slot.Root? {
      if f in w1.role { assert w2.role[f] == w1.role[f]; }
    }
    assert w2.free == w.free - (w2.role.Keys - w.role.Keys);
  }

  lemma OrStep(a: nat, b: nat)
    ensures Or(a, b) % 2 == 1 <==> a % 2 == 1 || b % 2 == 1
    ensures Or(a, b) / 2 == Or(a / 2, b / 2)
  {
  }

  lemma OrFlags(fl: Flags, upper: Flags)
    requires upper == PRESENT_WRITABLE || upper == PRESENT_WRITABLE_USER
    ensures var x := Or(fl, upper);
      && x < 0x1000 && x % 2 == 1 && x / 2 % 2 == 1
      && (x / 4 % 2 == 1 <==> upper == PRESENT_WRITABLE_USER || fl / 4 % 2 == 1)
  {
    hide Or, Pow2;
    var k := 12;
    assert Pow2(k) == 0x1000 by { Pow2Add(8, 4); Pow2Small(); }
    OrBound(fl, upper, k);
    OrStep(fl, upper);
    OrStep(fl / 2, upper / 2);
    OrStep(fl / 2 / 2, upper / 2 / 2);
    assert Or(fl, upper) / 2 / 2 == Or(fl, upper) / 4 && fl / 2 / 2 == fl / 4 && upper / 2 / 2 == upper / 4;
  }

  lemma EscalateGrows(w: World, f: nat, i: nat, x: Word)
    requires CanEscalate(w, f, i, x)
    ensures Escalate(w, f, i, x).Inv() && Grows(w, Escalate(w, f, i, x), w.role[f].owner)
    ensures At(Escalate(w, f, i, x).mem, f, i) == x
    ensures forall g, j :: g in w.role && 0 <= j < ENTRIES && (g != f || j != i) ==>
      At(Escalate(w, f, i, x).mem, g, j) == At(w.mem, g, j)
  {
    hide World.OwnPath, Lookup, World.LeafEntries, World.Leaves, World.Reachable, World.Shares, World.Trees,
         World.Tables;
    EscalateKeeps(w, f, i, x);
    assert w.role.Keys - w.role.Keys == {};
  }

  /** Entry `i` of `f` now leads to table `c`, with the upper flags; a new table is empty, and no
      other entry of the known tables changed. */
  ghost predicate Stepped(w: World, w': World, f: nat, i: nat, upper: Flags, c: nat)
    requires f in w.role && !w.role[f].slot.Pt?
  {
    && f in w'.role && w'.role[f] == w.role[f] && c != 0
    && c in w'.role && w'.role[c].owner == w.role[f].owner && w'.role[c].slot == w.role[f].slot.Child(i)
    && Leads(w'.mem, f, i, upper, c)
    && (c !in w.role ==> forall j :: 0 <= j < ENTRIES ==> At(w'.mem, c, j) == ZERO)
    && (forall g, j :: g in w.role && 0 <= j < ENTRIES && (g != f || j != i) ==> At(w'.mem, g, j) == At(w.mem, g, j))
  }

  ghost predicate Leads(mem: Memory, f: nat, i: nat, upper: Flags, c: nat) {
    var e := At(mem, f, i);
    Present(e) && e.frame == c && (upper == PRESENT_WRITABLE_USER ==> Open(e))
  }

  lemma HangGrows(w: World, f: nat, i: nat, x: Word)
    requires w.Inv() && f in w.role && !w.role[f].slot.Pt? && i < ENTRIES && !Present(At(w.mem, f, i))
    requires w.role[f].owner == w.kernel ==> w.KernelOnly()
    requires x.frame in w.free && x.frame < FRAMES && (x.flags == PRESENT_WRITABLE || x.flags == PRESENT_WRITABLE_USER)
    ensures var w1 := WriteFrame(w, x.frame, Zeros(), w.free - {x.frame});
      && w1.Frames() && Hang(w1, f, i, x).Inv() && Grows(w, Hang(w1, f, i, x), w.role[f].owner)
      && Stepped(w, Hang(w1, f, i, x), f, i, x.flags, x.frame)
  {
    hide World.OwnPath, Lookup, World.LeafEntries, World.Leaves, World.Reachable, World.Shares, World.Trees,
         World.Tables, Stepped;
    var w1 := WriteFrame(w, x.frame, Zeros(), w.free - {x.frame});
    WriteFrameKeeps(w, x.frame, Zeros(), w.free - {x.frame});
    HangKeeps(w1, f, i, x);
    var w2 := Hang(w1, f, i, x);
    assert w2.role.Keys - w.role.Keys == {x.frame};
    assert forall r :: w.Space(r) ==> w1.Space(r);
    HangSteps(w, f, i, x);
  }

  lemma HangSteps(w: World, f: nat, i: nat, x: Word)
    requires w.Frames() && f in w.role && !w.role[f].slot.Pt? && i < ENTRIES
    requires x.frame in w.free && x.frame < FRAMES && (x.flags == PRESENT_WRITABLE || x.flags == PRESENT_WRITABLE_USER)
    ensures var w1 := WriteFrame(w, x.frame, Zeros(), w.free - {x.frame});
      w1.Frames() && Stepped(w, Hang(w1, f, i, x), f, i, x.flags, x.frame)
  {
  }

  /** Entry `x` may be installed for address `v` of space `s` in tables of its own. The kernel maps
      before the first process, and of user pages only the framebuffer. */
  ghost predicate OwnMap(w: World, s: nat, v: Va, x: Word) {
    && w.Space(s) && ValidVa(v) && w.OwnPath(s, v)
    && (s == w.kernel ==> w.KernelOnly())
    && (OwnedPage(w, x) ==> s != w.kernel && v.i4 < USER_HALF)
    && (OwnedPage(w, x) ==> 0 < x.frame < FRAMES && x.frame !in w.role && x.frame !in w.leaf && x.frame !in w.free)
  }

  /** A framebuffer page is mapped once more as it is, in whoever's tables. */
  ghost predicate Again(w: World, s: nat, v: Va, x: Word) {
    w.Space(s) && ValidVa(v) && User(x) && w.Fb(x.frame) && Lookup(w.mem, s, v) == Some(x)
  }

  ghost predicate MapAllowed(w: World, s: nat, v: Va, x: Word) {
    OwnMap(w, s, v, x) || Again(w, s, v, x)
  }

  /** The frames that alloc_page can give out. */
  function Below(free: set<nat>): set<nat> {
    set f | f in free && f < FRAMES
  }

  lemma BelowTaken(free: set<nat>, c: nat)
    requires c in free && c < FRAMES
    ensures |Below(free - {c})| == |Below(free)| - 1
  {
    assert Below(free - {c}) == Below(free) - {c};
  }

  lemma BelowNone(free: set<nat>)
    requires forall f :: f in free ==> f >= FRAMES
    ensures |Below(free)| == 0
  {
    assert Below(free) == {};
  }

  /** Mapping a framebuffer page once more changes nothing. */
  lemma AgainSame(w: World, s: nat, v: Va, x: Word)
    requires w.Inv() && Again(w, s, v, x)
    ensures Present(x) && OpenPath(w.mem, s, Root, v) && Remapped(w, w, s, v, x)
  {
    hide World.OwnPath, OpenPath, World.Tables, World.Trees, World.LeafEntries, World.Leaves, World.Shares;
    PresentLeaf(w.mem, s, Root, v);
    assert w.role.Keys - w.role.Keys == {};
  }

  lemma {:induction false} PresentLeaf(mem: Memory, f: nat, slot: Slot, v: Va)
    ensures Walk(mem, f, slot, v).Some? ==> Present(Walk(mem, f, slot, v).value)
    decreases slot.Depth()
  {
    var e := At(mem, f, slot.Index(v));
    if Present(e) && !slot.Pt? { PresentLeaf(mem, e.frame, slot.Child(slot.Index(v)), v); }
  }

  /** The open path of a translation, entry by entry. */
  lemma OpenSteps(w: World, s: nat, v: Va)
    requires w.Frames() && w.Tables() && w.Space(s) && ValidVa(v) && OpenPath(w.mem, s, Root, v)
    requires Lookup(w.mem, s, v).Some?
    ensures var e4 := At(w.mem, s, v.i4); var e3 := At(w.mem, e4.frame, v.i3); var e2 := At(w.mem, e3.frame, v.i2);
      && Open(e4) && Open(e3) && Open(e2) && Lookup(w.mem, s, v) == Some(At(w.mem, e2.frame, v.i1))
      && e4.frame in w.role && w.role[e4.frame].slot == Pdpt(v.i4)
      && e3.frame in w.role && w.role[e3.frame].slot == Pd(v.i4, v.i3)
      && e2.frame in w.role && w.role[e2.frame].slot == Pt(v.i4, v.i3, v.i2)
  {
    var e4 := At(w.mem, s, v.i4);
    var e3 := At(w.mem, e4.frame, v.i3);
    assert OpenPath(w.mem, e4.frame, Pdpt(v.i4), v);
    assert OpenPath(w.mem, e3.frame, Pd(v.i4, v.i3), v);
    LookupSteps(w.mem, s, v);
    assert w.EntryOk(s, v.i4);
    assert w.EntryOk(e4.frame, v.i3);
    assert w.EntryOk(e3.frame, v.i2);
  }

  /** Raising the flags of an open entry does nothing. */
  lemma OrOpen(fl: Flags, upper: Flags)
    requires fl % 2 == 1 && fl / 2 % 2 == 1 && fl / 4 % 2 == 1
    requires upper == PRESENT_WRITABLE || upper == PRESENT_WRITABLE_USER
    ensures Or(fl, upper) == fl
  {
    hide Or;
    OrStep(fl, upper);
    OrStep(fl / 2, upper / 2);
    OrStep(fl / 2 / 2, upper / 2 / 2);
    OrNothing(fl / 2 / 2 / 2);
    assert fl / 2 / 2 == fl / 4 && upper / 2 / 2 / 2 == 0;
  }

  lemma OrNothing(a: nat)
    ensures Or(a, 0) == a
  {
    if a > 0 { OrNothing(a / 2); }
  }

  /** The record of user pages after `x` replaces the translation of `v` in space `s`. */
  ghost function Relabel(w: World, s: nat, v: Va, x: Word): map<nat, Leaf> {
    var e := Lookup(w.mem, s, v);
    var rest := if e.Some? && OwnedPage(w, e.value) then w.leaf - {e.value.frame} else w.leaf;
    if OwnedPage(w, x) then rest[x.frame := Leaf(s, v)] else rest
  }

  /** The translation of `v` in space `s` is now `x`; no other translation of any space changed. */
  ghost predicate Remapped(w: World, w': World, s: nat, v: Va, x: Word) {
    && RolesGrow(w, w', s) && Untouched(w, w', s) && OwnPathsKept(w, w')
    && w'.free == w.free - (w'.role.Keys - w.role.Keys)
    && w'.leaf == Relabel(w, s, v, x)
    && OnlyLookup(w, w', s, v, if Present(x) then Some(x) else None)
  }

  lemma GrowsOwn(w: World, w': World, s: nat, f: nat, v: Va)
    requires Grows(w, w', s) && w.OwnPath(f, v)
    ensures w'.OwnPath(f, v)
  {
  }

  lemma OwnPathStep(w: World, f: nat, v: Va)
    requires w.OwnPath(f, v) && !w.role[f].slot.Pt?
    ensures var e := At(w.mem, f, w.role[f].slot.Index(v));
      Present(e) ==> e.frame in w.role && w.role[e.frame].owner == w.role[f].owner && w.OwnPath(e.frame, v)
  {
  }

  /** Three open entries lead from the root to the page table. */
  lemma OpenPathOf(mem: Memory, s: nat, v: Va, f3: nat, f2: nat, f1: nat)
    requires Leads(mem, s, v.i4, PRESENT_WRITABLE_USER, f3) && Leads(mem, f3, v.i3, PRESENT_WRITABLE_USER, f2)
    requires Leads(mem, f2, v.i2, PRESENT_WRITABLE_USER, f1)
    ensures OpenPath(mem, s, Root, v)
  {
    assert OpenPath(mem, f1, Pt(v.i4, v.i3, v.i2), v);
    assert OpenPath(mem, f2, Pd(v.i4, v.i3), v);
    assert OpenPath(mem, f3, Pdpt(v.i4), v);
  }

  /** Writing the leaf entry after the tables have grown. */
  lemma LeafRemaps(w: World, w1: World, s: nat, v: Va, f: nat, x: Word)
    requires w.Frames() && OwnMap(w, s, v, x) && Grows(w, w1, s) && w1.Inv()
    requires f in w1.role && w1.role[f].owner == s && w1.role[f].slot == Pt(v.i4, v.i3, v.i2)
    requires Present(x) && User(x) ==> OpenPath(w1.mem, s, Root, v)
    ensures SetLeaf(w1, f, v.i1, x).Inv() && Remapped(w, SetLeaf(w1, f, v.i1, x), s, v, x)
  {
    hide OpenPath, Lookup, World.OwnPath, World.Tables, World.Trees, World.LeafEntries, World.Leaves, World.Reachable,
         World.Shares, Untouched;
    assert LeafVa(w1.role[f].slot, v.i1) == v;
    assert forall r :: w1.Space(r) <==> w.Space(r);
    SetLeafKeeps(w1, f, v.i1, x);
    SetLeafLookups(w1, f, v.i1, x);
    LeafFrames(w, w1, s, f, v.i1, x);
    assert OwnedPage(w1, x) == OwnedPage(w, x);
    assert Lookup(w1.mem, s, v) == Lookup(w.mem, s, v);
  }

  /** The tables, the frames and the free set after a leaf was written. */
  lemma LeafFrames(w: World, w1: World, s: nat, f: nat, i: nat, x: Word)
    requires w.Frames() && w1.Frames() && Grows(w, w1, s) && f in w1.role && w1.role[f].owner == s
    requires w1.role[f].slot.Pt? && i < ENTRIES
    requires OwnPathsKept(w1, SetLeaf(w1, f, i, x))
    ensures var w2 := SetLeaf(w1, f, i, x);
      && RolesGrow(w, w2, s) && Untouched(w, w2, s) && OwnPathsKept(w, w2)
      && w2.free == w.free - (w2.role.Keys - w.role.Keys)
  {
    hide Lookup, World.OwnPath, SameLookups;
  }

  lemma AlreadyUnmapped(w: World, s: nat, v: Va)
    requires w.Inv() && OwnMap(w, s, v, ZERO) && Lookup(w.mem, s, v) == None
    ensures Remapped(w, w, s, v, ZERO)
  {
    assert w.role.Keys - w.role.Keys == {};
  }

  /** The walk in four explicit steps. */
  lemma LookupSteps(mem: Memory, r: nat, v: Va)
    ensures var e4 := At(mem, r, v.i4); var e3 := At(mem, e4.frame, v.i3);
      var e2 := At(mem, e3.frame, v.i2); var e1 := At(mem, e2.frame, v.i1);
      Lookup(mem, r, v) == if Present(e4) && Present(e3) && Present(e2) && Present(e1) then Some(e1) else None
  {
    var e4 := At(mem, r, v.i4);
    var e3 := At(mem, e4.frame, v.i3);
    var e2 := At(mem, e3.frame, v.i2);
    assert Walk(mem, r, Root, v) == if Present(e4) then Walk(mem, e4.frame, Pdpt(v.i4), v) else None;
    assert Walk(mem, e4.frame, Pdpt(v.i4), v) == if Present(e3) then Walk(mem, e3.frame, Pd(v.i4, v.i3), v) else None;
    assert Walk(mem, e3.frame, Pd(v.i4, v.i3), v)
        == if Present(e2) then Walk(mem, e2.frame, Pt(v.i4, v.i3, v.i2), v) else None;
  }

  /** The page table that the walk of `v` comes to. */
  function TableOf(mem: Memory, r: nat, v: Va): Option<nat> {
    var e4 := At(mem, r, v.i4);
    var e3 := At(mem, e4.frame, v.i3);
    var e2 := At(mem, e3.frame, v.i2);
    if Present(e4) && Present(e3) && Present(e2) then Some(e2.frame) else None
  }

  /** An entry of the own path: absent and zero, or leading to the next table of the space. */
  lemma OwnStep(w: World, f: nat, v: Va)
    requires w.Frames() && w.Tables() && w.OwnPath(f, v) && !w.role[f].slot.Pt? && w.role[f].slot.On(v) && ValidVa(v)
    ensures f < FRAMES
    ensures var e := At(w.mem, f, w.role[f].slot.Index(v));
      if Present(e) then
        && e.frame in w.role && 0 < e.frame < FRAMES
        && w.OwnPath(e.frame, v) && w.role[e.frame].owner == w.role[f].owner
        && w.role[e.frame].slot == w.role[f].slot.Child(w.role[f].slot.Index(v)) && w.role[e.frame].slot.On(v)
      else e == ZERO
  {
    OwnPathStep(w, f, v);
    assert w.EntryOk(f, w.role[f].slot.Index(v));
  }

  /** Space `r` was added with two table frames; nothing in use changed. */
  ghost predicate CreatedFrames(w: World, w': World, r: nat) {
    && r !in w.role && w'.Space(r) && r != w'.kernel && w'.kernel == w.kernel
    && w'.fbLo == w.fbLo && w'.fbHi == w.fbHi && w'.leaf == w.leaf
    && (forall f :: f in w.role ==> f in w'.role && w'.role[f] == w.role[f])
    && (forall f :: f in w'.role && f !in w.role ==> w'.role[f].owner == r)
    && |w'.role.Keys - w.role.Keys| == 2 && w'.role.Keys - w.role.Keys <= w.free
    && w'.free == w.free - (w'.role.Keys - w.role.Keys)
    && |w'.mem| == |w.mem| && (forall f :: 0 <= f < |w.mem| && f !in w.free ==> w'.mem[f] == w.mem[f])
  }

  /** What a new space maps of the kernel's translations. */
  ghost function Inherited(w: World, v: Va): Option<Word> {
    if v.i4 == 0 || v.i4 >= USER_HALF then Lookup(w.mem, w.kernel, v) else None
  }

  /** The new space maps what the kernel maps in the upper half and the first PML4 slot, holds no
      user page but those of the framebuffer, and owns the rest of the lower half. */
  ghost predicate CreatedView(w: World, w': World, r: nat) {
    && SameLookups(w, w')
    && (forall v :: ValidVa(v) ==> Lookup(w'.mem, r, v) == Inherited(w, v))
    && NoOwnedPages(w', r)
    && (forall v :: ValidVa(v) && v.i4 < USER_HALF && !KernelSlot(w, v) ==> w'.OwnPath(r, v))
  }

  ghost predicate Created(w: World, w': World, r: nat) {
    CreatedFrames(w, w', r) && CreatedView(w, w', r)
  }

  /** Nothing changed but the contents of free frames. */
  ghost predicate Unchanged(w: World, w': World) {
    && w' == w.(mem := w'.mem) && SameLookups(w, w') && |w'.mem| == |w.mem|
    && forall f :: 0 <= f < |w.mem| && f !in w.free ==> w'.mem[f] == w.mem[f]
  }

  /** `w1` is `w` with two frames taken, holding anything. */
  ghost predicate TwoTaken(w: World, w1: World, r: nat, p: nat) {
    && w.Inv() && w1.Inv() && r in w.free && p in w.free && r != p && r < FRAMES && p < FRAMES
    && w1 == w.(mem := w1.mem, free := w.free - {r, p})
    && |w1.mem| == FRAMES && (forall f :: 0 <= f < FRAMES && f != r && f != p ==> w1.mem[f] == w.mem[f])
    && SameLookups(w, w1)
  }

  lemma TakenTwice(w: World, w2: World, w1: World, r: nat, page: seq<Word>, p: nat)
    requires w.Inv() && w2.Inv() && w1.Inv() && r in w.free && r < FRAMES && p in w2.free && p < FRAMES
    requires w2 == WriteFrame(w, r, page, w.free - {r}) && SameLookups(w, w2)
    requires w1 == WriteFrame(w2, p, Zeros(), w2.free - {p}) && SameLookups(w2, w1)
    ensures TwoTaken(w, w1, r, p) && w1.mem[r] == page && w1.mem[p] == Zeros()
  {
    hide Lookup, World.OwnPath, World.Tables, World.Trees, World.LeafEntries, World.Leaves, World.Reachable,
         World.Shares;
    SameTwice(w, w2, w1);
    assert w1.free == w.free - {r, p};
  }

  lemma Rewritten(w: World, r: nat, page: seq<Word>)
    requires w.Inv() && r in w.free && r < FRAMES && |page| == ENTRIES
    ensures var w2 := WriteFrame(w, r, page, w.free - {r}); w2.Inv() && SameLookups(w, w2) && OwnPathsKept(w, w2)
    ensures w.mem[r := Zeros()][r := page] == w.mem[r := page]
  {
    hide Lookup, World.OwnPath, World.Tables, World.Trees, World.LeafEntries, World.Leaves, World.Reachable,
         World.Shares;
    WriteFrameKeeps(w, r, page, w.free - {r});
  }

  lemma PutBack(a: set<nat>, r: nat)
    requires r in a
    ensures a - {r} + {r} == a
  {
  }

  lemma CreatedByFrames(w: World, w1: World, r: nat, p: nat)
    requires TwoTaken(w, w1, r, p)
    ensures CanAdd(w1, r, p) && CreatedFrames(w, AddSpace(w1, r, p), r)
  {
    hide Lookup, World.OwnPath, World.Tables, World.Trees, World.LeafEntries, World.Leaves, World.Reachable,
         World.Shares, SameLookups, World.Inv, RootPage, PdptPage, CanAdd;
    CanAddTaken(w, w1, r, p);
    var w2 := AddSpace(w1, r, p);
    TwoMore(w.role.Keys, w2.role.Keys, r, p);
  }

  lemma TwoMore(a: set<nat>, b: set<nat>, r: nat, p: nat)
    requires b == a + {r, p} && r !in a && p !in a && r != p
    ensures b - a == {r, p} && |b - a| == 2
  {
    assert b - a == {r, p};
  }

  lemma CanAddTaken(w: World, w1: World, r: nat, p: nat)
    requires TwoTaken(w, w1, r, p)
    ensures CanAdd(w1, r, p) && w1.Frames() && r !in w.role && p !in w.role && w.kernel in w.role && |w.mem| == FRAMES
  {
    hide Lookup, World.OwnPath, World.Tables, World.Trees, World.LeafEntries, World.Leaves, World.Reachable,
         World.Shares, SameLookups;
  }

  lemma CreatedByView(w: World, w1: World, r: nat, p: nat)
    requires TwoTaken(w, w1, r, p) && CanAdd(w1, r, p)
    ensures AddSpace(w1, r, p).Inv() && CreatedView(w, AddSpace(w1, r, p), r)
  {
    hide Lookup, World.OwnPath, World.Tables, World.Trees, World.LeafEntries, World.Leaves, World.Reachable,
         World.Shares, KernelSlot, AddSpace;
    var w2 := AddSpace(w1, r, p);
    AddSpaceKeeps(w1, r, p);
    assert SameLookups(w, w2) by { SameTwice(w, w1, w2); }
    forall v | ValidVa(v) ensures Lookup(w2.mem, r, v) == Inherited(w, v) {
      AddSpaceLookup(w1, r, p, v);
      KernelIsSpace(w);
    }
    forall v | ValidVa(v) && v.i4 < USER_HALF && !KernelSlot(w, v) ensures w2.OwnPath(r, v) {
      KernelSlotKept(w, w1, r, p, v);
      AddSpaceOwn(w1, r, p, v);
    }
  }

  lemma SameTwice(w: World, w1: World, w2: World)
    requires SameLookups(w, w1) && SameLookups(w1, w2) && w1.role == w.role
    ensures SameLookups(w, w2)
  {
    hide Lookup;
    assert forall r :: w.Space(r) ==> w1.Space(r);
  }

  lemma KernelIsSpace(w: World)
    requires w.Inv()
    ensures w.Space(w.kernel)
  {
  }

  lemma KernelSlotKept(w: World, w1: World, r: nat, p: nat, v: Va)
    requires TwoTaken(w, w1, r, p)
    ensures KernelSlot(w1, v) == KernelSlot(w, v)
  {
    hide Lookup, World.OwnPath, World.Trees, World.LeafEntries, World.Leaves, World.Reachable, World.Shares;
    assert w.EntryOk(w.kernel, 0);
  }

  class Machine {
    const pmm: Allocator
    const kernel: nat
    const fbLo: nat
    const fbHi: nat
    var mem: Memory
    ghost var role: map<nat, Role>
    ghost var leaf: map<nat, Leaf>

    /** At boot the kernel's PML4 is cleared; nothing is known about the rest of memory. */
    constructor (pmm: Allocator, kernel: nat, fbLo: nat, fbHi: nat, mem: Memory)
      requires pmm.Valid() && Shaped(mem) && 0 < kernel < FRAMES && kernel !in pmm.free
      requires forall f :: f in pmm.free ==> !(fbLo <= f < fbHi)
      ensures Valid() && this.pmm == pmm && this.kernel == kernel && role.Keys == {kernel} && leaf == map[]
      ensures W().KernelOnly() && forall v :: Lookup(this.mem, kernel, v) == None
    {
      this.pmm, this.kernel, this.fbLo, this.fbHi := pmm, kernel, fbLo, fbHi;
      this.mem := mem[kernel := Zeros()];
      role, leaf := map[kernel := Role(kernel, Root, kernel)], map[];
      new;
      forall v ensures Lookup(this.mem, kernel, v) == None {
        assert !Present(At(this.mem, kernel, v.i4));
      }
    }

    ghost function W(): World
      reads this, pmm
    {
      World(mem, role, leaf, pmm.free, kernel, fbLo, fbHi)
    }

    ghost predicate Valid()
      reads this, pmm, pmm.bitmap
    {
      pmm.Valid() && W().Inv()
    }

    lemma FreeCount()
      requires Valid()
      ensures pmm.freePages == |pmm.free|
    {
    }

    predicate IsFb(f: nat) {
      fbLo <= f < fbHi
    }

    /** A zeroed frame below the identity-map limit, or 0 exactly when none is free there. */
    method AllocFrame() returns (f: nat)
      requires Valid()
      modifies this`mem, pmm, pmm.bitmap
      ensures Valid()
      ensures f == 0 ==> W() == old(W()) && forall p :: p in pmm.free ==> p >= FRAMES
      ensures f != 0 ==> f < FRAMES && f in old(pmm.free) && (forall p :: p in old(pmm.free) ==> f <= p)
      ensures f != 0 ==> W() == WriteFrame(old(W()), f, Zeros(), old(pmm.free) - {f})
      ensures f != 0 ==> SameLookups(old(W()), W()) && OwnPathsKept(old(W()), W())
      ensures |Below(pmm.free)| == |Below(old(pmm.free))| - (if f == 0 then 0 else 1)
    {
      hide Allocator.Ordered, World.Tables, World.Trees, World.LeafEntries, World.Leaves, World.Reachable, World.Shares,
           Lookup, World.OwnPath;
      ghost var w := W();
      var phys := pmm.AllocPage();
      if phys == 0 { return 0; }
      if phys >= FRAMES * PAGE_SIZE {
        pmm.FreePage(phys);
        assert pmm.free == old(pmm.free);
        return 0;
      }
      f := phys / PAGE_SIZE;
      BelowTaken(w.free, f);
      WriteFrameKeeps(w, f, Zeros(), pmm.free);
      mem := mem[f := Zeros()];
    }

    /** One level of map_page: the table below entry `i` of `f`, allocated if absent. An entry that is
        open already stays as it is, also in a table of another owner. */
    method Descend(f: nat, i: nat, upper: Flags) returns (c: nat)
      requires Valid() && f in role && !role[f].slot.Pt? && i < ENTRIES
      requires upper == PRESENT_WRITABLE || upper == PRESENT_WRITABLE_USER
      requires Open(At(mem, f, i)) || (role[f].owner == kernel ==> W().KernelOnly())
      requires Present(At(mem, f, i)) ==> At(mem, f, i).frame in role
      requires Present(At(mem, f, i)) ==> Open(At(mem, f, i)) || role[At(mem, f, i).frame].owner == role[f].owner
      modifies this`mem, this`role, pmm, pmm.bitmap
      ensures Valid() && Grows(old(W()), W(), old(role[f].owner))
      ensures c == 0 ==> W() == old(W()) && forall p :: p in pmm.free ==> p >= FRAMES
      ensures c != 0 && (Present(old(At(mem, f, i))) ==> old(role[At(mem, f, i).frame].owner == role[f].owner)) ==>
        Stepped(old(W()), W(), f, i, upper, c)
      ensures Open(old(At(mem, f, i))) ==> W() == old(W()) && c == old(At(mem, f, i).frame) && c != 0
      ensures |Below(pmm.free)| >= |Below(old(pmm.free))| - 1
    {
      hide Allocator.Valid, Grows, Stepped, World.LeafEntries, World.Leaves, World.Reachable, World.Shares,
           World.Trees, Below;
      ghost var w := W();
      assert w.EntryOk(f, i);
      var e := mem[f][i];
      if !Present(e) {
        c := AllocFrame();
        if c == 0 { GrowsNot(w, role[f].owner); return; }
        AddTable(f, i, upper, c, w);
      } else {
        c := e.frame;
        AddFlags(f, i, upper);
      }
    }

    method AddFlags(f: nat, i: nat, upper: Flags)
      requires Valid() && f in role && !role[f].slot.Pt? && i < ENTRIES
      requires Present(At(mem, f, i)) && At(mem, f, i).frame in role
      requires upper == PRESENT_WRITABLE || upper == PRESENT_WRITABLE_USER
      modifies this`mem
      ensures Valid() && Grows(old(W()), W(), role[f].owner)
      ensures Open(old(At(mem, f, i))) ==> W() == old(W())
      ensures old(role[At(mem, f, i).frame].owner == role[f].owner) ==>
        Stepped(old(W()), W(), f, i, upper, old(At(mem, f, i).frame))
    {
      hide Allocator.Valid, Grows, Or, World.LeafEntries, World.Leaves, World.Reachable, World.Shares, World.Trees;
      assert W().EntryOk(f, i);
      var e := mem[f][i];
      OrFlags(e.flags, upper);
      if Open(e) { OrOpen(e.flags, upper); }
      var x := Word(e.frame, Or(e.flags, upper));
      EscalateGrows(W(), f, i, x);
      PutSame(mem, f, i);
      mem := Put(mem, f, i, x);
    }

    /** The freshly allocated frame `c` becomes the table below entry `i` of `f`. */
    method AddTable(f: nat, i: nat, upper: Flags, c: nat, ghost w: World)
      requires pmm.Valid() && w.Inv() && f in w.role && !w.role[f].slot.Pt? && i < ENTRIES && !Present(At(w.mem, f, i))
      requires w.role[f].owner == w.kernel ==> w.KernelOnly()
      requires upper == PRESENT_WRITABLE || upper == PRESENT_WRITABLE_USER
      requires c in w.free && c < FRAMES && W() == WriteFrame(w, c, Zeros(), w.free - {c})
      modifies this`mem, this`role
      ensures Valid() && Grows(w, W(), w.role[f].owner) && Stepped(w, W(), f, i, upper, c)
    {
      hide Allocator.Valid, Grows, Stepped, Present, At, World.LeafEntries, World.Leaves, World.Reachable,
           World.Shares, World.Trees, World.Tables;
      var x := Word(c, upper);
      HangGrows(w, f, i, x);
      mem := Put(mem, f, i, x);
      role := role[c := Role(role[f].owner, role[f].slot.Child(i), f)];
      assert W() == Hang(WriteFrame(w, c, Zeros(), w.free - {c}), f, i, x);
    }

    /** Sets the translation of one page; a failed call changes no translation and happens only when
        fewer than three frames were left for tables. */
    method MapPage(s: nat, va: nat, pa: nat, flags: Flags) returns (ok: bool)
      requires Valid() && MapAllowed(W(), s, VaOf(va), Word(pa / PAGE_SIZE, flags))
      modifies this, pmm, pmm.bitmap
      ensures Valid()
      ensures ok ==> Remapped(old(W()), W(), s, VaOf(va), Word(pa / PAGE_SIZE, flags))
      ensures !ok ==> Grows(old(W()), W(), s) && forall p :: p in pmm.free ==> p >= FRAMES
      ensures old(Again(W(), s, VaOf(va), Word(pa / PAGE_SIZE, flags))) ==> ok && W() == old(W())
      ensures |Below(pmm.free)| >= |Below(old(pmm.free))| - 3 && (|Below(old(pmm.free))| >= 3 ==> ok)
    {
      hide Allocator.Valid, Grows, VaOf, World.OwnPath, World.Tables, World.Trees, World.LeafEntries, World.Leaves,
           World.Reachable, World.Shares, Remapped, Below, OpenPath, Lookup;
      ghost var w := W();
      var v := VaOf(va);
      var x := Word(pa / PAGE_SIZE, flags);
      ghost var again := Again(w, s, v, x);
      if again { AgainSame(w, s, v, x); }
      var pt;
      ok, pt := FindTable(s, v, flags / 4 % 2 == 1, again);
      if !ok { return; }
      ghost var w1 := W();
      if !again { LeafRemaps(w, w1, s, v, pt, x); }
      mem := Put(mem, pt, v.i1, x);
      if again {
        PutSame(w.mem, pt, v.i1);
      } else {
        leaf := SetLeaf(w1, pt, v.i1, x).leaf;
        assert W() == SetLeaf(w1, pt, v.i1, x);
      }
    }

    /** Maps a run of pages of the kernel, as at boot for the framebuffer, whose pages are user pages. */
    method MapRange(virt: nat, phys: nat, size: nat, flags: Flags) returns (ok: bool)
      requires Valid() && W().KernelOnly() && flags % 2 == 1
      requires virt + size + 0xFFF < 0x1_0000_0000_0000_0000 && size < 0x8000_0000_0000
      requires flags / 4 % 2 == 1 ==> forall f: nat :: phys / PAGE_SIZE <= f < phys / PAGE_SIZE + Pages(virt, size) ==>
        IsFb(f)
      modifies this, pmm, pmm.bitmap
      ensures Valid() && W().KernelOnly()
      ensures ok ==> Ranged(old(mem), mem, kernel, virt / PAGE_SIZE, phys / PAGE_SIZE, flags, Pages(virt, size))
      ensures !ok ==> exists n: nat ::
        n < Pages(virt, size) && Ranged(old(mem), mem, kernel, virt / PAGE_SIZE, phys / PAGE_SIZE, flags, n)
      ensures !ok ==> forall p :: p in pmm.free ==> p >= FRAMES
    {
      hide Allocator.Valid, Grows, VaOf, World.OwnPath, World.Inv, Remapped, Below, Lookup, OpenPath, PageVa;
      var start, frame, end := virt / PAGE_SIZE, phys / PAGE_SIZE, (virt + size + 0xFFF) / PAGE_SIZE;
      var k := 0;
      while start + k < end
        invariant k <= Pages(virt, size) && Valid() && W().KernelOnly() && W().kernel == kernel
        invariant Ranged(old(mem), mem, kernel, start, frame, flags, k)
      {
        ghost var w := W();
        VaOfPage(start + k);
        assert flags / 4 % 2 == 1 ==> IsFb(frame + k);
        KernelMaps(w, PageVa(start + k), Word(frame + k, flags));
        PagesBound(virt, size);
        assert (frame + k) * PAGE_SIZE / PAGE_SIZE == frame + k;
        ok := MapPage(kernel, (start + k) * PAGE_SIZE, (frame + k) * PAGE_SIZE, flags);
        RangedNext(old(mem), w, W(), start, frame, flags, k, Pages(virt, size), ok);
        if !ok { return; }
        k := k + 1;
      }
      return true;
    }

    /** Removes the translation of one page. */
    method UnmapPage(s: nat, va: nat)
      requires Valid() && OwnMap(W(), s, VaOf(va), ZERO)
      modifies this`mem, this`leaf
      ensures Valid() && Remapped(old(W()), W(), s, VaOf(va), ZERO)
    {
      hide Allocator.Valid, VaOf, World.OwnPath, World.Tables, World.Trees, World.LeafEntries, World.Leaves,
           World.Reachable, World.Shares, Remapped, Lookup;
      ghost var w := W();
      var v := VaOf(va);
      LookupSteps(mem, s, v);
      OwnStep(w, s, v);
      if !Present(mem[s][v.i4]) { AlreadyUnmapped(w, s, v); return; }
      var pdpt := mem[s][v.i4].frame;
      OwnStep(w, pdpt, v);
      if !Present(mem[pdpt][v.i3]) { AlreadyUnmapped(w, s, v); return; }
      var pd := mem[pdpt][v.i3].frame;
      OwnStep(w, pd, v);
      if !Present(mem[pd][v.i2]) { AlreadyUnmapped(w, s, v); return; }
      var pt := mem[pd][v.i2].frame;
      if !Present(mem[pt][v.i1]) { AlreadyUnmapped(w, s, v); return; }
      ClearLeaf(s, v, pt);
    }

    method ClearLeaf(s: nat, v: Va, pt: nat)
      requires Valid() && OwnMap(W(), s, v, ZERO)
      requires pt in role && role[pt].owner == s && role[pt].slot == Pt(v.i4, v.i3, v.i2)
      modifies this`mem, this`leaf
      ensures Valid() && Remapped(old(W()), W(), s, v, ZERO)
      ensures Shaped(old(mem)) && pt < FRAMES && mem == Put(old(mem), pt, v.i1, ZERO)
    {
      hide Allocator.Valid, World.OwnPath, World.Tables, World.Trees, World.LeafEntries, World.Leaves, World.Reachable,
           World.Shares, Remapped, Grows;
      ghost var w := W();
      GrowsNot(w, s);
      LeafRemaps(w, w, s, v, pt, ZERO);
      mem := Put(mem, pt, v.i1, ZERO);
      leaf := SetLeaf(w, pt, v.i1, ZERO).leaf;
      assert W() == SetLeaf(w, pt, v.i1, ZERO);
    }

    /** The physical address of a mapped page; 0 when a table on the way is missing. The three
        pointer tests stand for the present bits, which they match in every reachable state. The leaf's
        present bit is not tested: an unmapped page gives whatever frame its entry still names. */
    method VirtToPhys(s: nat, va: nat) returns (pa: nat)
      requires Valid() && W().Space(s)
      ensures Lookup(mem, s, VaOf(va)).Some? ==> pa == Lookup(mem, s, VaOf(va)).value.frame * PAGE_SIZE
      ensures match TableOf(mem, s, VaOf(va))
              case None => pa == 0
              case Some(pt) => pt in role && role[pt].slot.Pt? && pa == At(mem, pt, VaOf(va).i1).frame * PAGE_SIZE
    {
      hide Allocator.Valid, VaOf, World.OwnPath, World.Trees, World.LeafEntries, World.Leaves, World.Reachable,
           World.Shares, Lookup, World.Tables;
      ghost var w := W();
      var v := VaOf(va);
      LookupSteps(mem, s, v);
      Step(w, s, v);
      var pdpt := mem[s][v.i4].frame;
      if pdpt == 0 { return 0; }
      Step(w, pdpt, v);
      var pd := mem[pdpt][v.i3].frame;
      if pd == 0 { return 0; }
      Step(w, pd, v);
      var pt := mem[pd][v.i2].frame;
      if pt == 0 { return 0; }
      return mem[pt][v.i1].frame * PAGE_SIZE;
    }

    lemma Step(w: World, f: nat, v: Va)
      requires w.Frames() && w.Tables() && f in w.role && !w.role[f].slot.Pt? && w.role[f].slot.On(v) && ValidVa(v)
      ensures f < FRAMES
      ensures var e := At(w.mem, f, w.role[f].slot.Index(v));
        if Present(e) then
          && e.frame in w.role && 0 < e.frame < FRAMES && w.role[e.frame].slot.On(v)
          && w.role[e.frame].slot == w.role[f].slot.Child(w.role[f].slot.Index(v))
        else e == ZERO
    {
      assert w.EntryOk(f, w.role[f].slot.Index(v));
    }

    /** A new address space that shares the kernel's mappings. */
    method CreateSpace() returns (r: nat)
      requires Valid()
      modifies this, pmm, pmm.bitmap
      ensures Valid()
      ensures r == 0 ==> Unchanged(old(W()), W()) && |Below(pmm.free)| <= 1
      ensures r != 0 ==> Created(old(W()), W(), r) && |Below(pmm.free)| == |Below(old(pmm.free))| - 2
    {
      hide Allocator.Valid, World.OwnPath, World.Tables, World.Trees, World.LeafEntries, World.Leaves, World.Reachable,
           World.Shares, Lookup, Created;
      ghost var w := W();
      r := AllocRoot();
      if r == 0 { BelowNone(w.free); return; }
      ghost var w2 := W();
      var p := AllocFrame();
      if p == 0 {
        PutBack(w.free, r);
        BelowNone(w2.free);
        BelowTaken(w.free, r);
        GiveBack(r);
        return 0;
      }
      TakenTwice(w, w2, W(), r, w2.mem[r], p);
      BelowTaken(w.free, r);
      FillSpace(r, p, w, W());
    }

    /** A frame holding the upper half of the kernel's PML4. */
    method AllocRoot() returns (r: nat)
      requires Valid()
      modifies this`mem, pmm, pmm.bitmap
      ensures Valid()
      ensures r == 0 ==> W() == old(W()) && forall p :: p in pmm.free ==> p >= FRAMES
      ensures r != 0 ==>
        && r < FRAMES && r in old(pmm.free) && mem[r] == Zeros()[..USER_HALF] + mem[kernel][USER_HALF..]
        && W() == WriteFrame(old(W()), r, mem[r], old(pmm.free) - {r}) && SameLookups(old(W()), W())
    {
      hide Allocator.Valid, World.OwnPath, World.Tables, World.Trees, World.LeafEntries, World.Leaves, World.Reachable,
           World.Shares, Lookup;
      ghost var w := W();
      r := AllocFrame();
      if r == 0 { return; }
      Rewritten(w, r, Zeros()[..USER_HALF] + w.mem[kernel][USER_HALF..]);
      CopyEntries(r, kernel, USER_HALF);
    }

    /** Frees a frame that is neither a table nor a mapped user page. */
    method GiveBack(f: nat)
      requires Valid() && 0 < f < FRAMES && f !in role && f !in leaf && !IsFb(f)
      modifies pmm, pmm.bitmap
      ensures Valid() && W() == old(W()).(free := old(pmm.free) + {f}) && OwnPathsKept(old(W()), W())
    {
      hide Allocator.Ordered, World.OwnPath, World.Tables, World.Trees, World.LeafEntries, World.Leaves,
           World.Reachable, World.Shares;
      GiveBackKeeps(W(), f);
      assert f * PAGE_SIZE / PAGE_SIZE == f;
      pmm.FreePage(f * PAGE_SIZE);
    }

    /** The remaining entries of a new space's two tables. */
    method FillSpace(r: nat, p: nat, ghost w: World, ghost w1: World)
      requires pmm.Valid() && TwoTaken(w, w1, r, p) && W() == w1
      requires mem[r] == Zeros()[..USER_HALF] + mem[kernel][USER_HALF..] && mem[p] == Zeros()
      modifies this`mem, this`role
      ensures Valid() && Created(w, W(), r)
    {
      hide Allocator.Valid, World.OwnPath, World.Trees, World.LeafEntries, World.Leaves, World.Reachable, World.Shares,
           Lookup, CreatedFrames, CreatedView;
      CreatedByFrames(w, w1, r, p);
      CreatedByView(w, w1, r, p);
      assert w1.EntryOk(kernel, 0);
      var k := mem[kernel][0].frame;
      if k != 0 { CopyEntries(p, k, 0); }
      mem := Put(mem, r, 0, Word(p, PRESENT_WRITABLE_USER));
      role := role[r := Role(r, Root, r)][p := Role(r, Pdpt(0), r)];
      assert mem[r] == RootPage(w1.mem, kernel, p);
      assert mem[p] == PdptPage(w1.mem, kernel);
      assert mem == w1.mem[r := RootPage(w1.mem, kernel, p)][p := PdptPage(w1.mem, kernel)];
      assert W() == AddSpace(w1, r, p);
    }

    method CopyEntries(dst: nat, src: nat, lo: nat)
      requires Shaped(mem) && dst < FRAMES && src < FRAMES && dst != src && lo <= ENTRIES
      modifies this`mem
      ensures mem == old(mem)[dst := old(mem)[dst][..lo] + old(mem)[src][lo..]]
    {
      var i := lo;
      while i < ENTRIES
        invariant lo <= i <= ENTRIES && Shaped(mem)
        invariant forall f :: 0 <= f < FRAMES && f != dst ==> mem[f] == old(mem)[f]
        invariant forall j :: 0 <= j < ENTRIES ==>
          mem[dst][j] == if lo <= j < i then old(mem)[src][j] else old(mem)[dst][j]
      {
        mem := Put(mem, dst, i, mem[src][i]);
        i := i + 1;
      }
      assert mem[dst] == old(mem)[dst][..lo] + old(mem)[src][lo..];
    }

    /** The page table for address `v`, with the upper levels allocated and their flags raised. A
        translation whose path is open already is found without a change. */
    method FindTable(s: nat, v: Va, user: bool, ghost open: bool) returns (ok: bool, pt: nat)
      requires Valid() && W().Space(s) && ValidVa(v)
      requires if open then OpenPath(mem, s, Root, v) && Lookup(mem, s, v).Some?
               else W().OwnPath(s, v) && (s == kernel ==> W().KernelOnly())
      modifies this`mem, this`role, pmm, pmm.bitmap
      ensures Valid() && Grows(old(W()), W(), s)
      ensures !ok ==> forall p :: p in pmm.free ==> p >= FRAMES
      ensures |Below(pmm.free)| >= |Below(old(pmm.free))| - 3 && (|Below(old(pmm.free))| >= 3 ==> ok)
      ensures ok ==> pt in role && role[pt].slot == Pt(v.i4, v.i3, v.i2)
      ensures ok && !open ==> role[pt].owner == s && (user ==> OpenPath(mem, s, Root, v))
      ensures open ==> ok && W() == old(W()) && Lookup(mem, s, v) == Some(At(mem, pt, v.i1))
    {
      hide Allocator.Valid, Grows, World.OwnPath, World.Tables, World.Trees, World.LeafEntries, World.Leaves,
           World.Reachable, World.Shares, OpenPath, Below, Lookup, Stepped, World.KernelOnly;
      ghost var w := W();
      GrowsNot(w, s);
      if open { OpenSteps(w, s, v); }
      ok, pt := false, 0;
      var upper := PRESENT_WRITABLE;
      if user { upper := PRESENT_WRITABLE_USER; }
      var pdpt := Level(s, v, s, v.i4, upper, open, w);
      if pdpt == 0 { return; }
      ghost var w1 := W();
      var pd := Level(s, v, pdpt, v.i3, upper, open, w);
      if pd == 0 { return; }
      ghost var w2 := W();
      pt := Level(s, v, pd, v.i2, upper, open, w);
      if pt == 0 { return; }
      ok := true;
      if user && !open {
        SteppedLeads(w, w1, s, v.i4, upper, pdpt);
        SteppedLeads(w1, w2, pdpt, v.i3, upper, pd);
        SteppedLeads(w2, W(), pd, v.i2, upper, pt);
        GrowsRole(w, w2, s, s);
        LeadsKept(w1, w2, pdpt, v.i3, s, v.i4, upper, pd);
        LeadsKept(w2, W(), pd, v.i2, s, v.i4, upper, pt);
        LeadsKept(w2, W(), pd, v.i2, pdpt, v.i3, upper, pt);
        OpenPathOf(mem, s, v, pdpt, pd, pt);
      }
    }

    /** One level of the walk of `v` in space `s`, through tables of its own or along an open path. */
    method Level(s: nat, v: Va, f: nat, i: nat, upper: Flags, ghost open: bool, ghost w: World) returns (c: nat)
      requires Valid() && f in role && !role[f].slot.Pt? && role[f].slot.On(v) && ValidVa(v)
      requires i == role[f].slot.Index(v)
      requires upper == PRESENT_WRITABLE || upper == PRESENT_WRITABLE_USER
      requires w.Inv() && Grows(w, W(), s)
      requires open ==> W() == w && Open(At(mem, f, i)) && At(mem, f, i).frame in role
      requires !open ==> role[f].owner == s && W().OwnPath(f, v) && (s == kernel ==> W().KernelOnly())
      modifies this`mem, this`role, pmm, pmm.bitmap
      ensures Valid() && Grows(w, W(), s) && |Below(pmm.free)| >= |Below(old(pmm.free))| - 1
      ensures c == 0 ==> |Below(pmm.free)| == |Below(old(pmm.free))| == 0 && forall p :: p in pmm.free ==> p >= FRAMES
      ensures open ==> W() == w && c == At(mem, f, i).frame && c != 0
      ensures !open && c != 0 ==>
        c in role && role[c].owner == s && W().OwnPath(c, v) && (s == kernel ==> W().KernelOnly())
      ensures !open && c != 0 ==> role[c].slot == old(role)[f].slot.Child(i) && role[c].slot.On(v)
      ensures !open && c != 0 ==> Stepped(old(W()), W(), f, i, upper, c)
    {
      hide Allocator.Valid, Grows, World.OwnPath, World.Tables, World.Trees, World.LeafEntries, World.Leaves,
           World.Reachable, World.Shares, OpenPath, Below, Lookup;
      ghost var w1 := W();
      if !open { OwnPathStep(w1, f, v); }
      c := Descend(f, i, upper);
      if c == 0 { BelowNone(pmm.free); }
      if !open {
        GrowsTwice(w, w1, W(), s);
        GrowsKernelOnly(w1, W(), s);
        if c != 0 {
          GrowsOwn(w1, W(), s, f, v);
          OwnPathStep(W(), f, v);
        }
      }
    }
  }

  lemma SteppedLeads(w: World, w': World, f: nat, i: nat, upper: Flags, c: nat)
    requires f in w.role && !w.role[f].slot.Pt? && Stepped(w, w', f, i, upper, c)
    ensures f in w'.role && w'.role[f] == w.role[f] && Leads(w'.mem, f, i, upper, c)
  {
  }

  lemma GrowsRole(w: World, w': World, s: nat, f: nat)
    requires Grows(w, w', s) && f in w.role
    ensures f in w'.role && w'.role[f] == w.role[f]
  {
  }

  /** A later step keeps the entries of the steps before. */
  lemma LeadsKept(w: World, w': World, f: nat, i: nat, g: nat, j: nat, upper: Flags, c: nat)
    requires f in w.role && !w.role[f].slot.Pt? && Stepped(w, w', f, i, upper, c) && g in w.role && j < ENTRIES
    requires g != f
    ensures At(w'.mem, g, j) == At(w.mem, g, j)
  {
  }

  /** The address of page number `p`. */
  function PageVa(p: nat): Va { VaOf(p * PAGE_SIZE) }

  lemma VaOfPage(p: nat)
    ensures VaOf(p * PAGE_SIZE) == PageVa(p) && ValidVa(PageVa(p))
  {
  }

  /** The pages that a run of `size` bytes at `virt` touches. */
  function Pages(virt: nat, size: nat): nat {
    (virt + size + 0xFFF) / PAGE_SIZE - virt / PAGE_SIZE
  }

  /** They are the pages that hold one of the bytes, and no others. */
  lemma PagesExact(virt: nat, size: nat, p: nat)
    requires size > 0
    ensures virt / PAGE_SIZE <= p < virt / PAGE_SIZE + Pages(virt, size) <==>
      exists a :: virt <= a < virt + size && a / PAGE_SIZE == p
  {
    if virt / PAGE_SIZE <= p && p * PAGE_SIZE < virt + size {
      var a := if virt / PAGE_SIZE == p then virt else p * PAGE_SIZE;
      assert virt <= a < virt + size && a / PAGE_SIZE == p;
    }
  }

  lemma PagesBound(virt: nat, size: nat)
    requires size < 0x8000_0000_0000
    ensures Pages(virt, size) <= 0x8_0000_0001
  {
  }

  /** Pages of a run shorter than the address space have different addresses. */
  lemma PageVaApart(p: nat, q: nat)
    requires p < q < p + 0x10_0000_0000
    ensures PageVa(p) != PageVa(q)
  {
    PageIndices(p);
    PageIndices(q);
  }

  lemma PageIndices(p: nat)
    ensures var v := PageVa(p);
      p == p / 0x10_0000_0000 * 0x10_0000_0000 + v.i4 * 0x800_0000 + v.i3 * 0x4_0000 + v.i2 * 0x200 + v.i1
  {
    var a := p * PAGE_SIZE;
    assert a / 0x1000 == p && a / 0x20_0000 == p / 0x200 && a / 0x4000_0000 == p / 0x4_0000
        && a / 0x80_0000_0000 == p / 0x800_0000;
    assert p / 0x200 / 0x200 == p / 0x4_0000 && p / 0x4_0000 / 0x200 == p / 0x800_0000
        && p / 0x800_0000 / 0x200 == p / 0x10_0000_0000;
  }

  /** The first `n` pages of a run are mapped, and nothing else changed. */
  ghost predicate Ranged(mem0: Memory, mem: Memory, r: nat, start: nat, frame: nat, flags: Flags, n: nat) {
    && (forall p: nat :: start <= p < start + n ==> Lookup(mem, r, PageVa(p)) == Some(Word(frame + p - start, flags)))
    && (forall v :: ValidVa(v) && !InRange(v, start, n) ==> Lookup(mem, r, v) == Lookup(mem0, r, v))
  }

  ghost predicate InRange(v: Va, start: nat, n: nat) {
    exists p: nat :: start <= p < start + n && v == PageVa(p)
  }

  /** The kernel's tables lead to tables of the kernel only. */
  lemma {:induction false} KernelOwns(w: World, g: nat, v: Va)
    requires w.Frames() && w.Tables() && g in w.role && w.role[g].owner == w.kernel && w.role[g].slot.On(v)
    requires ValidVa(v)
    ensures w.OwnPath(g, v)
    decreases w.role[g].slot.Depth()
  {
    if !w.role[g].slot.Pt? && Present(At(w.mem, g, w.role[g].slot.Index(v))) {
      ChildTable(w, g, v);
      KernelOwns(w, At(w.mem, g, w.role[g].slot.Index(v)).frame, v);
    }
  }

  lemma KernelMaps(w: World, v: Va, x: Word)
    requires w.Inv() && w.KernelOnly() && ValidVa(v) && (User(x) ==> w.Fb(x.frame))
    ensures MapAllowed(w, w.kernel, v, x)
  {
    hide Lookup, World.OwnPath, World.Trees, World.LeafEntries, World.Leaves, World.Reachable, World.Shares;
    KernelOwns(w, w.kernel, v);
  }

  lemma RangedNext(mem0: Memory, w: World, w': World, start: nat, frame: nat, flags: Flags, k: nat, n: nat, ok: bool)
    requires w.Inv() && w.KernelOnly() && Ranged(mem0, w.mem, w.kernel, start, frame, flags, k)
    requires k < n <= 0x8_0000_0001 && flags % 2 == 1
    requires if ok then Remapped(w, w', w.kernel, PageVa(start + k), Word(frame + k, flags)) else Grows(w, w', w.kernel)
    ensures w'.KernelOnly() && w'.kernel == w.kernel
    ensures Ranged(mem0, w'.mem, w.kernel, start, frame, flags, if ok then k + 1 else k)
  {
    hide Lookup, World.OwnPath, World.Tables, World.Trees, World.LeafEntries, World.Leaves, World.Reachable,
         World.Shares, PageVa, InRange;
    forall r | w'.Space(r) ensures w.Space(r) {
      if r in w.role { assert w'.role[r] == w.role[r]; }
    }
    assert w.Space(w.kernel);
    if ok { RangedStep(mem0, w, w', start, frame, flags, k); } else { RangedSame(mem0, w, w', start, frame, flags, k); }
  }

  lemma RangedSame(mem0: Memory, w: World, w': World, start: nat, frame: nat, flags: Flags, k: nat)
    requires Ranged(mem0, w.mem, w.kernel, start, frame, flags, k) && w.Space(w.kernel) && SameLookups(w, w')
    ensures Ranged(mem0, w'.mem, w.kernel, start, frame, flags, k)
  {
    hide Lookup, PageVa, InRange;
    forall p: nat | start <= p < start + k
      ensures Lookup(w'.mem, w.kernel, PageVa(p)) == Some(Word(frame + p - start, flags))
    {
      VaOfPage(p);
    }
  }

  lemma RangedStep(mem0: Memory, w: World, w': World, start: nat, frame: nat, flags: Flags, k: nat)
    requires Ranged(mem0, w.mem, w.kernel, start, frame, flags, k) && w.Space(w.kernel) && k <= 0x8_0000_0001
    requires OnlyLookup(w, w', w.kernel, PageVa(start + k), Some(Word(frame + k, flags)))
    ensures Ranged(mem0, w'.mem, w.kernel, start, frame, flags, k + 1)
  {
    hide Lookup, PageVa, InRange;
    forall p: nat | start <= p < start + k
      ensures Lookup(w'.mem, w.kernel, PageVa(p)) == Some(Word(frame + p - start, flags))
    {
      VaOfPage(p);
      PageVaApart(p, start + k);
    }
    forall v | ValidVa(v) && !InRange(v, start, k + 1)
      ensures Lookup(w'.mem, w.kernel, v) == Lookup(mem0, w.kernel, v)
    {
      RangeGrows(v, start, k);
    }
  }

  lemma RangeGrows(v: Va, start: nat, k: nat)
    ensures InRange(v, start, k + 1) <==> InRange(v, start, k) || v == PageVa(start + k)
  {
    hide PageVa;
    if v == PageVa(start + k) { assert InRange(v, start, k + 1); }
  }

  lemma GrowsKernelOnly(w: World, w': World, s: nat)
    requires Grows(w, w', s) && (s == w.kernel ==> w.KernelOnly())
    ensures s == w'.kernel ==> w'.KernelOnly()
  {
    hide Lookup, World.OwnPath;
    forall r | w'.Space(r) ensures w.Space(r) {
      if r in w.role { assert w'.role[r] == w.role[r]; }
    }
  }

  lemma PutSame(mem: Memory, f: nat, i: nat)
    requires Shaped(mem) && f < FRAMES && i < ENTRIES
    ensures Put(mem, f, i, At(mem, f, i)) == mem
  {
    assert mem[f][i := mem[f][i]] == mem[f];
  }

  lemma GrowsNot(w: World, s: nat)
    requires w.Inv()
    ensures Grows(w, w, s)
  {
    assert w.role.Keys - w.role.Keys == {};
  }

  function Zeros(): (z: seq<Word>)
    ensures |z| == ENTRIES && forall i :: 0 <= i < ENTRIES ==> z[i] == ZERO
  {
    seq(ENTRIES, _ => ZERO)
  }
}

/** The fork copy and the teardown of an address space. */
module Fork {
  import opened Common
  import opened PageTables
  import opened Paging
  import opened Pmm

  /** `v` comes before `c` in the order of the nested loops. */
  predicate Before(v: Va, c: Va) {
    || v.i4 < c.i4
    || (v.i4 == c.i4 && v.i3 < c.i3)
    || (v.i4 == c.i4 && v.i3 == c.i3 && v.i2 < c.i2)
    || (v.i4 == c.i4 && v.i3 == c.i3 && v.i2 == c.i2 && v.i1 < c.i1)
  }

  // ---------------------------------------------------------------- what a fork may change

  /** From `w0` to `w` only space `s` gained tables and user pages, all out of free frames; the
      frames in `taken` are neither free nor used yet. */
  ghost predicate Evolves(w0: World, w: World, s: nat, taken: set<nat>) {
    && RolesGrow(w0, w, s) && Untouched(w0, w, s) && OwnPathsKept(w0, w)
    && (forall f :: f in w0.leaf ==> f in w.leaf && w.leaf[f] == w0.leaf[f])
    && (forall f :: f in w.leaf && f !in w0.leaf ==> f in w0.free && w.leaf[f].owner == s)
    && (forall f :: f in w.free <==> f in w0.free && f !in w.role && f !in w.leaf && f !in taken)
    && (forall f :: f in taken ==> f in w0.free && f !in w.role && f !in w.leaf)
    && (forall r, v :: w0.Space(r) && r != s && ValidVa(v) ==> Lookup(w.mem, r, v) == Lookup(w0.mem, r, v))
  }

  lemma EvolvesNot(w: World, s: nat)
    requires w.Inv()
    ensures Evolves(w, w, s, {})
  {
    hide Lookup, World.OwnPath;
  }

  lemma EvolvesTake(w0: World, w: World, s: nat, page: nat, data: seq<Word>)
    requires w0.Frames() && w.Frames() && Evolves(w0, w, s, {}) && page in w.free && page < FRAMES
    requires var w' := WriteFrame(w, page, data, w.free - {page}); SameLookups(w, w') && OwnPathsKept(w, w')
    ensures Evolves(w0, WriteFrame(w, page, data, w.free - {page}), s, {page})
  {
    hide Lookup, World.OwnPath, Untouched, OwnPathsKept, SameLookups;
    var w' := WriteFrame(w, page, data, w.free - {page});
    OwnPathsTwice(w0, w, w');
    UntouchedWrite(w0, w, w', s, page);
    LookupsTwice(w0, w, w', s);
  }

  lemma LookupsTwice(w0: World, w: World, w': World, s: nat)
    requires RolesGrow(w0, w, s) && SameLookups(w, w')
    requires forall r, v :: w0.Space(r) && r != s && ValidVa(v) ==> Lookup(w.mem, r, v) == Lookup(w0.mem, r, v)
    ensures forall r, v :: w0.Space(r) && r != s && ValidVa(v) ==> Lookup(w'.mem, r, v) == Lookup(w0.mem, r, v)
  {
    hide Lookup;
    assert forall r :: w0.Space(r) ==> w.Space(r);
  }

  lemma OwnPathsTwice(w0: World, w: World, w': World)
    requires OwnPathsKept(w0, w) && OwnPathsKept(w, w')
    ensures OwnPathsKept(w0, w')
  {
    hide World.OwnPath;
  }

  lemma UntouchedWrite(w0: World, w: World, w': World, s: nat, page: nat)
    requires Untouched(w0, w, s) && page in w0.free && page < |w.mem| && |w'.mem| == |w.mem|
    requires forall f :: 0 <= f < |w.mem| && f != page ==> w'.mem[f] == w.mem[f]
    ensures Untouched(w0, w', s)
  {
  }

  /** Changes within one space add up. */
  lemma SpaceChangesTwice(w0: World, w: World, w': World, s: nat)
    requires w0.Frames() && RolesGrow(w0, w, s) && Untouched(w0, w, s) && OwnPathsKept(w0, w)
    requires RolesGrow(w, w', s) && Untouched(w, w', s) && OwnPathsKept(w, w')
    requires forall f :: f in w.free ==> f in w0.free
    ensures forall f :: f in w0.role ==> f in w'.role && w'.role[f] == w0.role[f]
    ensures forall f :: f in w'.role && f !in w0.role ==>
      f in w0.free && w'.role[f].owner == s && !w'.role[f].slot.Root?
    ensures OwnPathsKept(w0, w')
    ensures forall r :: w0.Space(r) ==> w.Space(r)
  {
    hide World.OwnPath, Untouched;
  }

  lemma UntouchedTwice(w0: World, w: World, w': World, s: nat)
    requires w0.Frames() && Untouched(w0, w, s) && Untouched(w, w', s) && RolesGrow(w0, w, s)
    requires forall f :: f in w.free ==> f in w0.free
    ensures Untouched(w0, w', s)
  {
  }

  lemma EvolvesGrow(w0: World, w: World, w': World, s: nat, taken: set<nat>)
    requires w0.Frames() && w.Frames() && Evolves(w0, w, s, taken) && Grows(w, w', s)
    ensures Evolves(w0, w', s, taken)
  {
    hide Lookup, World.OwnPath, Untouched;
    SpaceChangesTwice(w0, w, w', s);
    UntouchedTwice(w0, w, w', s);
    forall f ensures f in w'.free <==> f in w0.free && f !in w'.role && f !in w'.leaf && f !in taken {
      assert f in w'.free <==> f in w.free && !(f in w'.role && f !in w.role);
    }
  }

  lemma EvolvesReturn(w0: World, w: World, s: nat, page: nat)
    requires w0.Frames() && w.Frames() && Evolves(w0, w, s, {page})
    requires OwnPathsKept(w, w.(free := w.free + {page}))
    ensures Evolves(w0, w.(free := w.free + {page}), s, {})
  {
    hide Lookup, World.OwnPath;
  }

  lemma TakenPage(w0: World, w: World, s: nat, page: nat)
    requires w0.Frames() && Evolves(w0, w, s, {page})
    ensures page in w0.free && page > 0 && page !in w.role && page !in w.leaf && page !in w.free && !w.Fb(page)
  {
    hide Lookup, World.OwnPath, Untouched;
  }

  /** Installing a translation where no own page was. */
  lemma EvolvesRemap(w0: World, w: World, w': World, s: nat, v: Va, x: Word, taken: set<nat>)
    requires w0.Frames() && w.Frames() && Evolves(w0, w, s, taken) && Remapped(w, w', s, v, x) && w.Space(s)
    requires ValidVa(v) && !Owned(w, Lookup(w.mem, s, v))
    requires if OwnedPage(w, x) then taken == {x.frame} else taken == {}
    ensures Evolves(w0, w', s, {})
    ensures w'.leaf == if OwnedPage(w, x) then w.leaf[x.frame := Leaf(s, v)] else w.leaf
  {
    hide Lookup, World.OwnPath, Untouched, World.Frames, OwnedPage;
    SpaceChangesTwice(w0, w, w', s);
    UntouchedTwice(w0, w, w', s);
    forall f ensures f in w'.free <==> f in w0.free && f !in w'.role && f !in w'.leaf {
      assert f in w'.free <==> f in w.free && !(f in w'.role && f !in w.role);
    }
  }

  /** The translation is to a page of the space itself. */
  predicate Owned(w: World, e: Option<Word>) {
    e.Some? && OwnedPage(w, e.value)
  }

  // ---------------------------------------------------------------- the copy

  /** The addresses of the user pages in the lower half of a space. */
  ghost function UserPages(w: World, r: nat): set<Va> {
    set a: nat, b: nat, c: nat, d: nat |
      a < USER_HALF && b < ENTRIES && c < ENTRIES && d < ENTRIES && UserPage(Lookup(w.mem, r, Va(a, b, c, d)))
      :: Va(a, b, c, d)
  }

  /** There are four free frames, for the page and three tables, for each user page. */
  ghost predicate Ample(w: World, r: nat) {
    |Below(w.free)| >= 4 * |UserPages(w, r)|
  }

  /** The child's translation of `v` for a parent's entry `e`: an own page is copied into a fresh
      frame under the same flags, a framebuffer page is shared, unless memory was short and its tables
      could not be allocated, and anything else stays as it was. */
  ghost predicate CloneOf(w0: World, w: World, src: nat, dst: nat, v: Va) {
    var e, x := Lookup(w0.mem, src, v), Lookup(w.mem, dst, v);
    if UserPage(e) && !w0.Fb(e.value.frame) then
      && x.Some? && x.value.flags == e.value.flags
      && x.value.frame in w0.free && x.value.frame in w.leaf && w.leaf[x.value.frame] == Leaf(dst, v)
      && e.value.frame < |w0.mem| && x.value.frame < |w.mem| && w.mem[x.value.frame] == w0.mem[e.value.frame]
    else if UserPage(e) then x == e || (x == Lookup(w0.mem, dst, v) && (v.i4 >= USER_HALF || !Ample(w0, src)))
    else x == Lookup(w0.mem, dst, v)
  }

  /** In terms of entries: where the parent's entry has the user bit and names a frame outside the
      framebuffer, the child has an entry with the same flags and another frame, which holds the same words
      and was free before; a page without the user bit is not touched. */
  lemma CloneMeans(w0: World, w: World, src: nat, dst: nat, v: Va)
    requires CanClone(w0, src, dst) && CloneOf(w0, w, src, dst, v) && ValidVa(v)
    ensures Lookup(w0.mem, src, v).Some? ==>
      var e := Lookup(w0.mem, src, v).value;
      && (e.flags / 4 % 2 == 1 && !(w0.fbLo <= e.frame < w0.fbHi) ==>
            && Lookup(w.mem, dst, v).Some?
            && var x := Lookup(w.mem, dst, v).value;
               && x.flags == e.flags && x.frame != e.frame && x.frame in w0.free && e.frame < |w0.mem|
               && x.frame < |w.mem| && w.mem[x.frame] == w0.mem[e.frame])
      && (e.flags / 4 % 2 == 0 ==> Lookup(w.mem, dst, v) == Lookup(w0.mem, dst, v))
  {
    hide Lookup, World.OwnPath, World.Tables, World.Trees, World.LeafEntries, World.Leaves, World.Reachable,
         World.Shares;
    if UserPage(Lookup(w0.mem, src, v)) { UserLeaf(w0, src, v); }
  }

  /** A fresh child: no page of its own yet; the parent's user pages lie where the child has its own
      tables, or are framebuffer pages that the child inherited as well. */
  ghost predicate CanClone(w0: World, src: nat, dst: nat) {
    && w0.Inv() && w0.Space(src) && w0.Space(dst) && src != dst && dst != w0.kernel
    && NoOwnedPages(w0, dst)
    && (forall v :: ValidVa(v) && v.i4 < USER_HALF && UserPage(Lookup(w0.mem, src, v)) ==>
          w0.OwnPath(dst, v) || Inherits(w0, src, dst, v))
  }

  /** Both spaces map the same framebuffer page. */
  ghost predicate Inherits(w: World, src: nat, dst: nat, v: Va) {
    && UserPage(Lookup(w.mem, src, v)) && w.Fb(Lookup(w.mem, src, v).value.frame)
    && Lookup(w.mem, dst, v) == Lookup(w.mem, src, v)
  }

  /** The addresses before `c` are copied, the others untouched. */
  ghost predicate CloneInv(w0: World, w: World, src: nat, dst: nat, c: Va) {
    && w.Inv() && Evolves(w0, w, dst, {}) && Budget(w0, w, src, c)
    && (forall v :: ValidVa(v) && Before(v, c) ==> CloneOf(w0, w, src, dst, v))
    && (forall v :: ValidVa(v) && !Before(v, c) ==> Lookup(w.mem, dst, v) == Lookup(w0.mem, dst, v))
  }

  ghost function PagesBefore(w: World, r: nat, c: Va): set<Va> {
    set v | v in UserPages(w, r) && Before(v, c)
  }

  /** Each page before `c` took at most four frames. */
  ghost predicate Budget(w0: World, w: World, src: nat, c: Va) {
    |Below(w0.free)| <= |Below(w.free)| + 4 * |PagesBefore(w0, src, c)|
  }

  lemma {:induction false} SubsetSize(a: set<Va>, b: set<Va>)
    requires a <= b
    ensures |a| <= |b|
  {
    assert b == a + (b - a);
  }

  lemma IsUserPage(w: World, r: nat, v: Va)
    requires ValidVa(v) && v.i4 < USER_HALF && UserPage(Lookup(w.mem, r, v))
    ensures v in UserPages(w, r)
  {
    hide Lookup;
    assert v == Va(v.i4, v.i3, v.i2, v.i1);
  }

  lemma BudgetMoves(w0: World, w: World, src: nat, c: Va, d: Va)
    requires Budget(w0, w, src, c) && forall v :: ValidVa(v) && Before(v, c) ==> Before(v, d)
    ensures Budget(w0, w, src, d)
  {
    hide Before, Below, Lookup;
    SubsetSize(PagesBefore(w0, src, c), PagesBefore(w0, src, d));
  }

  /** One more page, and four more frames. */
  lemma BudgetSpent(w0: World, w: World, w': World, src: nat, v: Va)
    requires Budget(w0, w, src, v) && v in UserPages(w0, src) && |Below(w'.free)| >= |Below(w.free)| - 4
    ensures Budget(w0, w', src, After(v))
  {
    hide Before, Below, UserPages;
    NotBeforeSelf(v);
    forall u ensures Before(u, After(v)) <==> Before(u, v) || u == v { BeforeAfter(u, v); }
    assert PagesBefore(w0, src, After(v)) == PagesBefore(w0, src, v) + {v};
  }

  /** With fewer than four frames left at a page, there were too few from the start. */
  lemma BudgetShort(w0: World, w: World, src: nat, v: Va)
    requires Budget(w0, w, src, v) && v in UserPages(w0, src) && |Below(w.free)| < 4
    ensures !Ample(w0, src)
  {
    hide Before, Below, UserPages;
    NotBeforeSelf(v);
    SubsetSize(PagesBefore(w0, src, v) + {v}, UserPages(w0, src));
  }

  function After(v: Va): Va {
    v.(i1 := v.i1 + 1)
  }

  lemma BeforeAfter(v: Va, c: Va)
    ensures Before(v, After(c)) <==> Before(v, c) || v == c
  {
  }

  /** One more page is done: `w'` differs from `w` at `v` and in frames that hold no copied page. */
  lemma CloneNext(w0: World, w: World, w': World, src: nat, dst: nat, v: Va)
    requires w0.Inv() && CloneInv(w0, w, src, dst, v) && ValidVa(v)
    requires w'.Inv() && Evolves(w0, w', dst, {}) && CloneOf(w0, w', src, dst, v) && Budget(w0, w', src, After(v))
    requires forall u :: ValidVa(u) && u != v ==> Lookup(w'.mem, dst, u) == Lookup(w.mem, dst, u)
    requires forall f :: f in w.leaf ==> f in w'.leaf && w'.leaf[f] == w.leaf[f]
    requires |w'.mem| == |w.mem| && forall f :: f in w.leaf && f < |w.mem| ==> w'.mem[f] == w.mem[f]
    ensures CloneInv(w0, w', src, dst, After(v))
  {
    hide Lookup, World.Inv, Evolves, Before, Budget, Ample;
    forall u | ValidVa(u) ensures Before(u, After(v)) ==> CloneOf(w0, w', src, dst, u)
      ensures !Before(u, After(v)) ==> Lookup(w'.mem, dst, u) == Lookup(w0.mem, dst, u)
    {
      BeforeAfter(u, v);
      if u != v && Before(u, v) { assert CloneOf(w0, w, src, dst, u); }
    }
  }

  /** Nothing to copy at `v`. */
  lemma CloneSkip(w0: World, w: World, src: nat, dst: nat, v: Va)
    requires w0.Inv() && CloneInv(w0, w, src, dst, v) && ValidVa(v) && !UserPage(Lookup(w0.mem, src, v))
    ensures CloneInv(w0, w, src, dst, After(v))
  {
    hide Lookup, World.Inv, Evolves, Before, Budget, Ample;
    forall u ensures Before(u, After(v)) <==> Before(u, v) || u == v { BeforeAfter(u, v); }
    BudgetMoves(w0, w, src, v, After(v));
    assert !Before(v, v) by { NotBeforeSelf(v); }
    assert CloneOf(w0, w, src, dst, v);
    CloneNext(w0, w, w, src, dst, v);
  }

  lemma NotBeforeSelf(v: Va)
    ensures !Before(v, v)
  {
  }

  /** Nothing to copy between `c` and `d`. */
  lemma CloneSkipTo(w0: World, w: World, src: nat, dst: nat, c: Va, d: Va)
    requires CloneInv(w0, w, src, dst, c)
    requires forall v :: ValidVa(v) && Before(v, c) ==> Before(v, d)
    requires forall v :: ValidVa(v) && Before(v, d) && !Before(v, c) ==> !UserPage(Lookup(w0.mem, src, v))
    ensures CloneInv(w0, w, src, dst, d)
  {
    hide Lookup, World.Inv, Evolves, Before, Budget, Ample;
    BudgetMoves(w0, w, src, c, d);
    forall v | ValidVa(v) && Before(v, d) ensures CloneOf(w0, w, src, dst, v) {
      if !Before(v, c) { assert Lookup(w.mem, dst, v) == Lookup(w0.mem, dst, v); }
    }
  }

  /** A user page of the parent is recorded, so its frame is in use and unchanged so far. */
  lemma ParentPage(w0: World, w: World, src: nat, dst: nat, v: Va)
    requires CanClone(w0, src, dst) && Evolves(w0, w, dst, {}) && ValidVa(v)
    requires UserPage(Lookup(w0.mem, src, v)) && !w0.Fb(Lookup(w0.mem, src, v).value.frame)
    ensures var f := Lookup(w0.mem, src, v).value.frame;
      f in w0.leaf && f < FRAMES && f !in w.free && |w.mem| == FRAMES && w.mem[f] == w0.mem[f]
    ensures v.i4 < USER_HALF
  {
    hide World.OwnPath;
    UserLeaf(w0, src, v);
  }

  lemma UserLeaf(w: World, r: nat, v: Va)
    requires w.Inv() && w.Space(r) && ValidVa(v) && UserPage(Lookup(w.mem, r, v))
    ensures var f := Lookup(w.mem, r, v).value.frame;
      w.Fb(f) || (v.i4 < USER_HALF && f in w.leaf && w.leaf[f] == Leaf(r, v))
  {
    UserRecord(w, r, r, v);
  }

  /** The copy of one own page is in place. */
  lemma CloneCopied(w0: World, w: World, w2: World, w3: World, src: nat, dst: nat, v: Va, page: nat)
    requires CanClone(w0, src, dst) && CloneInv(w0, w, src, dst, v) && ValidVa(v)
    requires UserPage(Lookup(w0.mem, src, v)) && OwnedPage(w, Word(page, Lookup(w0.mem, src, v).value.flags))
    requires !w0.Fb(Lookup(w0.mem, src, v).value.frame)
    requires page in w.free && page < FRAMES && |w.mem| == FRAMES && Lookup(w0.mem, src, v).value.frame < FRAMES
    requires w2 == WriteFrame(w, page, w0.mem[Lookup(w0.mem, src, v).value.frame], w.free - {page})
    requires w2.Inv() && SameLookups(w, w2) && OwnPathsKept(w, w2)
    requires w3.Inv() && Remapped(w2, w3, dst, v, Word(page, Lookup(w0.mem, src, v).value.flags))
    requires v in UserPages(w0, src) && |Below(w3.free)| >= |Below(w.free)| - 4
    ensures CloneInv(w0, w3, src, dst, After(v))
  {
    hide Lookup, World.OwnPath, World.Tables, World.Trees, World.LeafEntries, World.Leaves, World.Reachable,
         World.Shares, Before, Evolves, Remapped, Budget, Ample, UserPages, Below;
    var e := Lookup(w0.mem, src, v).value;
    var x := Word(page, e.flags);
    BudgetSpent(w0, w, w3, src, v);
    NotBeforeSelf(v);
    NotYetOwned(w0, w, src, dst, v);
    CopiedEvolves(w0, w, w2, w3, dst, v, x, w0.mem[e.frame]);
    RemapEffects(w2, w3, dst, v, x);
    assert CloneOf(w0, w3, src, dst, v);
    CloneNext(w0, w, w3, src, dst, v);
  }

  lemma NotYetOwned(w0: World, w: World, src: nat, dst: nat, v: Va)
    requires CanClone(w0, src, dst) && CloneInv(w0, w, src, dst, v) && ValidVa(v)
    ensures !Owned(w, Lookup(w.mem, dst, v))
  {
    hide Lookup, World.Inv, World.OwnPath, Before, CloneOf;
    NotBeforeSelf(v);
    FbSame(w0, w, dst);
  }

  lemma RemapEffects(w: World, w': World, s: nat, v: Va, x: Word)
    requires w.Inv() && w.Space(s) && Remapped(w, w', s, v, x) && Present(x)
    ensures Lookup(w'.mem, s, v) == Some(x)
    ensures forall u :: ValidVa(u) && u != v ==> Lookup(w'.mem, s, u) == Lookup(w.mem, s, u)
    ensures |w'.mem| == |w.mem|
    ensures forall f :: 0 <= f < |w.mem| && f !in w.free && f !in w.role ==> w'.mem[f] == w.mem[f]
  {
    hide Lookup, World.OwnPath;
  }

  lemma CopiedEvolves(w0: World, w: World, w2: World, w3: World, dst: nat, v: Va, x: Word, data: seq<Word>)
    requires w0.Inv() && w.Inv() && w2.Inv() && w3.Inv() && ValidVa(v) && Evolves(w0, w, dst, {}) && w0.Space(dst)
    requires x.frame in w.free && x.frame < FRAMES && w2 == WriteFrame(w, x.frame, data, w.free - {x.frame})
    requires SameLookups(w, w2) && OwnPathsKept(w, w2) && Remapped(w2, w3, dst, v, x)
    requires !Owned(w, Lookup(w.mem, dst, v)) && OwnedPage(w, x)
    ensures Evolves(w0, w3, dst, {}) && w3.leaf == w.leaf[x.frame := Leaf(dst, v)]
    ensures w.Space(dst) && w2.Space(dst) && x.frame in w0.free
  {
    hide Lookup, World.OwnPath, World.Tables, World.Trees, World.LeafEntries, World.Leaves, World.Reachable,
         World.Shares, Remapped;
    assert w.Space(dst) && w2.Space(dst);
    EvolvesTake(w0, w, dst, x.frame, data);
    EvolvesRemap(w0, w2, w3, dst, v, x, {x.frame});
  }

  /** A framebuffer page is shared, or stays unmapped when its tables could not be allocated. */
  lemma CloneShared(w0: World, w: World, w3: World, src: nat, dst: nat, v: Va, ok: bool)
    requires CanClone(w0, src, dst) && CloneInv(w0, w, src, dst, v) && ValidVa(v)
    requires UserPage(Lookup(w0.mem, src, v)) && w0.Fb(Lookup(w0.mem, src, v).value.frame)
    requires Present(Lookup(w0.mem, src, v).value)
    requires w3.Inv() && if ok then Remapped(w, w3, dst, v, Lookup(w0.mem, src, v).value) else Grows(w, w3, dst)
    requires v in UserPages(w0, src) && |Below(w3.free)| >= |Below(w.free)| - 4 && (!ok ==> |Below(w.free)| < 4)
    ensures CloneInv(w0, w3, src, dst, After(v))
  {
    hide Lookup, World.OwnPath, World.Tables, World.Trees, World.LeafEntries, World.Leaves, World.Reachable,
         World.Shares, Before, Budget, Ample, UserPages, Below, Evolves, Remapped, Grows, CanClone;
    BudgetSpent(w0, w, w3, src, v);
    NotBeforeSelf(v);
    if ok {
      SharedMapped(w0, w, w3, src, dst, v);
    } else {
      BudgetShort(w0, w, src, v);
      SharedShort(w0, w, w3, src, dst, v);
    }
    assert CloneOf(w0, w3, src, dst, v);
    ClonePlain(w0, src, dst);
    CloneNext(w0, w, w3, src, dst, v);
  }

  lemma ClonePlain(w0: World, src: nat, dst: nat)
    requires CanClone(w0, src, dst)
    ensures w0.Inv() && w0.Space(dst)
  {
    hide World.Inv, World.OwnPath, Lookup;
  }

  lemma SharedMapped(w0: World, w: World, w3: World, src: nat, dst: nat, v: Va)
    requires CanClone(w0, src, dst) && CloneInv(w0, w, src, dst, v) && ValidVa(v)
    requires UserPage(Lookup(w0.mem, src, v)) && w0.Fb(Lookup(w0.mem, src, v).value.frame)
    requires Present(Lookup(w0.mem, src, v).value)
    requires w3.Inv() && Remapped(w, w3, dst, v, Lookup(w0.mem, src, v).value)
    ensures Evolves(w0, w3, dst, {}) && w3.leaf == w.leaf && |w3.mem| == |w.mem|
    ensures Lookup(w3.mem, dst, v) == Lookup(w0.mem, src, v)
    ensures forall u :: ValidVa(u) && u != v ==> Lookup(w3.mem, dst, u) == Lookup(w.mem, dst, u)
    ensures forall f :: f in w.leaf && f < |w.mem| ==> w3.mem[f] == w.mem[f]
  {
    hide Lookup, World.OwnPath, World.Tables, World.Trees, World.LeafEntries, World.Leaves, World.Reachable,
         World.Shares, Before, Budget, Remapped, CloneOf, CanClone, Evolves;
    var x := Lookup(w0.mem, src, v).value;
    ClonePlain(w0, src, dst);
    NotYetOwned(w0, w, src, dst, v);
    FbSame(w0, w, dst);
    StillSpace(w0, w, dst, dst);
    EvolvesRemap(w0, w, w3, dst, v, x, {});
    RemapEffects(w, w3, dst, v, x);
  }

  lemma SharedShort(w0: World, w: World, w3: World, src: nat, dst: nat, v: Va)
    requires CanClone(w0, src, dst) && CloneInv(w0, w, src, dst, v) && ValidVa(v)
    requires w3.Inv() && Grows(w, w3, dst)
    ensures Evolves(w0, w3, dst, {}) && w3.leaf == w.leaf && |w3.mem| == |w.mem|
    ensures forall u :: ValidVa(u) ==> Lookup(w3.mem, dst, u) == Lookup(w.mem, dst, u)
    ensures forall f :: f in w.leaf && f < |w.mem| ==> w3.mem[f] == w.mem[f]
  {
    hide Lookup, World.OwnPath, World.Tables, World.Trees, World.LeafEntries, World.Leaves, World.Reachable,
         World.Shares, Before, Budget, CloneOf, CanClone, Evolves;
    ClonePlain(w0, src, dst);
    StillSpace(w0, w, dst, dst);
    EvolvesGrow(w0, w, w3, dst, {});
  }

  lemma StillSpace(w0: World, w: World, s: nat, r: nat)
    requires Evolves(w0, w, s, {}) && w0.Space(r)
    ensures w.Space(r)
  {
    hide Lookup, World.OwnPath;
  }

  /** The parent's tables do not change while the child is filled. */
  lemma ParentTable(w0: World, w: World, src: nat, dst: nat, f: nat)
    requires w0.Frames() && Evolves(w0, w, dst, {}) && f in w0.role && w0.role[f].owner != dst
    ensures f < |w.mem| && |w.mem| == FRAMES && w.mem[f] == w0.mem[f] && |w.mem[f]| == ENTRIES
  {
    hide Lookup, World.OwnPath;
  }

  lemma CopyAllowed(w0: World, w: World, w2: World, src: nat, dst: nat, v: Va, x: Word)
    requires CanClone(w0, src, dst) && Evolves(w0, w, dst, {}) && w.Inv() && ValidVa(v)
    requires UserPage(Lookup(w0.mem, src, v))
    requires !w0.Fb(Lookup(w0.mem, src, v).value.frame)
    requires x.frame in w.free && x.frame < FRAMES && w2 == w.(mem := w2.mem, free := w.free - {x.frame})
    requires OwnPathsKept(w, w2)
    ensures MapAllowed(w2, dst, v, x)
  {
    hide Lookup, World.Tables, World.Trees, World.LeafEntries, World.Leaves, World.Reachable, World.Shares,
         World.OwnPath;
    UserLeaf(w0, src, v);
    assert w.Space(dst);
  }

  /** Copies one own page of the parent. */
  method CopyPage(m: Machine, dst: nat, src: nat, v: Va, pte: Word, ghost w0: World) returns (ok: bool)
    requires m.pmm.Valid() && CanClone(w0, src, dst) && CloneInv(w0, m.W(), src, dst, v) && ValidVa(v)
    requires Lookup(w0.mem, src, v) == Some(pte) && Present(pte) && User(pte) && !w0.Fb(pte.frame)
    modifies m, m.pmm, m.pmm.bitmap
    ensures m.Valid() && Evolves(w0, m.W(), dst, {})
    ensures ok ==> CloneInv(w0, m.W(), src, dst, After(v))
    ensures !ok ==> !Ample(w0, src) && |Below(m.pmm.free)| <= 1
  {
    hide Lookup, World.OwnPath, World.Tables, World.Trees, World.LeafEntries, World.Leaves, World.Reachable,
         World.Shares, Allocator.Valid, Before, CloneOf, Remapped, Grows, Untouched, AddrOf, VaOf, Below, Again,
         OwnMap, MapAllowed, NoOwnedPages, Inherits, Budget, Ample, UserPages, Evolves;
    ghost var w := m.W();
    ParentPage(w0, w, src, dst, v);
    IsUserPage(w0, src, v);
    if |Below(w.free)| < 4 { BudgetShort(w0, w, src, v); }
    var page := CopyFrame(m, pte.frame);
    if page == 0 { return false; }
    ghost var data := w0.mem[pte.frame];
    ghost var w2 := m.W();
    VaRoundTrip(v);
    assert page * PAGE_SIZE / PAGE_SIZE == page;
    CopyAllowed(w0, w, w2, src, dst, v, Word(page, pte.flags));
    ok := m.MapPage(dst, AddrOf(v), page * PAGE_SIZE, pte.flags);
    if ok {
      CloneCopied(w0, w, w2, m.W(), src, dst, v, page);
    } else {
      EvolvesTake(w0, w, dst, page, data);
      TakeBack(m, dst, page, w0, w2);
    }
  }

  /** A free frame that holds what `f` holds. */
  method CopyFrame(m: Machine, f: nat) returns (page: nat)
    requires m.Valid() && f < |m.mem| && f !in m.pmm.free
    modifies m`mem, m.pmm, m.pmm.bitmap
    ensures m.Valid() && |Below(m.pmm.free)| == |Below(old(m.pmm.free))| - (if page == 0 then 0 else 1)
    ensures page == 0 ==> m.W() == old(m.W()) && |Below(m.pmm.free)| == 0
    ensures page != 0 ==> page in old(m.pmm.free) && page < FRAMES
    ensures page != 0 ==> m.W() == WriteFrame(old(m.W()), page, old(m.mem)[f], old(m.pmm.free) - {page})
    ensures page != 0 ==> SameLookups(old(m.W()), m.W()) && OwnPathsKept(old(m.W()), m.W())
  {
    hide Lookup, World.OwnPath, World.Tables, World.Trees, World.LeafEntries, World.Leaves, World.Reachable,
         World.Shares, Allocator.Valid, Below;
    ghost var w := m.W();
    page := m.AllocFrame();
    if page == 0 { BelowNone(m.pmm.free); return; }
    Rewritten(w, page, w.mem[f]);
    m.mem := m.mem[page := m.mem[f]];
    assert m.W() == WriteFrame(w, page, w.mem[f], w.free - {page});
  }

  /** The page that could not be mapped is given back. */
  method TakeBack(m: Machine, dst: nat, page: nat, ghost w0: World, ghost w: World)
    requires m.Valid() && w0.Frames() && w.Frames() && Evolves(w0, w, dst, {page}) && Grows(w, m.W(), dst)
    requires page < FRAMES && forall p :: p in m.pmm.free ==> p >= FRAMES
    modifies m, m.pmm, m.pmm.bitmap
    ensures m.Valid() && Evolves(w0, m.W(), dst, {}) && |Below(m.pmm.free)| <= 1
  {
    hide Lookup, World.OwnPath, World.Tables, World.Trees, World.LeafEntries, World.Leaves, World.Reachable,
         World.Shares, Allocator.Valid, Grows, Untouched, Evolves;
    ghost var w1 := m.W();
    EvolvesGrow(w0, w, w1, dst, {page});
    TakenPage(w0, w1, dst, page);
    m.GiveBack(page);
    assert Below(m.pmm.free) == {page};
    EvolvesReturn(w0, w1, dst, page);
  }

  /** Shares one framebuffer page; the result of map_page is ignored. */
  method SharePage(m: Machine, dst: nat, src: nat, v: Va, pte: Word, ghost w0: World)
    requires m.pmm.Valid() && CanClone(w0, src, dst) && CloneInv(w0, m.W(), src, dst, v) && ValidVa(v)
    requires Lookup(w0.mem, src, v) == Some(pte) && Present(pte) && User(pte) && w0.Fb(pte.frame) && v.i4 < USER_HALF
    modifies m, m.pmm, m.pmm.bitmap
    ensures m.Valid() && CloneInv(w0, m.W(), src, dst, After(v))
  {
    hide Lookup, World.OwnPath, World.Tables, World.Trees, World.LeafEntries, World.Leaves, World.Reachable,
         World.Shares, Allocator.Valid, Before, CloneOf, Remapped, Grows, Untouched, AddrOf, VaOf, Below, Again,
         OwnMap, MapAllowed, NoOwnedPages, Inherits, Budget, Ample, UserPages;
    ghost var w := m.W();
    IsUserPage(w0, src, v);
    VaRoundTrip(v);
    NotBeforeSelf(v);
    assert pte.frame * PAGE_SIZE / PAGE_SIZE == pte.frame;
    ShareAllowed(w0, w, src, dst, v, pte);
    var ok := m.MapPage(dst, AddrOf(v), pte.frame * PAGE_SIZE, pte.flags);
    CloneShared(w0, w, m.W(), src, dst, v, ok);
  }

  lemma ShareAllowed(w0: World, w: World, src: nat, dst: nat, v: Va, x: Word)
    requires CanClone(w0, src, dst) && Evolves(w0, w, dst, {}) && w.Inv() && ValidVa(v) && v.i4 < USER_HALF
    requires Lookup(w0.mem, src, v) == Some(x) && User(x) && w0.Fb(x.frame)
    requires Lookup(w.mem, dst, v) == Lookup(w0.mem, dst, v)
    ensures MapAllowed(w, dst, v, x)
  {
    hide Lookup, World.Tables, World.Trees, World.LeafEntries, World.Leaves, World.Reachable, World.Shares,
         World.OwnPath;
    assert w.Space(dst);
  }

  /** Table `f` of `w` is where the walks of space `r` arrive at `slot`. */
  ghost predicate Visits(w: World, r: nat, f: nat, slot: Slot) {
    && f in w.role && w.role[f].slot == slot && (w.role[f].owner == r || w.role[f].owner == w.kernel)
    && forall v :: ValidVa(v) && slot.On(v) ==> Lookup(w.mem, r, v) == Walk(w.mem, f, slot, v)
  }

  lemma VisitsChild(w: World, r: nat, f: nat, slot: Slot, i: nat)
    requires w.Frames() && w.Tables() && Visits(w, r, f, slot) && !slot.Pt? && i < ENTRIES && Present(At(w.mem, f, i))
    ensures Visits(w, r, At(w.mem, f, i).frame, slot.Child(i))
  {
    assert w.EntryOk(f, i);
    var c := At(w.mem, f, i).frame;
    forall v | ValidVa(v) && slot.Child(i).On(v) ensures Lookup(w.mem, r, v) == Walk(w.mem, c, slot.Child(i), v) {
      assert slot.On(v) && slot.Index(v) == i;
    }
  }

  lemma VisitsAbsent(w: World, r: nat, f: nat, slot: Slot, v: Va)
    requires Visits(w, r, f, slot) && ValidVa(v) && slot.On(v) && !Present(At(w.mem, f, slot.Index(v)))
    ensures Lookup(w.mem, r, v) == None
  {
  }

  lemma VisitsLeaf(w: World, r: nat, f: nat, slot: Slot, v: Va)
    requires Visits(w, r, f, slot) && slot.Pt? && ValidVa(v) && slot.On(v)
    ensures Lookup(w.mem, r, v) == if Present(At(w.mem, f, v.i1)) then Some(At(w.mem, f, v.i1)) else None
  {
  }

  /** The innermost loop: the entries of one page table. */
  method ClonePt(m: Machine, dst: nat, src: nat, a: nat, b: nat, c: nat, pt: nat, ghost w0: World) returns (ok: bool)
    requires m.pmm.Valid() && CanClone(w0, src, dst) && CloneInv(w0, m.W(), src, dst, Va(a, b, c, 0))
    requires a < USER_HALF && ValidVa(Va(a, b, c, 0)) && Visits(w0, src, pt, Pt(a, b, c))
    modifies m, m.pmm, m.pmm.bitmap
    ensures m.Valid() && Evolves(w0, m.W(), dst, {})
    ensures ok ==> CloneInv(w0, m.W(), src, dst, Va(a, b, c + 1, 0))
    ensures !ok ==> !Ample(w0, src) && |Below(m.pmm.free)| <= 1
  {
    hide Lookup, Walk, World.OwnPath, World.Tables, World.Trees, World.LeafEntries, World.Leaves, World.Reachable,
         World.Shares, Allocator.Valid, Before, CloneOf, Evolves, Budget, Ample, Below;
    for i := 0 to ENTRIES
      invariant m.pmm.Valid() && CloneInv(w0, m.W(), src, dst, Va(a, b, c, i))
    {
      ghost var w := m.W();
      ghost var v := Va(a, b, c, i);
      ParentTable(w0, w, src, dst, pt);
      VisitsLeaf(w0, src, pt, Pt(a, b, c), v);
      var pte := m.mem[pt][i];
      assert pte == At(w0.mem, pt, i) && After(v) == Va(a, b, c, i + 1);
      if !Present(pte) || !User(pte) {
        CloneSkip(w0, w, src, dst, v);
      } else if m.IsFb(pte.frame) {
        FbSame(w0, w, dst);
        SharePage(m, dst, src, Va(a, b, c, i), pte, w0);
      } else {
        FbSame(w0, w, dst);
        ok := CopyPage(m, dst, src, Va(a, b, c, i), pte, w0);
        if !ok { return; }
      }
    }
    ok := true;
    CloneCarry(w0, m.W(), src, dst, Va(a, b, c, ENTRIES), Va(a, b, c + 1, 0));
  }

  /** Two cursors with no valid address between them. */
  predicate SameCursor(c: Va, d: Va) {
    || (d == Va(c.i4, c.i3, c.i2 + 1, 0) && c.i1 == ENTRIES)
    || (d == Va(c.i4, c.i3 + 1, 0, 0) && c.i2 == ENTRIES && c.i1 == 0)
    || (d == Va(c.i4 + 1, 0, 0, 0) && c.i3 == ENTRIES && c.i2 == 0 && c.i1 == 0)
  }

  lemma CloneCarry(w0: World, w: World, src: nat, dst: nat, c: Va, d: Va)
    requires CloneInv(w0, w, src, dst, c) && SameCursor(c, d)
    ensures CloneInv(w0, w, src, dst, d)
  {
    hide Lookup, World.Inv, Evolves, CloneOf;
    assert forall v :: ValidVa(v) ==> (Before(v, c) <==> Before(v, d));
    CloneSkipTo(w0, w, src, dst, c, d);
  }

  /** The parent maps nothing below an absent entry. */
  lemma CloneAbsent(w0: World, w: World, src: nat, dst: nat, f: nat, slot: Slot, i: nat, c: Va, d: Va)
    requires CloneInv(w0, w, src, dst, c) && Visits(w0, src, f, slot) && !slot.Pt? && !Present(At(w0.mem, f, i))
    requires match slot
             case Root => c == Va(i, 0, 0, 0) && d == Va(i + 1, 0, 0, 0)
             case Pdpt(x) => c == Va(x, i, 0, 0) && d == Va(x, i + 1, 0, 0)
             case Pd(x, y) => c == Va(x, y, i, 0) && d == Va(x, y, i + 1, 0)
    ensures CloneInv(w0, w, src, dst, d)
  {
    hide Lookup, World.Inv, Evolves, CloneOf, Visits;
    assert forall v :: ValidVa(v) && Before(v, c) ==> Before(v, d);
    forall v | ValidVa(v) && Before(v, d) && !Before(v, c) ensures !UserPage(Lookup(w0.mem, src, v)) {
      assert slot.On(v) && slot.Index(v) == i;
      VisitsAbsent(w0, src, f, slot, v);
    }
    CloneSkipTo(w0, w, src, dst, c, d);
  }

  method ClonePd(m: Machine, dst: nat, src: nat, a: nat, b: nat, pd: nat, ghost w0: World) returns (ok: bool)
    requires m.pmm.Valid() && CanClone(w0, src, dst) && CloneInv(w0, m.W(), src, dst, Va(a, b, 0, 0))
    requires a < USER_HALF && ValidVa(Va(a, b, 0, 0)) && Visits(w0, src, pd, Pd(a, b))
    modifies m, m.pmm, m.pmm.bitmap
    ensures m.Valid() && Evolves(w0, m.W(), dst, {})
    ensures ok ==> CloneInv(w0, m.W(), src, dst, Va(a, b + 1, 0, 0))
    ensures !ok ==> !Ample(w0, src) && |Below(m.pmm.free)| <= 1
  {
    hide Lookup, Walk, World.OwnPath, World.Tables, World.Trees, World.LeafEntries, World.Leaves, World.Reachable,
         World.Shares, Allocator.Valid, Before, CloneOf, Evolves, Budget, Ample, Below;
    for i := 0 to ENTRIES
      invariant m.pmm.Valid() && CloneInv(w0, m.W(), src, dst, Va(a, b, i, 0))
    {
      ParentTable(w0, m.W(), src, dst, pd);
      var pde := m.mem[pd][i];
      assert pde == At(w0.mem, pd, i);
      if !Present(pde) {
        CloneAbsent(w0, m.W(), src, dst, pd, Pd(a, b), i, Va(a, b, i, 0), Va(a, b, i + 1, 0));
      } else {
        VisitsChild(w0, src, pd, Pd(a, b), i);
        ok := ClonePt(m, dst, src, a, b, i, pde.frame, w0);
        if !ok { return; }
      }
    }
    ok := true;
    CloneCarry(w0, m.W(), src, dst, Va(a, b, ENTRIES, 0), Va(a, b + 1, 0, 0));
  }

  method ClonePdpt(m: Machine, dst: nat, src: nat, a: nat, pdpt: nat, ghost w0: World) returns (ok: bool)
    requires m.pmm.Valid() && CanClone(w0, src, dst) && CloneInv(w0, m.W(), src, dst, Va(a, 0, 0, 0))
    requires a < USER_HALF && ValidVa(Va(a, 0, 0, 0)) && Visits(w0, src, pdpt, Pdpt(a))
    modifies m, m.pmm, m.pmm.bitmap
    ensures m.Valid() && Evolves(w0, m.W(), dst, {})
    ensures ok ==> CloneInv(w0, m.W(), src, dst, Va(a + 1, 0, 0, 0))
    ensures !ok ==> !Ample(w0, src) && |Below(m.pmm.free)| <= 1
  {
    hide Lookup, Walk, World.OwnPath, World.Tables, World.Trees, World.LeafEntries, World.Leaves, World.Reachable,
         World.Shares, Allocator.Valid, Before, CloneOf, Evolves, Budget, Ample, Below;
    for i := 0 to ENTRIES
      invariant m.pmm.Valid() && CloneInv(w0, m.W(), src, dst, Va(a, i, 0, 0))
    {
      ParentTable(w0, m.W(), src, dst, pdpt);
      var pdpte := m.mem[pdpt][i];
      assert pdpte == At(w0.mem, pdpt, i);
      if !Present(pdpte) {
        CloneAbsent(w0, m.W(), src, dst, pdpt, Pdpt(a), i, Va(a, i, 0, 0), Va(a, i + 1, 0, 0));
      } else {
        VisitsChild(w0, src, pdpt, Pdpt(a), i);
        ok := ClonePd(m, dst, src, a, i, pdpte.frame, w0);
        if !ok { return; }
      }
    }
    ok := true;
    CloneCarry(w0, m.W(), src, dst, Va(a, ENTRIES, 0, 0), Va(a + 1, 0, 0, 0));
  }

  /** Copies every user page of `src` into the fresh space `dst`. Fails only when memory runs out, and not
      with four free frames for each page. */
  method CloneUserPages(m: Machine, dst: nat, src: nat) returns (ok: bool)
    requires m.Valid() && CanClone(m.W(), src, dst)
    modifies m, m.pmm, m.pmm.bitmap
    ensures m.Valid() && Evolves(old(m.W()), m.W(), dst, {})
    ensures ok ==> forall v :: ValidVa(v) ==> CloneOf(old(m.W()), m.W(), src, dst, v)
    ensures Ample(old(m.W()), src) ==> ok
    ensures !ok ==> |Below(m.pmm.free)| <= 1
  {
    hide Lookup, Walk, World.OwnPath, World.Tables, World.Trees, World.LeafEntries, World.Leaves, World.Reachable,
         World.Shares, Allocator.Valid, Before, CloneOf, Evolves, Budget, Ample, Below;
    ghost var w0 := m.W();
    EvolvesNot(w0, dst);
    BudgetNot(w0, src);
    NoneBefore();
    VisitsRoot(w0, src);
    for i := 0 to USER_HALF
      invariant m.pmm.Valid() && CloneInv(w0, m.W(), src, dst, Va(i, 0, 0, 0))
    {
      ParentTable(w0, m.W(), src, dst, src);
      var pml4e := m.mem[src][i];
      assert pml4e == At(w0.mem, src, i);
      if !Present(pml4e) {
        CloneAbsent(w0, m.W(), src, dst, src, Root, i, Va(i, 0, 0, 0), Va(i + 1, 0, 0, 0));
      } else {
        VisitsChild(w0, src, src, Root, i);
        ok := ClonePdpt(m, dst, src, i, pml4e.frame, w0);
        if !ok { return; }
      }
    }
    ok := true;
    CloneRest(w0, m.W(), src, dst);
  }

  lemma BudgetNot(w: World, r: nat)
    ensures Budget(w, w, r, Va(0, 0, 0, 0))
  {
  }

  lemma NoneBefore()
    ensures forall v :: !Before(v, Va(0, 0, 0, 0))
  {
  }

  lemma VisitsRoot(w: World, r: nat)
    requires w.Frames() && w.Space(r)
    ensures Visits(w, r, r, Root)
  {
  }

  /** No user page lies in the upper half. */
  lemma CloneRest(w0: World, w: World, src: nat, dst: nat)
    requires CanClone(w0, src, dst) && CloneInv(w0, w, src, dst, Va(USER_HALF, 0, 0, 0))
    ensures forall v :: ValidVa(v) ==> CloneOf(w0, w, src, dst, v)
  {
    hide Lookup, World.OwnPath, World.Inv, Evolves;
    forall v | ValidVa(v) ensures CloneOf(w0, w, src, dst, v) {
      if !Before(v, Va(USER_HALF, 0, 0, 0)) {
        if UserPage(Lookup(w0.mem, src, v)) { UserLeaf(w0, src, v); }
      }
    }
  }

  lemma FbSame(w0: World, w: World, s: nat)
    requires Evolves(w0, w, s, {})
    ensures forall f :: w.Fb(f) == w0.Fb(f)
  {
  }

  // ---------------------------------------------------------------- teardown

  /** A page of space `s` at an address before `c`. */
  ghost predicate Doomed(w0: World, s: nat, c: Va, f: nat) {
    f in w0.leaf && w0.leaf[f].owner == s && Before(w0.leaf[f].va, c)
  }

  /** The translation of an own page of `s` at an address before `c` is gone. */
  ghost predicate Gone(w0: World, r: nat, v: Va, s: nat, c: Va) {
    r == s && Before(v, c) && Lookup(w0.mem, s, v).Some? && OwnedPage(w0, Lookup(w0.mem, s, v).value)
  }

  ghost predicate TornDown(w0: World, w: World, s: nat, c: Va) {
    && w.role == w0.role && w.kernel == w0.kernel && w.fbLo == w0.fbLo && w.fbHi == w0.fbHi && |w.mem| == |w0.mem|
    && (forall f :: f in w.leaf <==> f in w0.leaf && !Doomed(w0, s, c, f))
    && (forall f :: f in w.leaf && f in w0.leaf ==> w.leaf[f] == w0.leaf[f])
    && (forall f :: f in w.free <==> f in w0.free || Doomed(w0, s, c, f))
    && (forall f :: 0 <= f < |w0.mem| && !(f in w0.role && w0.role[f].owner == s && w0.role[f].slot.Pt?) ==>
          w.mem[f] == w0.mem[f])
    && (forall r, v :: w0.Space(r) && ValidVa(v) ==>
          Lookup(w.mem, r, v) == if Gone(w0, r, v, s, c) then None else Lookup(w0.mem, r, v))
  }

  /** Teardown up to the cursor; the entries from the cursor on are still as they were. */
  ghost predicate DestroyInv(w0: World, w: World, s: nat, c: Va) {
    && w0.Inv() && w0.Space(s) && s != w0.kernel && w.Inv() && TornDown(w0, w, s, c)
    && (forall f, i :: f in w0.role && w0.role[f].slot.Pt? && 0 <= i < ENTRIES ==>
          Before(LeafVa(w0.role[f].slot, i), c) || At(w.mem, f, i) == At(w0.mem, f, i))
  }

  lemma {:induction false} OwnPathUp(w: World, g: nat, v: Va)
    requires w.Frames() && w.Trees() && g in w.role && w.role[g].slot.On(v) && w.OwnPath(g, v)
    ensures w.OwnPath(w.role[g].owner, v)
    decreases 3 - w.role[g].slot.Depth()
  {
    if !w.role[g].slot.Root? {
      assert w.Hung(g);
      OwnPathUp(w, w.role[g].parent, v);
    }
  }

  /** Every recorded page has one address, and every own translation is recorded under it. */
  lemma PageRecord(w: World, r: nat, v: Va)
    requires w.Inv() && w.Space(r) && ValidVa(v) && Lookup(w.mem, r, v).Some? && OwnedPage(w, Lookup(w.mem, r, v).value)
    ensures var f := Lookup(w.mem, r, v).value.frame; f in w.leaf && w.leaf[f] == Leaf(r, v)
  {
    UserLeaf(w, r, v);
  }

  /** Moving the cursor over an address that holds no own page of `s`. */
  lemma DestroySkipTo(w0: World, w: World, s: nat, c: Va, d: Va)
    requires DestroyInv(w0, w, s, c)
    requires forall v :: ValidVa(v) && Before(v, c) ==> Before(v, d)
    requires forall v :: ValidVa(v) && Before(v, d) && !Before(v, c) ==> !Gone(w0, s, v, s, d)
    ensures DestroyInv(w0, w, s, d)
  {
    hide Lookup, World.OwnPath, World.Tables, World.Trees, World.LeafEntries, World.Reachable, World.Shares, Before;
    forall f ensures Doomed(w0, s, d, f) <==> Doomed(w0, s, c, f) {
      if f in w0.leaf { assert w0.Mapped(f); MappedOwned(w0, f); }
    }
    forall r, v | w0.Space(r) && ValidVa(v) ensures Gone(w0, r, v, s, d) <==> Gone(w0, r, v, s, c) {
    }
    forall f, i | f in w0.role && w0.role[f].slot.Pt? && 0 <= i < ENTRIES && !Before(LeafVa(w0.role[f].slot, i), d)
      ensures At(w.mem, f, i) == At(w0.mem, f, i)
    {
      HungIndices(w0, f);
    }
  }

  lemma MappedOwned(w: World, f: nat)
    requires w.Frames() && f in w.leaf && w.Mapped(f) && w.Tables() && w.LeafEntries()
    ensures var e := Lookup(w.mem, w.leaf[f].owner, w.leaf[f].va);
      e.Some? && OwnedPage(w, e.value) && e.value.frame == f
  {
    PresentLeaf(w.mem, w.leaf[f].owner, Root, w.leaf[f].va);
  }

  /** One own page of `s` is unmapped and freed. */
  lemma DestroyStep(w0: World, w: World, w1: World, s: nat, v: Va, pt: nat, x: Word)
    requires DestroyInv(w0, w, s, v) && ValidVa(v)
    requires pt in w.role && w.role[pt].slot == Pt(v.i4, v.i3, v.i2) && pt < FRAMES
    requires Lookup(w0.mem, s, v) == Some(x) && OwnedPage(w0, x)
    requires Remapped(w, w1, s, v, ZERO) && w1.mem == Put(w.mem, pt, v.i1, ZERO) && w1.role == w.role
    requires w.role[pt].owner == s && w1.Inv() && w1.free == w.free
    requires w1.(free := w1.free + {x.frame}).Inv()
    ensures DestroyInv(w0, w1.(free := w1.free + {x.frame}), s, After(v))
  {
    hide Lookup, World.OwnPath, World.Tables, World.Trees, World.LeafEntries, World.Leaves, World.Reachable,
         World.Shares, Before, Remapped, DestroyInv;
    SameRoles(w0, w, s, v);
    DestroyFrames(w0, w, w1, s, v, x);
    DestroyLookups(w0, w, w1, s, v, x);
    DestroyEntries(w0, w, w1, s, v, pt);
    DestroyDone(w0, w, w1, s, v, pt, x);
  }

  lemma DoomedNext(w0: World, s: nat, v: Va, x: Word, f: nat)
    requires w0.Inv() && w0.Space(s) && ValidVa(v) && Lookup(w0.mem, s, v) == Some(x) && OwnedPage(w0, x)
    ensures Doomed(w0, s, After(v), f) <==> Doomed(w0, s, v, f) || f == x.frame
  {
    hide Lookup, World.OwnPath, World.Tables, World.Trees, World.LeafEntries, World.Reachable, World.Shares, Before;
    PageRecord(w0, s, v);
    if f in w0.leaf {
      assert w0.Mapped(f);
      BeforeAfter(w0.leaf[f].va, v);
    }
    BeforeAfter(v, v);
  }

  lemma DestroyFrames(w0: World, w: World, w1: World, s: nat, v: Va, x: Word)
    requires DestroyInv(w0, w, s, v) && ValidVa(v) && Lookup(w0.mem, s, v) == Some(x) && OwnedPage(w0, x)
    requires Remapped(w, w1, s, v, ZERO) && w1.free == w.free
    ensures forall f :: f in w1.leaf <==> f in w0.leaf && !Doomed(w0, s, After(v), f)
    ensures forall f :: f in w1.leaf && f in w0.leaf ==> w1.leaf[f] == w0.leaf[f]
    ensures forall f :: f in w1.free + {x.frame} <==> f in w0.free || Doomed(w0, s, After(v), f)
  {
    hide Lookup, World.OwnPath, World.Tables, World.Trees, World.LeafEntries, World.Leaves, World.Reachable,
         World.Shares, Before, Doomed;
    NotBeforeSelf(v);
    assert Lookup(w.mem, s, v) == Some(x);
    assert OwnedPage(w, x) && !OwnedPage(w, ZERO);
    forall f ensures Doomed(w0, s, After(v), f) <==> Doomed(w0, s, v, f) || f == x.frame {
      DoomedNext(w0, s, v, x, f);
    }
  }

  lemma DestroyLookups(w0: World, w: World, w1: World, s: nat, v: Va, x: Word)
    requires DestroyInv(w0, w, s, v) && ValidVa(v) && Lookup(w0.mem, s, v) == Some(x) && OwnedPage(w0, x)
    requires Remapped(w, w1, s, v, ZERO)
    ensures forall r, u :: w0.Space(r) && ValidVa(u) ==>
          Lookup(w1.mem, r, u) == if Gone(w0, r, u, s, After(v)) then None else Lookup(w0.mem, r, u)
  {
    hide Lookup, World.OwnPath, World.Inv, Before, Doomed, Relabel;
    assert forall r :: w0.Space(r) ==> w.Space(r);
    forall r, u | w0.Space(r) && ValidVa(u)
      ensures Lookup(w1.mem, r, u) == if Gone(w0, r, u, s, After(v)) then None else Lookup(w0.mem, r, u)
    {
      BeforeAfter(u, v);
    }
  }

  lemma DestroyEntries(w0: World, w: World, w1: World, s: nat, v: Va, pt: nat)
    requires DestroyInv(w0, w, s, v) && ValidVa(v)
    requires pt in w0.role && w0.role[pt].slot == Pt(v.i4, v.i3, v.i2) && pt < FRAMES && w0.role[pt].owner == s
    requires w1.mem == Put(w.mem, pt, v.i1, ZERO)
    ensures forall f, i ::
      f in w0.role && w0.role[f].slot.Pt? && 0 <= i < ENTRIES && !Before(LeafVa(w0.role[f].slot, i), After(v)) ==>
          At(w1.mem, f, i) == At(w0.mem, f, i)
    ensures |w1.mem| == |w0.mem|
    ensures forall f :: 0 <= f < |w0.mem| && !(f in w0.role && w0.role[f].owner == s && w0.role[f].slot.Pt?) ==>
      w1.mem[f] == w0.mem[f]
  {
    hide Lookup, World.OwnPath, World.Tables, World.Trees, World.LeafEntries, World.Leaves, World.Reachable,
         World.Shares, Before, Doomed;
    forall f, i |
      f in w0.role && w0.role[f].slot.Pt? && 0 <= i < ENTRIES && !Before(LeafVa(w0.role[f].slot, i), After(v))
      ensures At(w1.mem, f, i) == At(w0.mem, f, i)
    {
      BeforeAfter(LeafVa(w0.role[f].slot, i), v);
    }
  }

  lemma DestroyDone(w0: World, w: World, w1: World, s: nat, v: Va, pt: nat, x: Word)
    requires DestroyInv(w0, w, s, v) && Remapped(w, w1, s, v, ZERO) && w1.role == w.role
    requires w1.(free := w1.free + {x.frame}).Inv()
    requires forall f :: f in w1.leaf <==> f in w0.leaf && !Doomed(w0, s, After(v), f)
    requires forall f :: f in w1.leaf && f in w0.leaf ==> w1.leaf[f] == w0.leaf[f]
    requires forall f :: f in w1.free + {x.frame} <==> f in w0.free || Doomed(w0, s, After(v), f)
    requires forall r, u :: w0.Space(r) && ValidVa(u) ==>
          Lookup(w1.mem, r, u) == if Gone(w0, r, u, s, After(v)) then None else Lookup(w0.mem, r, u)
    requires |w1.mem| == |w0.mem|
    requires forall f, i ::
      f in w0.role && w0.role[f].slot.Pt? && 0 <= i < ENTRIES && !Before(LeafVa(w0.role[f].slot, i), After(v)) ==>
          At(w1.mem, f, i) == At(w0.mem, f, i)
    requires forall f :: 0 <= f < |w0.mem| && !(f in w0.role && w0.role[f].owner == s && w0.role[f].slot.Pt?) ==>
      w1.mem[f] == w0.mem[f]
    ensures DestroyInv(w0, w1.(free := w1.free + {x.frame}), s, After(v))
  {
    hide Lookup, World.OwnPath, World.Inv, Before, Doomed, Gone, Relabel, Untouched;
  }

  lemma SameRoles(w0: World, w: World, s: nat, c: Va)
    requires DestroyInv(w0, w, s, c)
    ensures w.role == w0.role && w.fbLo == w0.fbLo && w.fbHi == w0.fbHi && w.kernel == w0.kernel
  {
  }

  /** The walk's own copy of an entry that the teardown has not reached yet. */
  lemma PendingEntry(w0: World, w: World, s: nat, f: nat, slot: Slot, i: nat, c: Va)
    requires DestroyInv(w0, w, s, c) && Visits(w0, s, f, slot) && i < ENTRIES
    requires slot.Pt? ==> c == LeafVa(slot, i)
    ensures f < |w.mem| && |w.mem| == FRAMES && |w.mem[f]| == ENTRIES && w.mem[f][i] == At(w0.mem, f, i)
  {
    hide Lookup, World.OwnPath, World.Tables, World.Trees, World.LeafEntries, World.Leaves, World.Reachable,
         World.Shares, Walk;
    if slot.Pt? { NotBeforeSelf(c); }
  }

  /** Frees one own page of `s`. */
  method FreeUserPage(m: Machine, s: nat, v: Va, pt: nat, pte: Word, ghost w0: World)
    requires m.pmm.Valid() && DestroyInv(w0, m.W(), s, v) && ValidVa(v) && Visits(w0, s, pt, Pt(v.i4, v.i3, v.i2))
    requires pte == At(w0.mem, pt, v.i1) && OwnedPage(w0, pte)
    modifies m, m.pmm, m.pmm.bitmap
    ensures m.Valid() && DestroyInv(w0, m.W(), s, After(v))
  {
    hide Lookup, Walk, World.OwnPath, World.Tables, World.Trees, World.LeafEntries, World.Leaves, World.Reachable,
         World.Shares, Allocator.Valid, Before, TornDown, Remapped;
    ghost var w := m.W();
    VisitsLeaf(w0, s, pt, Pt(v.i4, v.i3, v.i2), v);
    SameRoles(w0, w, s, v);
    OwnTable(w0, w, s, v, pt);
    PageRecord(w0, s, v);
    PageFrame(w0, pte.frame);
    m.ClearLeaf(s, v, pt);
    ghost var w1 := m.W();
    ClearedRecord(w0, w, w1, s, v, pte);
    m.GiveBack(pte.frame);
    DestroyStep(w0, w, w1, s, v, pt, pte);
  }

  lemma PageFrame(w: World, f: nat)
    requires w.Inv() && f in w.leaf
    ensures 0 < f < FRAMES && f !in w.role && !w.Fb(f)
  {
  }

  lemma ClearedRecord(w0: World, w: World, w1: World, s: nat, v: Va, x: Word)
    requires DestroyInv(w0, w, s, v) && ValidVa(v) && Lookup(w0.mem, s, v) == Some(x) && OwnedPage(w0, x)
    requires Remapped(w, w1, s, v, ZERO)
    ensures x.frame !in w1.leaf
  {
    hide Lookup, World.OwnPath, World.Inv, Before, Doomed;
    NotBeforeSelf(v);
    assert Lookup(w.mem, s, v) == Some(x);
    assert OwnedPage(w, x) && !OwnedPage(w, ZERO);
  }

  /** A page table with a user page is the space's own, on an own path. */
  lemma OwnTable(w0: World, w: World, s: nat, v: Va, pt: nat)
    requires DestroyInv(w0, w, s, v) && ValidVa(v) && Visits(w0, s, pt, Pt(v.i4, v.i3, v.i2))
    requires OwnedPage(w0, At(w0.mem, pt, v.i1))
    ensures w.role[pt].owner == s && MapAllowed(w, s, v, ZERO)
  {
    hide Lookup, Walk, World.Tables, World.Leaves, World.Reachable, World.Shares, TornDown;
    SameRoles(w0, w, s, v);
    assert w0.LeafEntryOk(pt, v.i1);
    assert w.OwnPath(pt, v);
    OwnPathUp(w, pt, v);
  }

  lemma DestroyCarry(w0: World, w: World, s: nat, c: Va, d: Va)
    requires DestroyInv(w0, w, s, c) && SameCursor(c, d)
    ensures DestroyInv(w0, w, s, d)
  {
    hide Lookup, DestroyInv;
    assert forall v :: ValidVa(v) ==> (Before(v, c) <==> Before(v, d));
    DestroySkipTo(w0, w, s, c, d);
  }

  lemma DestroySkip(w0: World, w: World, s: nat, v: Va)
    requires DestroyInv(w0, w, s, v) && ValidVa(v)
    requires !(Lookup(w0.mem, s, v).Some? && OwnedPage(w0, Lookup(w0.mem, s, v).value))
    ensures DestroyInv(w0, w, s, After(v))
  {
    hide Lookup, DestroyInv, Before;
    forall u ensures Before(u, After(v)) <==> Before(u, v) || u == v { BeforeAfter(u, v); }
    DestroySkipTo(w0, w, s, v, After(v));
  }

  lemma DestroyAbsent(w0: World, w: World, s: nat, f: nat, slot: Slot, i: nat, c: Va, d: Va)
    requires DestroyInv(w0, w, s, c) && Visits(w0, s, f, slot) && !slot.Pt? && !Present(At(w0.mem, f, i))
    requires match slot
             case Root => c == Va(i, 0, 0, 0) && d == Va(i + 1, 0, 0, 0)
             case Pdpt(x) => c == Va(x, i, 0, 0) && d == Va(x, i + 1, 0, 0)
             case Pd(x, y) => c == Va(x, y, i, 0) && d == Va(x, y, i + 1, 0)
    ensures DestroyInv(w0, w, s, d)
  {
    hide Lookup, DestroyInv, Visits;
    assert forall v :: ValidVa(v) && Before(v, c) ==> Before(v, d);
    forall v | ValidVa(v) && Before(v, d) && !Before(v, c) ensures !Gone(w0, s, v, s, d) {
      assert slot.On(v) && slot.Index(v) == i;
      VisitsAbsent(w0, s, f, slot, v);
    }
    DestroySkipTo(w0, w, s, c, d);
  }

  method DestroyPt(m: Machine, s: nat, a: nat, b: nat, c: nat, pt: nat, ghost w0: World)
    requires m.pmm.Valid() && DestroyInv(w0, m.W(), s, Va(a, b, c, 0))
    requires ValidVa(Va(a, b, c, 0)) && Visits(w0, s, pt, Pt(a, b, c))
    modifies m, m.pmm, m.pmm.bitmap
    ensures m.Valid() && DestroyInv(w0, m.W(), s, Va(a, b, c + 1, 0))
  {
    hide Lookup, Walk, World.OwnPath, World.Tables, World.Trees, World.LeafEntries, World.Leaves, World.Reachable,
         World.Shares, Allocator.Valid, Before, TornDown;
    for i := 0 to ENTRIES
      invariant m.pmm.Valid() && DestroyInv(w0, m.W(), s, Va(a, b, c, i))
    {
      ghost var v := Va(a, b, c, i);
      PendingEntry(w0, m.W(), s, pt, Pt(a, b, c), i, v);
      VisitsLeaf(w0, s, pt, Pt(a, b, c), v);
      SameRoles(w0, m.W(), s, v);
      assert After(v) == Va(a, b, c, i + 1);
      var pte := m.mem[pt][i];
      if Present(pte) && User(pte) && !m.IsFb(pte.frame) {
        FreeUserPage(m, s, Va(a, b, c, i), pt, pte, w0);
      } else {
        DestroySkip(w0, m.W(), s, v);
      }
    }
    DestroyCarry(w0, m.W(), s, Va(a, b, c, ENTRIES), Va(a, b, c + 1, 0));
  }

  method DestroyPd(m: Machine, s: nat, a: nat, b: nat, pd: nat, ghost w0: World)
    requires m.pmm.Valid() && DestroyInv(w0, m.W(), s, Va(a, b, 0, 0))
    requires ValidVa(Va(a, b, 0, 0)) && Visits(w0, s, pd, Pd(a, b))
    modifies m, m.pmm, m.pmm.bitmap
    ensures m.Valid() && DestroyInv(w0, m.W(), s, Va(a, b + 1, 0, 0))
  {
    hide Lookup, Walk, World.OwnPath, World.Tables, World.Trees, World.LeafEntries, World.Leaves, World.Reachable,
         World.Shares, Allocator.Valid, Before, TornDown;
    for i := 0 to ENTRIES
      invariant m.pmm.Valid() && DestroyInv(w0, m.W(), s, Va(a, b, i, 0))
    {
      PendingEntry(w0, m.W(), s, pd, Pd(a, b), i, Va(a, b, i, 0));
      var pde := m.mem[pd][i];
      if !Present(pde) {
        DestroyAbsent(w0, m.W(), s, pd, Pd(a, b), i, Va(a, b, i, 0), Va(a, b, i + 1, 0));
      } else {
        VisitsChild(w0, s, pd, Pd(a, b), i);
        DestroyPt(m, s, a, b, i, pde.frame, w0);
      }
    }
    DestroyCarry(w0, m.W(), s, Va(a, b, ENTRIES, 0), Va(a, b + 1, 0, 0));
  }

  method DestroyPdpt(m: Machine, s: nat, a: nat, pdpt: nat, ghost w0: World)
    requires m.pmm.Valid() && DestroyInv(w0, m.W(), s, Va(a, 0, 0, 0))
    requires ValidVa(Va(a, 0, 0, 0)) && Visits(w0, s, pdpt, Pdpt(a))
    modifies m, m.pmm, m.pmm.bitmap
    ensures m.Valid() && DestroyInv(w0, m.W(), s, Va(a + 1, 0, 0, 0))
  {
    hide Lookup, Walk, World.OwnPath, World.Tables, World.Trees, World.LeafEntries, World.Leaves, World.Reachable,
         World.Shares, Allocator.Valid, Before, TornDown;
    for i := 0 to ENTRIES
      invariant m.pmm.Valid() && DestroyInv(w0, m.W(), s, Va(a, i, 0, 0))
    {
      PendingEntry(w0, m.W(), s, pdpt, Pdpt(a), i, Va(a, i, 0, 0));
      var pdpte := m.mem[pdpt][i];
      if !Present(pdpte) {
        DestroyAbsent(w0, m.W(), s, pdpt, Pdpt(a), i, Va(a, i, 0, 0), Va(a, i + 1, 0, 0));
      } else {
        VisitsChild(w0, s, pdpt, Pdpt(a), i);
        DestroyPd(m, s, a, i, pdpte.frame, w0);
      }
    }
    DestroyCarry(w0, m.W(), s, Va(a, ENTRIES, 0, 0), Va(a + 1, 0, 0, 0));
  }

  function WithoutOwned(w0: World, e: Option<Word>): Option<Word> {
    if e.Some? && OwnedPage(w0, e.value) then None else e
  }

  /** Space `s` lost all its own pages and they are free; nothing else changed. */
  ghost predicate Destroyed(w0: World, w: World, s: nat) {
    && w.role == w0.role
    && (forall f :: f in w.leaf <==> f in w0.leaf && w0.leaf[f].owner != s)
    && (forall f :: f in w.leaf && f in w0.leaf ==> w.leaf[f] == w0.leaf[f])
    && (forall f :: f in w.free <==> f in w0.free || (f in w0.leaf && w0.leaf[f].owner == s))
    && |w.mem| == |w0.mem|
    && (forall f :: 0 <= f < |w0.mem| && !(f in w0.role && w0.role[f].owner == s) ==> w.mem[f] == w0.mem[f])
    && (forall r, v :: w0.Space(r) && r != s && ValidVa(v) ==> Lookup(w.mem, r, v) == Lookup(w0.mem, r, v))
    && (forall v :: ValidVa(v) ==> Lookup(w.mem, s, v) == WithoutOwned(w0, Lookup(w0.mem, s, v)))
  }

  /** In terms of entries: afterwards no entry of the space has the user bit, except for framebuffer frames,
      and the frame of every entry that had it is free. */
  lemma DestroyMeans(w0: World, w: World, s: nat, v: Va)
    requires w0.Inv() && w0.Space(s) && Destroyed(w0, w, s) && ValidVa(v)
    ensures Lookup(w.mem, s, v).Some? && Lookup(w.mem, s, v).value.flags / 4 % 2 == 1 ==>
      w0.fbLo <= Lookup(w.mem, s, v).value.frame < w0.fbHi
    ensures Lookup(w0.mem, s, v).Some? ==>
      var e := Lookup(w0.mem, s, v).value;
      if e.flags / 4 % 2 == 1 && !(w0.fbLo <= e.frame < w0.fbHi)
      then Lookup(w.mem, s, v) == None && e.frame in w.free && e.frame !in w0.free
      else Lookup(w.mem, s, v) == Lookup(w0.mem, s, v)
  {
    hide Lookup, World.OwnPath, World.Tables, World.Trees, World.LeafEntries, World.Leaves, World.Reachable,
         World.Shares;
    if UserPage(Lookup(w0.mem, s, v)) { UserLeaf(w0, s, v); }
    PresentEntry(w0.mem, s, v);
  }

  lemma PresentEntry(mem: Memory, r: nat, v: Va)
    ensures Lookup(mem, r, v).Some? ==> Present(Lookup(mem, r, v).value)
  {
    PresentLeaf(mem, r, Root, v);
  }

  /** Frees every user page of `s` outside the framebuffer. */
  method DestroyUserPages(m: Machine, s: nat)
    requires m.Valid() && m.W().Space(s) && s != m.kernel
    modifies m, m.pmm, m.pmm.bitmap
    ensures m.Valid() && Destroyed(old(m.W()), m.W(), s)
  {
    hide Lookup, Walk, World.OwnPath, World.Tables, World.Trees, World.LeafEntries, World.Leaves, World.Reachable,
         World.Shares, Allocator.Valid, Before, TornDown;
    ghost var w0 := m.W();
    DestroyNot(w0, s);
    VisitsRoot(w0, s);
    for i := 0 to USER_HALF
      invariant m.pmm.Valid() && DestroyInv(w0, m.W(), s, Va(i, 0, 0, 0))
    {
      PendingEntry(w0, m.W(), s, s, Root, i, Va(i, 0, 0, 0));
      var pml4e := m.mem[s][i];
      if !Present(pml4e) {
        DestroyAbsent(w0, m.W(), s, s, Root, i, Va(i, 0, 0, 0), Va(i + 1, 0, 0, 0));
      } else {
        VisitsChild(w0, s, s, Root, i);
        DestroyPdpt(m, s, i, pml4e.frame, w0);
      }
    }
    DestroyAll(w0, m.W(), s);
  }

  lemma DestroyNot(w0: World, s: nat)
    requires w0.Inv() && w0.Space(s) && s != w0.kernel
    ensures DestroyInv(w0, w0, s, Va(0, 0, 0, 0))
  {
    hide Lookup, World.Inv;
  }

  lemma AllDoomed(w0: World, s: nat, f: nat)
    requires w0.Inv()
    ensures Doomed(w0, s, Va(USER_HALF, 0, 0, 0), f) <==> f in w0.leaf && w0.leaf[f].owner == s
  {
    hide Lookup, World.OwnPath, World.Tables, World.Trees, World.LeafEntries, World.Reachable, World.Shares;
    if f in w0.leaf {
      assert w0.Mapped(f);
      UserLeaf(w0, w0.leaf[f].owner, w0.leaf[f].va);
    }
  }

  /** Every own page lies in the lower half. */
  lemma DestroyAll(w0: World, w: World, s: nat)
    requires DestroyInv(w0, w, s, Va(USER_HALF, 0, 0, 0))
    ensures Destroyed(w0, w, s)
  {
    hide Lookup, World.OwnPath, World.Tables, World.Trees, World.LeafEntries, World.Reachable, World.Shares;
    var c := Va(USER_HALF, 0, 0, 0);
    forall f ensures Doomed(w0, s, c, f) <==> f in w0.leaf && w0.leaf[f].owner == s {
      AllDoomed(w0, s, f);
    }
    hide Doomed;
    forall v | ValidVa(v) && Lookup(w0.mem, s, v).Some? && OwnedPage(w0, Lookup(w0.mem, s, v).value)
      ensures Gone(w0, s, v, s, c)
    {
      UserLeaf(w0, s, v);
    }
  }

  // ---------------------------------------------------------------- conservation

  /** A child that is created, filled and torn down again. */
  ghost predicate ForkDone(w0: World, w: World) {
    && (forall f :: f in w0.role ==> f in w.role && w.role[f] == w0.role[f])
    && w.leaf == w0.leaf
    && w.free == w0.free - (w.role.Keys - w0.role.Keys) && w.role.Keys - w0.role.Keys <= w0.free
    && |w.free| == |w0.free| - |w.role.Keys - w0.role.Keys|
    && |w.mem| == |w0.mem| && (forall f :: 0 <= f < |w0.mem| && f !in w0.free ==> w.mem[f] == w0.mem[f])
    && SameLookups(w0, w)
  }

  lemma ForkReady(w0: World, w1: World, src: nat, dst: nat)
    requires w0.Inv() && w1.Inv() && w0.Space(src) && Created(w0, w1, dst)
    ensures CanClone(w1, src, dst)
  {
    hide Lookup, World.OwnPath, World.Inv, KernelSlot;
    assert w1.Space(src);
    forall v | ValidVa(v) && v.i4 < USER_HALF && UserPage(Lookup(w1.mem, src, v))
      ensures w1.OwnPath(dst, v) || Inherits(w1, src, dst, v)
    {
      if KernelSlot(w0, v) {
        SharedSlot(w0, src, v);
        KernelUserIsFb(w0, v);
        FirstSlot(w0, v);
      }
    }
  }

  lemma FirstSlot(w: World, v: Va)
    requires KernelSlot(w, v)
    ensures v.i4 == 0
  {
  }

  lemma ForkBalance(w0: World, w1: World, w2: World, w3: World, dst: nat)
    requires w0.Inv() && w1.Inv() && w2.Inv() && Created(w0, w1, dst) && Evolves(w1, w2, dst, {})
    requires Destroyed(w2, w3, dst)
    ensures w3.free == w0.free - (w3.role.Keys - w0.role.Keys) && w3.role.Keys - w0.role.Keys <= w0.free
    ensures w3.leaf == w0.leaf
  {
    hide Lookup, World.Inv, Created, Evolves, Destroyed;
    forall f
      ensures f in w3.free <==> f in w0.free && f !in w3.role
      ensures f in w3.role && f !in w0.role ==> f in w0.free
      ensures f in w0.free ==> f !in w0.role
      ensures f in w3.leaf <==> f in w0.leaf
      ensures f in w0.leaf ==> f in w3.leaf && w3.leaf[f] == w0.leaf[f]
    {
      ForkFrame(w0, w1, w2, w3, dst, f);
    }
  }

  lemma ForkFrame(w0: World, w1: World, w2: World, w3: World, dst: nat, f: nat)
    requires w0.Inv() && w1.Inv() && w2.Inv() && Created(w0, w1, dst) && Evolves(w1, w2, dst, {})
    requires Destroyed(w2, w3, dst)
    ensures f in w3.free <==> f in w0.free && f !in w3.role
    ensures f in w3.role && f !in w0.role ==> f in w0.free
    ensures f in w0.free ==> f !in w0.role
    ensures f in w3.leaf <==> f in w0.leaf
    ensures f in w0.leaf ==> f in w3.leaf && w3.leaf[f] == w0.leaf[f]
  {
    hide World.Inv, Created, Evolves, Destroyed;
    CreatedFrame(w0, w1, dst, f);
    EvolvedFrame(w1, w2, dst, f);
    DestroyedFrame(w2, w3, dst, f);
  }

  lemma CreatedFrame(w: World, w': World, r: nat, f: nat)
    requires w.Inv() && Created(w, w', r)
    ensures f in w.role ==> f in w'.role && f !in w.free
    ensures f in w'.role && f !in w.role ==> f in w.free
    ensures f in w'.free <==> f in w.free && f !in w'.role
    ensures w'.leaf == w.leaf && (f in w.leaf ==> w.leaf[f].owner != r && f !in w.free)
  {
    hide Lookup, World.OwnPath, World.Tables, World.Trees, World.LeafEntries, World.Reachable, World.Shares,
         CreatedView;
    if f in w.leaf { assert w.Mapped(f); }
    if f in w'.role && f !in w.role { assert f in w'.role.Keys - w.role.Keys; }
  }

  lemma EvolvedFrame(w: World, w': World, s: nat, f: nat)
    requires w.Inv() && Evolves(w, w', s, {})
    ensures f in w.role ==> f in w'.role
    ensures f in w'.role && f !in w.role ==> f in w.free
    ensures f in w'.free <==> f in w.free && f !in w'.role && f !in w'.leaf
    ensures f in w.leaf ==> f in w'.leaf && w'.leaf[f] == w.leaf[f]
    ensures f in w'.leaf && f !in w.leaf ==> f in w.free && w'.leaf[f].owner == s
    ensures f in w'.leaf && f in w'.role ==> f in w.free || f in w.leaf
  {
    hide Lookup, World.OwnPath, World.Inv;
  }

  lemma DestroyedFrame(w: World, w': World, s: nat, f: nat)
    requires w.Inv() && Destroyed(w, w', s)
    ensures f in w'.role <==> f in w.role
    ensures f in w'.leaf <==> f in w.leaf && w.leaf[f].owner != s
    ensures f in w'.leaf ==> w'.leaf[f] == w.leaf[f]
    ensures f in w'.free <==> f in w.free || (f in w.leaf && w.leaf[f].owner == s)
    ensures f in w.leaf ==> f !in w.role
  {
    hide Lookup, World.OwnPath, World.Tables, World.Trees, World.LeafEntries, World.Reachable, World.Shares,
         World.Leaves;
  }

  lemma ForkIntact(w0: World, w1: World, w2: World, w3: World, dst: nat)
    requires w0.Inv() && Created(w0, w1, dst) && Evolves(w1, w2, dst, {}) && Destroyed(w2, w3, dst)
    ensures forall f :: f in w0.role ==> f in w3.role && w3.role[f] == w0.role[f]
    ensures |w3.mem| == |w0.mem| && forall f :: 0 <= f < |w0.mem| && f !in w0.free ==> w3.mem[f] == w0.mem[f]
    ensures SameLookups(w0, w3)
  {
    hide Lookup, World.OwnPath, World.Tables, World.Trees, World.LeafEntries, World.Reachable, World.Shares,
         World.Leaves, OwnPathsKept, Untouched;
    assert forall r :: w0.Space(r) ==> r != dst && w1.Space(r) && w2.Space(r);
    assert |w3.mem| == |w0.mem| by { assert Untouched(w1, w2, dst); UntouchedSize(w1, w2, dst); }
    forall f | 0 <= f < |w0.mem| && f !in w0.free ensures w3.mem[f] == w0.mem[f] {
      ForkBytes(w0, w1, w2, w3, dst, f);
    }
  }

  lemma UntouchedSize(w: World, w': World, s: nat)
    requires Untouched(w, w', s)
    ensures |w'.mem| == |w.mem|
  {
  }

  lemma ForkBytes(w0: World, w1: World, w2: World, w3: World, dst: nat, f: nat)
    requires w0.Inv() && Created(w0, w1, dst) && Evolves(w1, w2, dst, {}) && Destroyed(w2, w3, dst) && f < |w0.mem|
    requires f !in w0.free
    ensures f < |w3.mem| && w3.mem[f] == w0.mem[f]
  {
    hide Lookup, World.OwnPath, World.Tables, World.Trees, World.LeafEntries, World.Reachable, World.Shares,
         World.Leaves, OwnPathsKept, CreatedView;
    assert f !in w1.free;
    if f in w1.role { assert f in w0.role && w0.Space(w0.role[f].owner); }
    assert w2.mem[f] == w1.mem[f];
    if f in w2.role { assert f in w1.role; }
  }

  lemma Difference(a: set<nat>, b: set<nat>)
    requires b <= a
    ensures |a - b| == |a| - |b|
  {
    assert a == (a - b) + b;
  }

  /** Fork followed by exit: whatever the copy achieved, afterwards exactly the table frames of the
      child are missing from the free pages, and every other space is as before. The copy is complete
      if there are two free frames for the new space and four for each user page. */
  method ForkAndExit(m: Machine, src: nat) returns (child: nat, ok: bool)
    requires m.Valid() && m.W().Space(src)
    modifies m, m.pmm, m.pmm.bitmap
    ensures m.Valid()
    ensures child == 0 ==> Unchanged(old(m.W()), m.W())
    ensures child != 0 ==>
      ForkDone(old(m.W()), m.W()) && m.pmm.freePages == old(m.pmm.freePages) - |m.role.Keys - old(m.role.Keys)|
    ensures |Below(old(m.pmm.free))| >= 2 + 4 * |UserPages(old(m.W()), src)| ==> child != 0 && ok
  {
    hide Lookup, World.Inv, KernelSlot, Created, Evolves, Destroyed, CanClone, Allocator.Valid, Below, UserPages;
    m.FreeCount();
    ok := false;
    ghost var w0 := m.W();
    child := m.CreateSpace();
    if child == 0 { return; }
    ghost var w1 := m.W();
    ForkReady(w0, w1, src, child);
    SameUserPages(w0, w1, src, child);
    ok := CloneUserPages(m, child, src);
    ghost var w2 := m.W();
    ChildSpace(w0, w1, w2, child);
    DestroyUserPages(m, child);
    ForkBalance(w0, w1, w2, m.W(), child);
    ForkIntact(w0, w1, w2, m.W(), child);
    Difference(w0.free, m.role.Keys - w0.role.Keys);
    m.FreeCount();
  }

  lemma SameUserPages(w: World, w': World, src: nat, r: nat)
    requires w.Space(src) && Created(w, w', r)
    ensures UserPages(w', src) == UserPages(w, src)
  {
    hide Lookup, World.OwnPath;
    forall a: nat, b: nat, c: nat, d: nat | a < USER_HALF && b < ENTRIES && c < ENTRIES && d < ENTRIES
      ensures Lookup(w'.mem, src, Va(a, b, c, d)) == Lookup(w.mem, src, Va(a, b, c, d))
    {
      assert ValidVa(Va(a, b, c, d));
    }
  }

  lemma ChildSpace(w0: World, w1: World, w2: World, r: nat)
    requires Created(w0, w1, r) && Evolves(w1, w2, r, {})
    ensures w2.Space(r) && r != w2.kernel
  {
  }
}

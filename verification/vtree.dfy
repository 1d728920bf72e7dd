/** The VFS tree as a value: nodes linked to their parents, children in lists, and the resolution of
    a path. */
module Vtree {
  import opened Common

  const SEP: char := '/'
  const PART: nat := 127   // a longer component is cut

  /** `children` is the first child, `next` the next sibling; 0 is no node. */
  datatype Node = Node(name: string, directory: bool, parent: nat, children: nat, next: nat)

  /** The nodes; `kids` lists the children of each and `depth` is the distance from the root. */
  datatype Tree = Tree(nodes: map<nat, Node>, root: nat, kids: map<nat, seq<nat>>, depth: map<nat, nat>)

  /** A name that a path component can be. */
  predicate GoodName(s: string) {
    1 <= |s| <= PART && SEP !in s && s != "." && s != ".."
  }

  function LinkAt(list: seq<nat>, k: nat): nat {
    if k < |list| then list[k] else 0
  }

  /** The children of `d` are linked in list order, from its first child on. */
  ghost predicate Chained(nodes: map<nat, Node>, d: nat, list: seq<nat>) {
    && d in nodes && nodes[d].children == LinkAt(list, 0)
    && (forall k :: 0 <= k < |list| ==> list[k] != 0 && list[k] in nodes && nodes[list[k]].next == LinkAt(list, k + 1))
    && (forall k :: 0 <= k < |list| ==> nodes[list[k]].parent == d)
    && Distinct(list)
  }

  /** Siblings have different names. */
  ghost predicate Named(nodes: map<nat, Node>, list: seq<nat>) {
    && (forall k :: 0 <= k < |list| ==> list[k] in nodes)
    && (forall i, j :: 0 <= i < j < |list| ==> nodes[list[i]].name != nodes[list[j]].name)
  }

  /** Every node but the root is a child of its parent, one level below it. */
  ghost predicate Hung(t: Tree, n: nat) {
    && n in t.nodes && n in t.depth
    && var p := t.nodes[n].parent;
       if n == t.root then p == 0
       else p in t.nodes && p in t.kids && p in t.depth && n in t.kids[p] && t.depth[n] == t.depth[p] + 1
  }

  /** The nodes form a tree in which siblings have different names. */
  ghost predicate Shape(t: Tree) {
    && t.root in t.nodes && 0 !in t.nodes && t.kids.Keys == t.nodes.Keys && t.depth.Keys == t.nodes.Keys
    && (forall d :: d in t.nodes ==> Chained(t.nodes, d, t.kids[d]))
    && (forall d :: d in t.nodes ==> Named(t.nodes, t.kids[d]))
    && (forall n :: n in t.nodes ==> Hung(t, n))
  }

  /** Every name but the root's can be a path component. */
  ghost predicate Tidy(t: Tree) {
    forall n :: n in t.nodes && n != t.root ==> GoodName(t.nodes[n].name)
  }

  ghost predicate Inv(t: Tree) {
    Shape(t) && Tidy(t)
  }

  // ---------------------------------------------------------------- paths

  function Cut(s: string): (r: string)
    ensures r <= s && |r| == if |s| < PART then |s| else PART
    ensures |s| <= PART ==> r == s
  {
    if |s| <= PART then s else s[..PART]
  }

  /** The first of the listed nodes with that name, or 0. */
  function Child(nodes: map<nat, Node>, list: seq<nat>, name: string): (c: nat)
    requires forall k :: 0 <= k < |list| ==> list[k] != 0 && list[k] in nodes
    ensures c != 0 ==> c in list && nodes[c].name == name
    ensures c == 0 ==> forall k :: 0 <= k < |list| ==> nodes[list[k]].name != name
  {
    if list == [] then 0
    else if nodes[list[0]].name == name then list[0]
    else Child(nodes, list[1..], name)
  }

  /** One component: empty and `.` stay, `..` goes up, a name goes down. */
  function Enter(t: Tree, n: nat, part: string): (r: Option<nat>)
    requires Shape(t) && n in t.nodes
    ensures r.Some? ==> r.value in t.nodes
  {
    if part == "" || part == "." then Some(n)
    else if part == ".." then
      assert Hung(t, n);
      Some(if t.nodes[n].parent != 0 then t.nodes[n].parent else n)
    else
      assert Chained(t.nodes, n, t.kids[n]);
      var c := Child(t.nodes, t.kids[n], Cut(part));
      if c == 0 then None else Some(c)
  }

  /** The node that `rest` leads to from `n`, where `part` is the component read so far. */
  function Resolve(t: Tree, n: nat, part: string, rest: string): (r: Option<nat>)
    requires Shape(t) && n in t.nodes
    ensures r.Some? ==> r.value in t.nodes
    decreases |rest|
  {
    if rest == "" then Enter(t, n, part)
    else if rest[0] == SEP then
      match Enter(t, n, part)
      case None => None
      case Some(m) => Resolve(t, m, "", rest[1..])
    else Resolve(t, n, part + [rest[0]], rest[1..])
  }

  /** A path splits at every separator. */
  lemma {:induction false} ResolveSplit(t: Tree, n: nat, part: string, s: string, u: string)
    requires Shape(t) && n in t.nodes
    ensures Resolve(t, n, part, s + [SEP] + u) ==
      match Resolve(t, n, part, s) { case None => None case Some(m) => Resolve(t, m, "", u) }
    decreases |s|
  {
    hide Shape, Enter;
    var whole := s + [SEP] + u;
    if s == "" {
      assert whole[0] == SEP && whole[1..] == u;
    } else {
      assert whole[0] == s[0] && whole[1..] == s[1..] + [SEP] + u;
      if s[0] == SEP {
        EnterInside(t, n, part);
        var e := Enter(t, n, part);
        if e.Some? { ResolveSplit(t, e.value, "", s[1..], u); }
      } else {
        ResolveSplit(t, n, part + [s[0]], s[1..], u);
      }
    }
  }

  /** One component, read as a user means it: nothing and `.` stay, `..` is the parent and at the root
      stays, and any other name is the child that has it. */
  lemma EnterMeans(t: Tree, n: nat, c: nat)
    requires Shape(t) && n in t.nodes
    ensures Enter(t, n, "") == Some(n) && Enter(t, n, ".") == Some(n)
    ensures n == t.root ==> Enter(t, n, "..") == Some(n)
    ensures n != t.root ==> t.nodes[n].parent in t.nodes && Enter(t, n, "..") == Some(t.nodes[n].parent)
    ensures c in t.nodes && c != t.root && t.nodes[c].parent == n && GoodName(t.nodes[c].name) ==>
      Enter(t, n, t.nodes[c].name) == Some(c)
  {
    hide Named, Chained, GoodName;
    HungOf(t, n);
    NoneZero(t);
    if c in t.nodes && c != t.root && t.nodes[c].parent == n && GoodName(t.nodes[c].name) {
      NamedChild(t, c);
    }
  }

  lemma NoneZero(t: Tree)
    requires Shape(t)
    ensures 0 !in t.nodes
  {
  }

  /** The way up: the path of a node followed by `/..` leads to its parent, at the root to the root. */
  lemma PathUp(t: Tree, n: nat)
    requires Inv(t) && n in t.nodes
    ensures PathText(t, n)[0] == SEP
    ensures Resolve(t, t.root, "", PathText(t, n)[1..] + "/..") ==
      Some(if n == t.root then n else t.nodes[n].parent)
  {
    hide Shape, Tidy, Enter, Resolve;
    RootIn(t);
    FindInvertsPath(t, n);
    var x := PathText(t, n)[1..];
    ResolveSplit(t, t.root, "", x, "..");
    assert x + [SEP] + ".." == x + "/..";
    ResolveName(t, n, "", "..");
    assert "" + ".." == "..";
    EnterMeans(t, n, n);
  }

  lemma EnterInside(t: Tree, n: nat, part: string)
    requires Shape(t) && n in t.nodes
    ensures Enter(t, n, part).Some? ==> Enter(t, n, part).value in t.nodes
  {
  }

  lemma {:induction false} ResolveName(t: Tree, n: nat, part: string, s: string)
    requires Shape(t) && n in t.nodes && SEP !in s
    ensures Resolve(t, n, part, s) == Enter(t, n, part + s)
    decreases |s|
  {
    hide Shape, Enter;
    if s != "" {
      assert s == [s[0]] + s[1..];
      assert part + s == part + [s[0]] + s[1..];
      ResolveName(t, n, part + [s[0]], s[1..]);
    } else {
      assert part + s == part;
    }
  }

  /** The path of a node below the root; the root's is empty. */
  function PathOf(t: Tree, n: nat): string
    requires Shape(t) && n in t.nodes
    decreases t.depth[n]
  {
    if n == t.root then "" else
      assert Hung(t, n);
      PathOf(t, t.nodes[n].parent) + [SEP] + t.nodes[n].name
  }

  function PathText(t: Tree, n: nat): string
    requires Shape(t) && n in t.nodes
  {
    if n == t.root then [SEP] else PathOf(t, n)
  }

  /** Siblings have different names, so a child's name finds the child. */
  lemma {:induction false} ChildFound(nodes: map<nat, Node>, list: seq<nat>, k: nat)
    requires Named(nodes, list) && k < |list| && forall i :: 0 <= i < |list| ==> list[i] != 0
    ensures Child(nodes, list, nodes[list[k]].name) == list[k]
  {
    if k > 0 {
      assert nodes[list[0]].name != nodes[list[k]].name;
      ChildFound(nodes, list[1..], k - 1);
    }
  }

  lemma EnterChild(t: Tree, n: nat)
    requires Inv(t) && n in t.nodes && n != t.root
    ensures t.nodes[n].parent in t.nodes && Enter(t, t.nodes[n].parent, t.nodes[n].name) == Some(n)
    ensures SEP !in t.nodes[n].name
  {
    hide Named, Hung, Shape;
    NamedChild(t, n);
  }

  lemma NamedChild(t: Tree, n: nat)
    requires Shape(t) && n in t.nodes && n != t.root && GoodName(t.nodes[n].name)
    ensures t.nodes[n].parent in t.nodes && Enter(t, t.nodes[n].parent, t.nodes[n].name) == Some(n)
  {
    hide Named, Hung;
    ParentOf(t, n);
    var p := t.nodes[n].parent;
    assert Chained(t.nodes, p, t.kids[p]);
    NamedOf(t, p);
    var k :| 0 <= k < |t.kids[p]| && t.kids[p][k] == n;
    ChildFound(t.nodes, t.kids[p], k);
  }

  lemma ParentOf(t: Tree, n: nat)
    requires Shape(t) && n in t.nodes
    ensures n != t.root ==> var p := t.nodes[n].parent; p in t.nodes && n in t.kids[p] && t.depth[n] == t.depth[p] + 1
    ensures n == t.root ==> t.nodes[n].parent == 0
  {
    assert Hung(t, n);
  }

  lemma HungOf(t: Tree, n: nat)
    requires Shape(t) && n in t.nodes
    ensures Hung(t, n) && n in t.kids && t.kids.Keys == t.nodes.Keys && t.depth.Keys == t.nodes.Keys
  {
  }

  lemma NamedOf(t: Tree, p: nat)
    requires Shape(t) && p in t.nodes
    ensures Named(t.nodes, t.kids[p])
  {
  }

  /** Find inverts get_path. */
  lemma {:induction false} FindInvertsPath(t: Tree, n: nat)
    requires Inv(t) && n in t.nodes
    ensures PathText(t, n)[0] == SEP
    ensures Resolve(t, t.root, "", PathText(t, n)[1..]) == Some(n)
    decreases t.depth[n]
  {
    hide Enter, Resolve, Shape, Hung, Tidy;
    HungOf(t, n);
    ParentOf(t, n);
    RootIn(t);
    if n == t.root {
      ResolveName(t, n, "", "");
      RootStays(t, n);
      assert PathText(t, n)[1..] == "";
    } else {
      var p, name := t.nodes[n].parent, t.nodes[n].name;
      FindInvertsPath(t, p);
      EnterChild(t, n);
      ResolveName(t, p, "", name);
      assert "" + name == name;
      if p == t.root {
        assert PathOf(t, p) == "";
        assert PathOf(t, n) == "" + [SEP] + name;
        assert PathText(t, n)[1..] == name;
      } else {
        var s := PathText(t, p)[1..];
        ResolveSplit(t, t.root, "", s, name);
        assert PathText(t, n)[1..] == s + [SEP] + name;
      }
    }
  }

  lemma RootIn(t: Tree)
    requires Shape(t)
    ensures t.root in t.nodes
  {
  }

  lemma RootStays(t: Tree, n: nat)
    requires Shape(t) && n in t.nodes
    ensures "" + "" == "" && Enter(t, n, "") == Some(n)
  {
  }

  // ---------------------------------------------------------------- growing

  /** A new node `c` in front of the children of `p`. */
  function AddNode(t: Tree, c: nat, name: string, directory: bool, p: nat): Tree
    requires p in t.nodes && p in t.kids && p in t.depth
  {
    Tree(t.nodes[c := Node(name, directory, p, 0, t.nodes[p].children)][p := t.nodes[p].(children := c)],
         t.root, t.kids[c := []][p := [c] + t.kids[p]], t.depth[c := t.depth[p] + 1])
  }

  ghost predicate CanAdd(t: Tree, c: nat, p: nat) {
    Shape(t) && c !in t.nodes && c != 0 && p in t.nodes
  }

  lemma KidsKnown(t: Tree, d: nat)
    requires Shape(t) && d in t.nodes
    ensures Chained(t.nodes, d, t.kids[d])
    ensures forall k :: 0 <= k < |t.kids[d]| ==>
      t.kids[d][k] != 0 && t.kids[d][k] in t.nodes && t.nodes[t.kids[d][k]].parent == d
    ensures forall x :: x in t.kids[d] ==> x in t.nodes && x != 0 && t.nodes[x].parent == d
  {
    assert Chained(t.nodes, d, t.kids[d]);
  }

  /** `nodes'` has the same links as `nodes` for the children of `d`. */
  ghost predicate SameLinks(nodes: map<nat, Node>, nodes': map<nat, Node>, list: seq<nat>) {
    && (forall x :: x in list ==> x in nodes && x in nodes' && nodes'[x].name == nodes[x].name)
    && (forall x :: x in list ==> nodes'[x].next == nodes[x].next && nodes'[x].parent == nodes[x].parent)
  }

  lemma ChainedFrame(nodes: map<nat, Node>, nodes': map<nat, Node>, d: nat, list: seq<nat>)
    requires Chained(nodes, d, list) && SameLinks(nodes, nodes', list) && d in nodes'
    requires nodes'[d].children == nodes[d].children
    ensures Chained(nodes', d, list)
  {
  }

  lemma ChainedFront(nodes: map<nat, Node>, nodes': map<nat, Node>, p: nat, c: nat, list: seq<nat>)
    requires Chained(nodes, p, list) && SameLinks(nodes, nodes', list) && c !in list && c != 0
    requires c in nodes' && nodes'[c].parent == p && nodes'[c].next == LinkAt(list, 0) && p in nodes'
    requires nodes'[p].children == c
    ensures Chained(nodes', p, [c] + list)
  {
    hide Distinct;
    var list' := [c] + list;
    DistinctFront(list, c);
    forall k | 0 <= k < |list'|
      ensures list'[k] != 0 && list'[k] in nodes' && nodes'[list'[k]].next == LinkAt(list', k + 1)
      ensures nodes'[list'[k]].parent == p
    {
      LinkFront(list, c, k);
      if k > 0 { LinkOfChild(nodes, p, list, k - 1); }
    }
  }

  lemma DistinctFront(list: seq<nat>, c: nat)
    requires Distinct(list) && c !in list
    ensures Distinct([c] + list)
  {
    var list' := [c] + list;
    forall i, j | 0 <= i < j < |list'| ensures list'[i] != list'[j] {
      assert list'[j] == list[j - 1] && list[j - 1] in list;
    }
  }

  lemma LinkFront(list: seq<nat>, c: nat, k: nat)
    requires k <= |list|
    ensures ([c] + list)[k] == (if k == 0 then c else list[k - 1]) && LinkAt([c] + list, k + 1) == LinkAt(list, k)
  {
  }

  lemma LinkOfChild(nodes: map<nat, Node>, p: nat, list: seq<nat>, k: nat)
    requires Chained(nodes, p, list) && k < |list|
    ensures list[k] in list && list[k] != 0 && list[k] in nodes && nodes[list[k]].next == LinkAt(list, k + 1)
    ensures nodes[list[k]].parent == p
  {
    hide Distinct;
  }

  lemma NamedFrame(nodes: map<nat, Node>, nodes': map<nat, Node>, list: seq<nat>)
    requires Named(nodes, list) && SameLinks(nodes, nodes', list)
    ensures Named(nodes', list)
  {
    hide GoodName;
    forall k | 0 <= k < |list|
      ensures list[k] in nodes' && nodes'[list[k]].name == nodes[list[k]].name
    {
      assert list[k] in list;
    }
  }

  lemma NamedFront(nodes: map<nat, Node>, nodes': map<nat, Node>, c: nat, list: seq<nat>)
    requires Named(nodes, list) && SameLinks(nodes, nodes', list) && c in nodes'
    requires forall k :: 0 <= k < |list| ==> list[k] != 0
    ensures Named(nodes', [c] + list) <==> Child(nodes, list, nodes'[c].name) == 0
  {
    hide GoodName;
    NamedFrame(nodes, nodes', list);
    var list', name := [c] + list, nodes'[c].name;
    assert list'[0] == c && forall k :: 1 <= k < |list'| ==> list'[k] == list[k - 1];
    var x := Child(nodes, list, name);
    if x != 0 {
      var k :| 0 <= k < |list| && list[k] == x;
      assert list'[k + 1] == x && nodes'[list'[0]].name == nodes'[list'[k + 1]].name;
    }
  }

  /** The children of other nodes are not touched by an addition. */
  lemma AddSameLinks(t: Tree, c: nat, name: string, directory: bool, p: nat, d: nat)
    requires CanAdd(t, c, p) && d in t.nodes
    ensures SameLinks(t.nodes, AddNode(t, c, name, directory, p).nodes, t.kids[d]) && c !in t.kids[d]
  {
    hide Chained, Named, Hung;
    KidsKnown(t, d);
  }

  lemma NoKids(nodes: map<nat, Node>, d: nat)
    requires d in nodes && nodes[d].children == 0
    ensures Chained(nodes, d, [])
  {
  }

  lemma LinksOfFirst(t: Tree, p: nat)
    requires Shape(t) && p in t.nodes
    ensures p in t.kids && t.nodes[p].children == LinkAt(t.kids[p], 0)
  {
    hide Named, Hung;
    assert Chained(t.nodes, p, t.kids[p]);
  }

  lemma AddChained(t: Tree, c: nat, name: string, directory: bool, p: nat, d: nat)
    requires CanAdd(t, c, p) && d in AddNode(t, c, name, directory, p).nodes
    ensures var t' := AddNode(t, c, name, directory, p); Chained(t'.nodes, d, t'.kids[d])
  {
    hide Hung, Named, SameLinks, Shape, Chained, Distinct;
    HungOf(t, p);
    LinksOfFirst(t, p);
    var t' := AddNode(t, c, name, directory, p);
    if d == c {
      NoKids(t'.nodes, c);
    } else {
      KidsKnown(t, d);
      AddSameLinks(t, c, name, directory, p, d);
      if d == p {
        ChainedFront(t.nodes, t'.nodes, p, c, t.kids[p]);
      } else {
        ChainedFrame(t.nodes, t'.nodes, d, t.kids[d]);
      }
    }
  }

  /** No node is its own child. */
  lemma NotOwnChild(t: Tree, p: nat, k: nat)
    requires Shape(t) && p in t.nodes && k < |t.kids[p]|
    ensures t.kids[p][k] != p
  {
    hide Named;
    KidsKnown(t, p);
    ParentOf(t, t.kids[p][k]);
  }

  lemma AddNamed(t: Tree, c: nat, name: string, directory: bool, p: nat, d: nat)
    requires CanAdd(t, c, p) && d in AddNode(t, c, name, directory, p).nodes
    ensures forall k :: 0 <= k < |t.kids[p]| ==> t.kids[p][k] != 0 && t.kids[p][k] in t.nodes
    ensures var t' := AddNode(t, c, name, directory, p);
      Named(t'.nodes, t'.kids[d]) <==> d != p || Child(t.nodes, t.kids[p], name) == 0
  {
    hide Hung, Chained, GoodName, Named, SameLinks, Child;
    var t' := AddNode(t, c, name, directory, p);
    KidsKnown(t, p);
    if d == c {
      NamedNone(t'.nodes);
    } else {
      NamedOf(t, d);
      AddSameLinks(t, c, name, directory, p, d);
      if d == p {
        NamedFront(t.nodes, t'.nodes, c, t.kids[p]);
      } else {
        NamedFrame(t.nodes, t'.nodes, t.kids[d]);
      }
    }
  }

  lemma NamedNone(nodes: map<nat, Node>)
    ensures Named(nodes, [])
  {
  }

  lemma AddHung(t: Tree, c: nat, name: string, directory: bool, p: nat, n: nat)
    requires CanAdd(t, c, p) && n in AddNode(t, c, name, directory, p).nodes
    ensures Hung(AddNode(t, c, name, directory, p), n)
  {
    hide Chained, Named;
    if n != c {
      assert Hung(t, n);
      if n != t.root && t.nodes[n].parent == p { assert n in [c] + t.kids[p]; }
    }
  }

  /** A new node keeps the shape exactly when its name is new among its siblings. */
  lemma AddShape(t: Tree, c: nat, name: string, directory: bool, p: nat)
    requires CanAdd(t, c, p)
    ensures forall k :: 0 <= k < |t.kids[p]| ==> t.kids[p][k] != 0 && t.kids[p][k] in t.nodes
    ensures Shape(AddNode(t, c, name, directory, p)) <==> Child(t.nodes, t.kids[p], name) == 0
  {
    hide Chained, Named, Hung, Child;
    var t' := AddNode(t, c, name, directory, p);
    KidsKnown(t, p);
    forall d | d in t'.nodes ensures Chained(t'.nodes, d, t'.kids[d]) && Hung(t', d) {
      AddChained(t, c, name, directory, p, d);
      AddHung(t, c, name, directory, p, d);
    }
    AddNamed(t, c, name, directory, p, p);
    if Child(t.nodes, t.kids[p], name) == 0 {
      forall d | d in t'.nodes ensures Named(t'.nodes, t'.kids[d]) {
        AddNamed(t, c, name, directory, p, d);
      }
    }
  }

  /** A new node keeps the invariant exactly when its name is good and new among its siblings. */
  lemma AddExact(t: Tree, c: nat, name: string, directory: bool, p: nat)
    requires CanAdd(t, c, p) && Tidy(t)
    ensures forall k :: 0 <= k < |t.kids[p]| ==> t.kids[p][k] != 0 && t.kids[p][k] in t.nodes
    ensures Inv(AddNode(t, c, name, directory, p)) <==> GoodName(name) && Child(t.nodes, t.kids[p], name) == 0
  {
    hide Shape, GoodName, Child;
    AddShape(t, c, name, directory, p);
    AddTidy(t, c, name, directory, p);
  }

  lemma AddTidy(t: Tree, c: nat, name: string, directory: bool, p: nat)
    requires CanAdd(t, c, p)
    ensures p in t.kids && p in t.depth && (Tidy(AddNode(t, c, name, directory, p)) <==> Tidy(t) && GoodName(name))
  {
    hide Chained, Named, Hung, GoodName;
    var t' := AddNode(t, c, name, directory, p);
    assert t'.nodes[c].name == name;
    assert forall n :: n in t.nodes ==> n in t'.nodes && t'.nodes[n].name == t.nodes[n].name;
  }

  /** The rest of the list and the names in it are as before. */
  lemma {:induction false} ChildSame(nodes: map<nat, Node>, nodes': map<nat, Node>, list: seq<nat>, name: string)
    requires forall k :: 0 <= k < |list| ==>
      list[k] != 0 && list[k] in nodes && list[k] in nodes' && nodes'[list[k]].name == nodes[list[k]].name
    ensures Child(nodes', list, name) == Child(nodes, list, name)
  {
    if list != [] { ChildSame(nodes, nodes', list[1..], name); }
  }

  /** What a component reached before, it reaches still. */
  lemma AddEnter(t: Tree, c: nat, name: string, directory: bool, p: nat, n: nat, part: string)
    requires CanAdd(t, c, p) && Shape(AddNode(t, c, name, directory, p)) && n in t.nodes && Enter(t, n, part).Some?
    ensures n in AddNode(t, c, name, directory, p).nodes
    ensures Enter(AddNode(t, c, name, directory, p), n, part) == Enter(t, n, part)
  {
    hide Named, Hung, GoodName, Chained, AddNode;
    AddShape(t, c, name, directory, p);
    AddParent(t, c, name, directory, p, n);
    if part != "" && part != "." && part != ".." {
      AddChild(t, c, name, directory, p, n, Cut(part));
    }
  }

  lemma AddParent(t: Tree, c: nat, name: string, directory: bool, p: nat, n: nat)
    requires CanAdd(t, c, p) && n in t.nodes
    ensures n in AddNode(t, c, name, directory, p).nodes
    ensures AddNode(t, c, name, directory, p).nodes[n].parent == t.nodes[n].parent
  {
    hide Chained, Named, Hung;
  }

  lemma AddChild(t: Tree, c: nat, name: string, directory: bool, p: nat, n: nat, x: string)
    requires CanAdd(t, c, p) && Shape(AddNode(t, c, name, directory, p)) && n in t.nodes
    ensures forall k :: 0 <= k < |t.kids[n]| ==> t.kids[n][k] != 0 && t.kids[n][k] in t.nodes
    ensures var t' := AddNode(t, c, name, directory, p);
      && n in t'.nodes && (forall k :: 0 <= k < |t'.kids[n]| ==> t'.kids[n][k] != 0 && t'.kids[n][k] in t'.nodes)
      && (Child(t.nodes, t.kids[n], x) != 0 ==> Child(t'.nodes, t'.kids[n], x) == Child(t.nodes, t.kids[n], x))
      && (n == p && x == name ==> Child(t'.nodes, t'.kids[n], x) == c)
  {
    hide Named, Hung, GoodName, Chained;
    var t' := AddNode(t, c, name, directory, p);
    KidsKnown(t, n);
    KidsKnown(t', n);
    AddShape(t, c, name, directory, p);
    AddSameLinks(t, c, name, directory, p, n);
    ChildSame(t.nodes, t'.nodes, t.kids[n], x);
    if n == p { assert t'.kids[p][0] == c && t'.kids[p][1..] == t.kids[p]; }
  }

  lemma {:induction false} AddResolves(t: Tree, c: nat, name: string, directory: bool, p: nat, n: nat, part: string,
                                       rest: string)
    requires CanAdd(t, c, p) && Shape(AddNode(t, c, name, directory, p)) && n in t.nodes
    requires Resolve(t, n, part, rest).Some?
    ensures n in AddNode(t, c, name, directory, p).nodes
    ensures Resolve(AddNode(t, c, name, directory, p), n, part, rest) == Resolve(t, n, part, rest)
    decreases |rest|
  {
    hide Shape, Enter;
    if rest == "" {
      AddEnter(t, c, name, directory, p, n, part);
    } else if rest[0] == SEP {
      AddEnter(t, c, name, directory, p, n, part);
      EnterInside(t, n, part);
      AddResolves(t, c, name, directory, p, Enter(t, n, part).value, "", rest[1..]);
    } else {
      AddResolves(t, c, name, directory, p, n, part + [rest[0]], rest[1..]);
    }
  }

  // ---------------------------------------------------------------- removing

  function Dropped(list: seq<nat>, k: nat): seq<nat>
    requires k < |list|
  {
    list[..k] + list[k + 1..]
  }

  /** The nodes after the link to `n`, the `k`-th child of `p`, was led past it. */
  function Unlinked(t: Tree, n: nat, p: nat, k: nat): map<nat, Node>
    requires n in t.nodes && p in t.nodes && p in t.kids && k < |t.kids[p]| && (k > 0 ==> t.kids[p][k - 1] in t.nodes)
  {
    if k == 0 then t.nodes[p := t.nodes[p].(children := t.nodes[n].next)]
    else t.nodes[t.kids[p][k - 1] := t.nodes[t.kids[p][k - 1]].(next := t.nodes[n].next)]
  }

  ghost predicate ChildAt(t: Tree, n: nat, p: nat, k: nat) {
    && Shape(t) && n in t.nodes && n != t.root && p in t.nodes && t.nodes[n].parent == p
    && k < |t.kids[p]| && t.kids[p][k] == n && (k > 0 ==> t.kids[p][k - 1] in t.nodes)
  }

  function RemoveNode(t: Tree, n: nat, p: nat, k: nat): Tree
    requires n in t.nodes && p in t.nodes && p in t.kids && k < |t.kids[p]| && (k > 0 ==> t.kids[p][k - 1] in t.nodes)
  {
    Tree(Unlinked(t, n, p, k) - {n}, t.root, t.kids[p := Dropped(t.kids[p], k)] - {n}, t.depth - {n})
  }

  lemma DroppedElements(list: seq<nat>, k: nat)
    requires Distinct(list) && k < |list|
    ensures Distinct(Dropped(list, k)) && forall x :: x in Dropped(list, k) <==> x in list && x != list[k]
  {
    var r := Dropped(list, k);
    forall j | 0 <= j < |r| ensures r[j] == list[if j < k then j else j + 1] && r[j] != list[k] {}
    forall x | x in list && x != list[k] ensures x in r {
      var i :| 0 <= i < |list| && list[i] == x;
      assert r[if i < k then i else i - 1] == x;
    }
  }

  lemma DroppedAt(list: seq<nat>, k: nat, j: nat)
    requires k < |list| && j < |list| - 1
    ensures |Dropped(list, k)| == |list| - 1
    ensures j < k ==> Dropped(list, k)[j] == list[j]
    ensures j >= k ==> Dropped(list, k)[j] == list[j + 1]
    ensures j + 1 < k ==> LinkAt(Dropped(list, k), j + 1) == LinkAt(list, j + 1)
    ensures j + 1 >= k ==> LinkAt(Dropped(list, k), j + 1) == LinkAt(list, j + 2)
  {
  }

  lemma ChainedWithout(nodes: map<nat, Node>, nodes': map<nat, Node>, p: nat, list: seq<nat>, k: nat)
    requires Chained(nodes, p, list) && k < |list| && p in nodes'
    requires forall i :: 0 <= i < |list| && i != k ==> list[i] in nodes' && nodes'[list[i]].parent == p
    requires forall i :: 0 <= i < |list| && i != k ==>
      nodes'[list[i]].next == (if i == k - 1 then LinkAt(list, k + 1) else LinkAt(list, i + 1))
    requires nodes'[p].children == if k == 0 then LinkAt(list, 1) else LinkAt(list, 0)
    ensures Chained(nodes', p, Dropped(list, k))
  {
    hide Dropped;
    var r := Dropped(list, k);
    DroppedElements(list, k);
    DroppedHead(list, k);
    forall j | 0 <= j < |r|
      ensures r[j] != 0 && r[j] in nodes' && nodes'[r[j]].next == LinkAt(r, j + 1) && nodes'[r[j]].parent == p
    {
      DroppedAt(list, k, j);
    }
  }

  lemma DroppedHead(list: seq<nat>, k: nat)
    requires k < |list|
    ensures |Dropped(list, k)| == |list| - 1
    ensures LinkAt(Dropped(list, k), 0) == if k == 0 then LinkAt(list, 1) else LinkAt(list, 0)
  {
  }

  lemma NamedWithout(nodes: map<nat, Node>, nodes': map<nat, Node>, list: seq<nat>, k: nat)
    requires Named(nodes, list) && k < |list|
    requires forall i :: 0 <= i < |list| && i != k ==> list[i] in nodes' && nodes'[list[i]].name == nodes[list[i]].name
    ensures Named(nodes', Dropped(list, k))
  {
    hide GoodName;
    var r := Dropped(list, k);
    forall j | 0 <= j < |r| ensures r[j] == list[if j < k then j else j + 1] {}
  }

  /** What the removal leaves of the other nodes. */
  ghost predicate Removed(t: Tree, t': Tree, n: nat, p: nat, k: nat) {
    && n != p && n in t.nodes && p in t.nodes && p in t.kids && k < |t.kids[p]|
    && t'.nodes.Keys == t.nodes.Keys - {n}
    && (k > 0 ==> t.kids[p][k - 1] != n && t.kids[p][k - 1] != p && t.kids[p][k - 1] in t'.nodes)
    && (forall x :: x in t'.nodes ==> t'.nodes[x].name == t.nodes[x].name && t'.nodes[x].parent == t.nodes[x].parent)
    && (forall x :: x in t'.nodes && x != p ==> t'.nodes[x].children == t.nodes[x].children)
    && (forall x :: x in t'.nodes && (k == 0 || x != t.kids[p][k - 1]) ==> t'.nodes[x].next == t.nodes[x].next)
    && t'.nodes[p].children == (if k == 0 then t.nodes[n].next else t.nodes[p].children)
    && (k > 0 ==> t'.nodes[t.kids[p][k - 1]].next == t.nodes[n].next)
  }

  lemma RemoveNodes(t: Tree, n: nat, p: nat, k: nat)
    requires ChildAt(t, n, p, k)
    ensures p in t.kids && Removed(t, RemoveNode(t, n, p, k), n, p, k)
  {
    hide Named, Hung, Chained, Dropped;
    NotOwnChild(t, p, k);
    if k > 0 {
      NotOwnChild(t, p, k - 1);
      KidsKnown(t, p);
      DistinctKids(t, p);
    }
  }

  lemma DistinctKids(t: Tree, p: nat)
    requires Shape(t) && p in t.nodes
    ensures Distinct(t.kids[p])
  {
    hide Named, Hung;
    assert Chained(t.nodes, p, t.kids[p]);
  }

  lemma LinksOf(t: Tree, p: nat, i: nat)
    requires Shape(t) && p in t.nodes && i < |t.kids[p]|
    ensures t.kids[p][i] in t.nodes && t.nodes[t.kids[p][i]].next == LinkAt(t.kids[p], i + 1)
    ensures t.nodes[t.kids[p][i]].parent == p
    ensures t.nodes[p].children == LinkAt(t.kids[p], 0)
  {
    hide Named, Hung;
    assert Chained(t.nodes, p, t.kids[p]);
  }

  lemma RemoveChained(t: Tree, n: nat, p: nat, k: nat, d: nat)
    requires ChildAt(t, n, p, k) && d in t.nodes && d != n
    ensures p in t.kids
    ensures var t' := RemoveNode(t, n, p, k);
      d in t'.nodes && d in t'.kids && Chained(t'.nodes, d, t'.kids[d]) && Named(t'.nodes, t'.kids[d])
  {
    hide Named, Hung, Chained, RemoveNode, Unlinked, Shape, Dropped;
    RemoveNodes(t, n, p, k);
    RemoveKids(t, n, p, k);
    var t' := RemoveNode(t, n, p, k);
    if d == p { RemoveSibling(t, t', n, p, k); } else { RemoveElsewhere(t, t', n, p, k, d); }
  }

  /** The children left beside the removed one. */
  lemma RemoveSibling(t: Tree, t': Tree, n: nat, p: nat, k: nat)
    requires ChildAt(t, n, p, k) && Removed(t, t', n, p, k) && KidsLeft(t, t', n, p, k)
    ensures p in t'.kids && Chained(t'.nodes, p, t'.kids[p]) && Named(t'.nodes, t'.kids[p])
  {
    hide Named, Hung, Chained, Shape;
    KidsKnown(t, p);
    NamedOf(t, p);
    var list := t.kids[p];
    DistinctKids(t, p);
    LinksOf(t, p, k);
    forall i | 0 <= i < |list| && i != k
      ensures list[i] in t'.nodes && t'.nodes[list[i]].parent == p && t'.nodes[list[i]].name == t.nodes[list[i]].name
      ensures t'.nodes[list[i]].next == (if i == k - 1 then LinkAt(list, k + 1) else LinkAt(list, i + 1))
    {
      LinksOf(t, p, i);
    }
    ChainedWithout(t.nodes, t'.nodes, p, list, k);
    NamedWithout(t.nodes, t'.nodes, list, k);
  }

  /** The children of any other node. */
  lemma RemoveElsewhere(t: Tree, t': Tree, n: nat, p: nat, k: nat, d: nat)
    requires ChildAt(t, n, p, k) && Removed(t, t', n, p, k) && KidsLeft(t, t', n, p, k)
    requires d in t.nodes && d != n && d != p
    ensures d in t'.kids && Chained(t'.nodes, d, t'.kids[d]) && Named(t'.nodes, t'.kids[d])
  {
    hide Named, Hung, Chained, Shape, Dropped;
    KidsKnown(t, d);
    KidsKnown(t, p);
    NamedOf(t, d);
    ChainedFrame(t.nodes, t'.nodes, d, t.kids[d]);
    NamedFrame(t.nodes, t'.nodes, t.kids[d]);
  }

  ghost predicate KidsLeft(t: Tree, t': Tree, n: nat, p: nat, k: nat) {
    && p in t.kids && k < |t.kids[p]| && t.kids.Keys == t.nodes.Keys && t.depth.Keys == t.nodes.Keys && p in t.nodes
    && t'.kids.Keys == t.nodes.Keys - {n} && t'.depth.Keys == t.nodes.Keys - {n} && t'.root == t.root
    && (p != n ==> t'.kids[p] == Dropped(t.kids[p], k))
    && (forall d :: d in t'.kids && d != p ==> t'.kids[d] == t.kids[d])
    && (forall d :: d in t'.depth ==> t'.depth[d] == t.depth[d])
  }

  lemma RemoveKids(t: Tree, n: nat, p: nat, k: nat)
    requires ChildAt(t, n, p, k)
    ensures p in t.kids && KidsLeft(t, RemoveNode(t, n, p, k), n, p, k)
  {
    hide Named, Hung, Chained, Unlinked, Dropped;
  }

  /** Removing a node keeps the shape, and good names, exactly when the node has no children. */
  lemma RemoveExact(t: Tree, n: nat, p: nat, k: nat)
    requires ChildAt(t, n, p, k)
    ensures p in t.kids && (Shape(RemoveNode(t, n, p, k)) <==> t.kids[n] == [])
    ensures Tidy(t) ==> Tidy(RemoveNode(t, n, p, k)) && (Inv(RemoveNode(t, n, p, k)) <==> t.kids[n] == [])
  {
    hide Named, Chained, Hung, RemoveNode, Unlinked, Dropped, GoodName;
    RemoveNodes(t, n, p, k);
    RemoveKids(t, n, p, k);
    if t.kids[n] == [] {
      RemoveKeeps(t, n, p, k);
    } else {
      RemoveBreaks(t, n, p, k);
    }
  }

  lemma RemoveKeeps(t: Tree, n: nat, p: nat, k: nat)
    requires ChildAt(t, n, p, k) && t.kids[n] == []
    ensures p in t.kids && Shape(RemoveNode(t, n, p, k))
  {
    hide Named, Chained, Hung, RemoveNode, Unlinked, Dropped;
    var t' := RemoveNode(t, n, p, k);
    RemoveNodes(t, n, p, k);
    RemoveKids(t, n, p, k);
    forall d | d in t'.nodes ensures Chained(t'.nodes, d, t'.kids[d]) && Named(t'.nodes, t'.kids[d]) && Hung(t', d) {
      RemoveChained(t, n, p, k, d);
      RemoveHung(t, n, p, k, d);
    }
  }

  lemma RemoveHung(t: Tree, n: nat, p: nat, k: nat, d: nat)
    requires ChildAt(t, n, p, k) && t.kids[n] == [] && d in t.nodes && d != n
    ensures p in t.kids && Hung(RemoveNode(t, n, p, k), d)
  {
    hide Named, Chained, RemoveNode, Unlinked, Dropped, Shape, Distinct;
    HungOf(t, d);
    RemoveNodes(t, n, p, k);
    RemoveKids(t, n, p, k);
    DistinctKids(t, p);
    DroppedElements(t.kids[p], k);
  }

  lemma RemoveBreaks(t: Tree, n: nat, p: nat, k: nat)
    requires ChildAt(t, n, p, k) && t.kids[n] != []
    ensures p in t.kids && !Shape(RemoveNode(t, n, p, k))
  {
    hide Named, Chained, RemoveNode, Unlinked, Dropped;
    var t' := RemoveNode(t, n, p, k);
    RemoveNodes(t, n, p, k);
    RemoveKids(t, n, p, k);
    var c := t.kids[n][0];
    KidsKnown(t, n);
    NotOwnChild(t, n, 0);
    ParentOf(t, c);
    assert c in t'.nodes && !Hung(t', c);
  }

  // ---------------------------------------------------------------- paths, component by component

  /** Characters `q` to `e` are a component of the path. */
  ghost predicate IsComponent(path: string, q: nat, e: nat) {
    && q < e <= |path| && SEP !in path[q..e]
    && (q == 0 || path[q - 1] == SEP) && (e == |path| || path[e] == SEP)
  }

  /** No component is `.` or `..`. */
  ghost predicate DotFree(path: string) {
    forall q: nat, e: nat :: IsComponent(path, q, e) ==> path[q..e] != "." && path[q..e] != ".."
  }

  /** A trailing separator changes nothing. */
  lemma ResolveSlash(t: Tree, n: nat, x: string, m: nat)
    requires Shape(t) && n in t.nodes && Resolve(t, n, "", x) == Some(m)
    ensures Resolve(t, n, "", x + [SEP]) == Some(m)
  {
    hide Shape, Enter;
    ResolveSplit(t, n, "", x, "");
    assert x + [SEP] + "" == x + [SEP];
    ResolveName(t, m, "", "");
    RootStays(t, m);
  }

  /** A component after a prefix that is empty or ends in a separator. */
  lemma ResolveJoin(t: Tree, n: nat, pre: string, comp: string, m: nat)
    requires Shape(t) && n in t.nodes && SEP !in comp && Resolve(t, n, "", pre) == Some(m)
    requires pre == "" || pre[|pre| - 1] == SEP
    ensures m in t.nodes && Resolve(t, n, "", pre + comp) == Enter(t, m, comp)
  {
    hide Shape, Enter, Resolve;
    if pre == "" {
      JoinEmpty(t, n, comp, m);
      assert pre + comp == comp;
    } else {
      var x := pre[..|pre| - 1];
      EndsInSlash(pre, comp);
      JoinSlash(t, n, x, comp, m);
    }
  }

  lemma EndsInSlash(pre: string, comp: string)
    requires pre != "" && pre[|pre| - 1] == SEP
    ensures pre == pre[..|pre| - 1] + [SEP] + "" && pre + comp == pre[..|pre| - 1] + [SEP] + comp
  {
  }

  lemma JoinEmpty(t: Tree, n: nat, comp: string, m: nat)
    requires Shape(t) && n in t.nodes && SEP !in comp && Resolve(t, n, "", "") == Some(m)
    ensures m == n && Resolve(t, n, "", comp) == Enter(t, n, comp)
  {
    hide Shape, Enter, Resolve;
    ResolveName(t, n, "", "");
    RootStays(t, n);
    ResolveName(t, n, "", comp);
    assert "" + comp == comp;
  }

  lemma JoinSlash(t: Tree, n: nat, x: string, comp: string, m: nat)
    requires Shape(t) && n in t.nodes && SEP !in comp && Resolve(t, n, "", x + [SEP] + "") == Some(m)
    ensures m in t.nodes && Resolve(t, n, "", x + [SEP] + comp) == Enter(t, m, comp)
  {
    hide Shape, Enter, Resolve;
    ResolveSplit(t, n, "", x, "");
    ResolveSplit(t, n, "", x, comp);
    ResolveInside(t, n, "", x);
    var y := Resolve(t, n, "", x).value;
    ResolveName(t, y, "", "");
    RootStays(t, y);
    ResolveName(t, y, "", comp);
    assert "" + comp == comp;
  }

  lemma ResolveInside(t: Tree, n: nat, part: string, rest: string)
    requires Shape(t) && n in t.nodes
    ensures Resolve(t, n, part, rest).Some? ==> Resolve(t, n, part, rest).value in t.nodes
  {
  }

  lemma CutGood(comp: string)
    requires comp != "" && SEP !in comp
    ensures GoodName(Cut(comp)) <==> comp != "." && comp != ".."
  {
  }

  /** The end of the component at `p`. */
  function End(path: string, p: nat): (e: nat)
    requires p <= |path|
    ensures p <= e <= |path| && (p < |path| && path[p] != SEP ==> p < e)
    decreases |path| - p
  {
    if p == |path| || path[p] == SEP then p else End(path, p + 1)
  }

  /** The next position at or after `p` that holds no separator. */
  function Skip(path: string, p: nat): (q: nat)
    requires p <= |path|
    ensures p <= q <= |path| && (q == |path| || path[q] != SEP)
    decreases |path| - p
  {
    if p < |path| && path[p] == SEP then Skip(path, p + 1) else p
  }

  /** The components from `p` on, each cut and behind one separator. */
  function Spelled(path: string, p: nat): string
    requires p <= |path| && (p == |path| || path[p] != SEP)
    decreases |path| - p
  {
    if p == |path| then ""
    else [SEP] + Cut(path[p..End(path, p)]) + Spelled(path, Skip(path, End(path, p)))
  }

  /** The child of that name, dot or not, or 0. */
  function ChildOf(t: Tree, n: nat, name: string): nat
    requires Shape(t) && n in t.nodes
  {
    assert Chained(t.nodes, n, t.kids[n]);
    Child(t.nodes, t.kids[n], name)
  }

  /** There is no component from `p` on, or one before the last is the name of a file. */
  predicate Blocked(t: Tree, n: nat, path: string, p: nat)
    requires Shape(t) && n in t.nodes && p <= |path| && (p == |path| || path[p] != SEP)
    decreases |path| - p
  {
    p == |path| ||
    var e := End(path, p);
    var q, c := Skip(path, e), ChildOf(t, n, Cut(path[p..e]));
    assert Chained(t.nodes, n, t.kids[n]);
    q < |path| && c != 0 && (!t.nodes[c].directory || Blocked(t, c, path, q))
  }

  /** `m` is `n` or a node on the way up from it. */
  predicate Above(t: Tree, m: nat, n: nat)
    requires Shape(t) && n in t.nodes
    decreases t.depth[n]
  {
    assert Hung(t, n);
    m == n || (n != t.root && Above(t, m, t.nodes[n].parent))
  }

  lemma ChildStands(t: Tree, n: nat, name: string)
    requires Shape(t) && n in t.nodes
    ensures var c := ChildOf(t, n, name);
      c != 0 ==> c in t.nodes && c != t.root && c != n && t.nodes[c].parent == n && t.nodes[c].name == name
  {
    hide Named;
    KidsKnown(t, n);
    var c := ChildOf(t, n, name);
    if c != 0 {
      HungOf(t, c);
      HungOf(t, n);
    }
  }

  /** The way up from a child. */
  lemma ChildPath(t: Tree, n: nat, c: nat)
    requires Shape(t) && n in t.nodes && c in t.nodes && c != t.root && t.nodes[c].parent == n
    ensures PathOf(t, c) == PathOf(t, n) + [SEP] + t.nodes[c].name
    ensures Above(t, c, c) && forall m :: Above(t, m, n) ==> Above(t, m, c)
  {
    hide Shape, Named, Chained;
    HungOf(t, c);
  }
}

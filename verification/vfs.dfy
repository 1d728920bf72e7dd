/** The path operations of vfs.cpp over nodes in memory: lookup, the path of a node, creation along
    a path and removal. A freed node is gone from `nodes`. */
module Vfs {
  import opened Common
  import opened Vtree

  class FileTree {
    const root: nat
    var nodes: map<nat, Node>
    var unused: nat          // the next node address
    ghost var kids: map<nat, seq<nat>>
    ghost var depth: map<nat, nat>

    ghost function T(): Tree
      reads this
    {
      Tree(nodes, root, kids, depth)
    }

    ghost predicate Valid()
      reads this
    {
      Shape(T()) && unused > 0 && forall n :: n in nodes ==> n < unused
    }

    constructor ()
      ensures Valid() && Tidy(T()) && nodes.Keys == {root}
    {
      root := 1;
      nodes := map[1 := Node([SEP], true, 0, 0, 0)];
      unused := 2;
      kids, depth := map[1 := []], map[1 := 0];
    }

    /** Compares two names character by character. */
    method SameName(a: string, b: string) returns (same: bool)
      ensures same == (a == b)
    {
      var i := 0;
      while i < |a| && i < |b|
        invariant i <= |a| && i <= |b| && a[..i] == b[..i]
      {
        if a[i] != b[i] { return false; }
        i := i + 1;
      }
      assert a[..|a|] == a && b[..|b|] == b;
      return i == |a| && i == |b|;
    }

    /** The child with that name, or 0. */
    method FindIn(dir: nat, name: string) returns (c: nat)
      requires Valid() && dir in nodes
      ensures dir in kids && (forall k :: 0 <= k < |kids[dir]| ==> kids[dir][k] != 0 && kids[dir][k] in nodes)
      ensures c == Child(nodes, kids[dir], name)
    {
      hide Named, Hung, Shape, Child;
      KidsKnown(T(), dir);
      HungOf(T(), dir);
      ghost var list, k := kids[dir], 0;
      assert list[0..] == list;
      c := nodes[dir].children;
      while c != 0
        invariant k <= |list| && c == LinkAt(list, k) && Child(nodes, list, name) == Child(nodes, list[k..], name)
        decreases |list| - k
      {
        var same := SameName(nodes[c].name, name);
        ChildStep(nodes, list, k, name);
        if same { return; }
        c := nodes[c].next;
        k := k + 1;
      }
      ChildStep(nodes, list, k, name);
    }

    /** Resolves a path; an empty one is the shell's directory. */
    method Find(path: string, cwd: nat, shell: nat) returns (n: nat)
      requires Valid() && cwd in nodes && shell in nodes
      ensures path == "" ==> n == shell
      ensures path != "" ==> Target(T(), cwd, path) == if n == 0 then None else Some(n)
      ensures n == 0 || n in nodes
    {
      hide Shape, Resolve, Enter;
      HungOf(T(), cwd);
      if path == "" { return shell; }
      n := if path[0] == SEP then root else cwd;
      ghost var goal := Target(T(), cwd, path);
      var part := "";
      ghost var whole := "";
      var p := if path[0] == SEP then 1 else 0;
      RootIn(T());
      NoZero(T());
      while true
        invariant p <= |path| && n in nodes && n != 0 && part == Cut(whole) && SEP !in whole
        invariant goal == Resolve(T(), n, whole, path[p..])
        decreases |path| - p
      {
        ResolveStep(T(), n, whole, path[p..]);
        if p == |path| || path[p] == SEP {
          n := Component(n, part, whole);
          if n == 0 { return; }
          part, whole := "", "";
          if p == |path| { break; }
        } else {
          whole := whole + [path[p]];
          if |part| < PART { part := part + [path[p]]; }
        }
        p := p + 1;
      }
    }

    /** One component of a path. */
    method Component(n: nat, part: string, ghost whole: string) returns (m: nat)
      requires Valid() && n in nodes && part == Cut(whole)
      ensures Enter(T(), n, whole) == if m == 0 then None else Some(m)
      ensures m == 0 || m in nodes
    {
      hide Named, Hung, Shape, Child;
      ParentOf(T(), n);
      NoZero(T());
      if part == "" || part == "." { return n; }
      if part == ".." {
        if nodes[n].parent != 0 { return nodes[n].parent; }
        return n;
      }
      m := FindIn(n, part);
    }

    /** The path of a node, built from the node upwards in a buffer of 1024 bytes. */
    method GetPath(node: nat) returns (path: string)
      requires Valid() && node in nodes && |PathText(T(), node)| < 1024
      ensures path == PathText(T(), node)
    {
      hide Shape, Chained, Named, PathOf;
      if node == root { return [SEP]; }
      RootPath(T());
      var temp, n := "", node;
      HungOf(T(), n);
      while n != 0 && n != root
        invariant n in nodes && n in depth && PathOf(T(), node) == PathOf(T(), n) + temp
        decreases depth[n]
      {
        HungOf(T(), n);
        ParentOf(T(), n);
        ChildPath(T(), nodes[n].parent, n);
        Rejoined(PathOf(T(), nodes[n].parent), nodes[n].name, temp);
        temp := [SEP] + nodes[n].name + temp;
        n := nodes[n].parent;
        HungOf(T(), n);
      }
      RootIn(T());
      NoZero(T());
      return temp;
    }

    /** A new node in front of its siblings. */
    method CreateNode(name: string, directory: bool, parent: nat) returns (id: nat)
      requires Valid() && parent in nodes
      modifies this
      ensures CanAdd(old(T()), id, parent) && parent in old(kids) && parent in old(depth)
      ensures T() == AddNode(old(T()), id, name, directory, parent) && unused == old(unused) + 1
      ensures forall n :: n in nodes ==> n < unused
      ensures id !in old(nodes) && nodes.Keys == old(nodes).Keys + {id} && nodes[parent].children == id
      ensures nodes[id] == Node(name, directory, parent, 0, old(nodes)[parent].children)
      ensures forall n :: n in old(nodes) && n != parent ==> nodes[n] == old(nodes)[n]
    {
      hide Chained, Named, Hung;
      id := unused;
      unused := unused + 1;
      nodes := nodes[id := Node(name, directory, parent, 0, nodes[parent].children)];
      nodes := nodes[parent := nodes[parent].(children := id)];
      kids, depth := kids[id := []][parent := [id] + kids[parent]], depth[id := depth[parent] + 1];
    }

    /** The child with that component's name, made if there is none. What resolved before resolves
        still; a dot component leads to a node of that name, which a tidy tree does not have. */
    method Ensure(dir: nat, part: string, directory: bool, ghost comp: string) returns (c: nat, made: bool)
      requires Valid() && dir in nodes && part == Cut(comp) && comp != "" && SEP !in comp
      modifies this
      ensures Valid() && Extends(old(T()), T()) && c in nodes && dir in nodes
      ensures !Dots(comp) ==> Enter(T(), dir, comp) == Some(c)
      ensures Resolves(old(T()), T())
      ensures made <==> ChildOf(old(T()), dir, part) == 0
      ensures made ==> c !in old(nodes) && nodes.Keys == old(nodes).Keys + {c} && nodes[c].directory == directory
      ensures made ==> c in kids && kids[c] == []
      ensures !made ==> T() == old(T())
      ensures c == ChildOf(T(), dir, part) && c != 0
      ensures old(kids)[dir] == [] ==> made
      ensures Tidy(T()) <==> old(Tidy(T())) && !Dots(comp)
    {
      hide Chained, Named, Hung, Resolve, Child, AddNode, Shape, Extends, GoodName, Enter, Tidy;
      ghost var t := T();
      CutGood(comp);
      ExtendsNot(t);
      HungOf(t, dir);
      c := FindIn(dir, part);
      if c != 0 {
        if !Dots(comp) { EnterIs(t, dir, comp, c); }
        ChildGood(t, dir, part, c);
        return c, false;
      }
      c := CreateNode(part, directory, dir);
      AddShape(t, c, part, directory, dir);
      AddTidy(t, c, part, directory, dir);
      AddAllResolve(t, c, part, directory, dir);
      AddExtends(t, c, part, directory, dir);
      AddChild(t, c, part, directory, dir, dir, part);
      if !Dots(comp) { EnterIs(T(), dir, comp, c); }
      return c, true;
    }

    /** Reads the next component, cut to its buffer, and the separators after it. */
    method NextPart(path: string, p: nat) returns (part: string, p': nat, ghost e: nat)
      requires p < |path| && path[p] != SEP
      ensures p < e <= p' <= |path| && part == Cut(path[p..e]) && SEP !in path[p..e]
      ensures (e == |path| || path[e] == SEP) && (forall i :: e <= i < p' ==> path[i] == SEP)
      ensures (p' == |path| || path[p'] != SEP) && e == End(path, p) && p' == Skip(path, e)
    {
      hide End, Cut;
      part, p' := ReadPart(path, p);
      e := p';
      while p' < |path| && path[p'] == SEP
        invariant e <= p' <= |path| && Skip(path, e) == Skip(path, p') && forall i :: e <= i < p' ==> path[i] == SEP
      {
        p' := p' + 1;
      }
    }

    /** Reads a component into a buffer of fixed size. */
    method ReadPart(path: string, p: nat) returns (part: string, e: nat)
      requires p < |path| && path[p] != SEP
      ensures p < e <= |path| && part == Cut(path[p..e]) && SEP !in path[p..e] && e == End(path, p)
      ensures e == |path| || path[e] == SEP
    {
      hide Cut;
      part, e := "", p;
      CutNext("", path[p]);
      while e < |path| && path[e] != SEP
        invariant p <= e <= |path| && part == Cut(path[p..e]) && SEP !in path[p..e] && End(path, p) == End(path, e)
      {
        assert path[p..e + 1] == path[p..e] + [path[e]];
        CutNext(path[p..e], path[e]);
        if |part| < PART { part := part + [path[e]]; }
        e := e + 1;
      }
    }

    /** Creation has come to position `p` of the path, at node `dir`; `t0` is the tree it started with.
        While no component was `.` or `..`, the path so far leads to `dir`, and a tidy tree is tidy. */
    ghost predicate OnPath(t0: Tree, path: string, from: nat, dir: nat, p: nat)
      requires Valid()
      reads this
    {
      && Extends(t0, T()) && dir in nodes && from in nodes && path != "" && Start(path) <= p <= |path|
      && (p == |path| || path[p] != SEP) && (p == Start(path) || p == |path| || path[p - 1] == SEP)
      && (FreeTo(path, p) ==> Resolve(T(), from, "", path[Start(path)..p]) == Some(dir))
      && (Tidy(t0) ==> (Tidy(T()) <==> FreeTo(path, p)))
    }

    /** Every component so far, dot or not, was taken as a name below the last, and only nodes on that
        way are new. */
    ghost predicate Along(t0: Tree, path: string, from: nat, dir: nat, p: nat)
      requires Valid() && p <= |path| && (p == |path| || path[p] != SEP)
      reads this
    {
      && dir in nodes && from in nodes && MadeAbove(t0, T(), dir)
      && PathOf(T(), from) + Spelled(path, Skip(path, 0)) == PathOf(T(), dir) + Spelled(path, p)
      && (dir in t0.nodes || nodes[dir].directory || p == |path|)
    }

    /** Where creation along a path starts: the node and the first component. */
    method FirstPart(path: string, cwd: nat) returns (dir: nat, p: nat)
      requires Valid() && cwd in nodes && path != ""
      ensures dir == Base(T(), cwd, path) && dir in nodes && dir != 0 && p == Skip(path, 0)
      ensures OnPath(T(), path, dir, dir, p) && Along(T(), path, dir, dir, p)
    {
      hide Chained, Named, Hung, Resolve, Enter, Shape, Extends, Tidy, FreeTo, MadeAbove, PathOf, Spelled;
      RootIn(T());
      NoZero(T());
      ExtendsNot(T());
      dir := if path[0] == SEP then root else cwd;
      p := SkipSlashes(path);
      SlashesStay(T(), dir, path, Start(path), p);
      FreeStart(path, p);
      NothingMade(T(), dir);
    }

    /** The next component of the path, found or made; at the end of a file's path a file. */
    method Advance(path: string, dir: nat, p: nat, file: bool, ghost t0: Tree, ghost from: nat)
      returns (c: nat, p': nat, made: bool)
      requires Valid() && OnPath(t0, path, from, dir, p) && Along(t0, path, from, dir, p) && p < |path|
      modifies this
      ensures Valid() && OnPath(t0, path, from, c, p') && Along(t0, path, from, c, p') && p < p' && c != 0
      ensures Extends(old(T()), T()) && p' == Skip(path, End(path, p))
      ensures made <==> ChildOf(old(T()), dir, Cut(path[p..End(path, p)])) == 0
      ensures made ==> c !in old(nodes) && nodes[c].directory == (!file || p' < |path|) && c in kids && kids[c] == []
      ensures !made ==> T() == old(T()) && c == ChildOf(T(), dir, Cut(path[p..End(path, p)]))
      ensures dir in old(kids) && old(kids)[dir] == [] ==> made
      ensures !file ==> c in t0.nodes || nodes[c].directory
    {
      hide Chained, Named, Hung, Resolve, Enter, Shape, Extends, Tidy, Resolves, FreeTo, MadeAbove, PathOf, Child,
           ChildOf;
      ghost var before := T();
      HungOf(before, dir);
      var part;
      ghost var e;
      part, p', e := NextPart(path, p);
      c, made := Ensure(dir, part, !file || p' < |path|, path[p..e]);
      ExtendsTwice(t0, before, T());
      ExtendsIn(before, T(), from);
      Walked(path, before, T(), from, Start(path), dir, c, p, e, p');
      NoZero(T());
      ChildStands(T(), dir, part);
      AlongStep(t0, before, T(), from, dir, c, path, p, made);
    }

    /** Makes every missing directory of a path and gives the last one; 0 for the empty path. Only nodes on
        the way to it are new. A tidy tree stays so exactly when no component is `.` or `..`, and then the
        path finds the directory. */
    method CreateDirPath(path: string, cwd: nat) returns (dir: nat)
      requires Valid() && cwd in nodes
      modifies this
      ensures Valid() && Extends(old(T()), T()) && cwd in nodes && (dir == 0 <==> path == "")
      ensures path == "" ==> T() == old(T())
      ensures path != "" ==> dir in nodes && MadeAbove(old(T()), T(), dir) && Base(T(), cwd, path) in nodes
      ensures path != "" ==> PathOf(T(), dir) == PathOf(T(), Base(T(), cwd, path)) + Spelled(path, Skip(path, 0))
      ensures path != "" ==> dir in old(nodes) || nodes[dir].directory
      ensures path != "" && DotFree(path) ==> Target(T(), cwd, path) == Some(dir)
      ensures old(Tidy(T())) ==> (Tidy(T()) <==> DotFree(path))
    {
      hide Chained, Named, Hung, Resolve, Enter, Shape, Extends, DotFree, Tidy, FreeTo, MadeAbove, PathOf;
      ghost var t0 := T();
      ExtendsNot(t0);
      RootIn(t0);
      NoZero(t0);
      NoComponent(path);
      if path == "" { return 0; }
      var p;
      dir, p := FirstPart(path, cwd);
      ghost var from := dir;
      while p < |path|
        invariant Valid() && OnPath(t0, path, from, dir, p) && Along(t0, path, from, dir, p) && dir != 0
        invariant dir in t0.nodes || nodes[dir].directory
      {
        var made;
        dir, p, made := Advance(path, dir, p, false, t0, from);
      }
      ExtendsIn(t0, T(), cwd);
      AllWalked(path);
      assert path[..|path|] == path;
    }

    /** Makes a file and every missing directory on the way, and gives the file; 0, with nothing made, exactly
        when the path is refused. A tidy tree stays so exactly when the path is refused or no component is
        `.` or `..`. */
    method CreateFilePath(path: string, cwd: nat) returns (file: nat)
      requires Valid() && cwd in nodes
      modifies this
      ensures Valid() && Extends(old(T()), T()) && cwd in nodes
      ensures file == 0 <==> Refused(old(T()), cwd, path)
      ensures file == 0 ==> T() == old(T())
      ensures file != 0 ==> path != "" && file in nodes && MadeAbove(old(T()), T(), file)
      ensures file != 0 ==> Base(T(), cwd, path) in nodes
      ensures file != 0 ==> PathOf(T(), file) == PathOf(T(), Base(T(), cwd, path)) + Spelled(path, Skip(path, 0))
      ensures file != 0 ==> file in old(nodes) || !nodes[file].directory
      ensures file != 0 && DotFree(path) ==> Target(T(), cwd, path) == Some(file)
      ensures old(Tidy(T())) ==> (Tidy(T()) <==> Refused(old(T()), cwd, path) || DotFree(path))
    {
      hide Chained, Named, Hung, Resolve, Enter, Shape, Extends, DotFree, Tidy, FreeTo, MadeAbove, PathOf, Child,
           ChildOf, Blocked, Spelled, End, Skip, Cut;
      ghost var t0 := T();
      ExtendsNot(t0);
      RootIn(t0);
      NoZero(t0);
      if path == "" { return 0; }
      var dir, p;
      dir, p := FirstPart(path, cwd);
      ghost var from, grown := dir, false;
      LastPart(t0, dir, path);
      while p < |path|
        invariant Valid() && OnPath(t0, path, from, dir, p) && Along(t0, path, from, dir, p)
        invariant !grown ==> T() == t0 && (Refused(t0, cwd, path) <==> Blocked(t0, dir, path, p))
        invariant grown ==> p < |path| && dir in kids && kids[dir] == [] && !Refused(t0, cwd, path)
      {
        var made;
        ghost var before, d, q := T(), dir, p;
        dir, p, made := Advance(path, dir, p, true, t0, from);
        ExtendsIn(t0, T(), cwd);
        BlockedStep(before, d, path, q);
        grown := grown || made;
        if p == |path| {
          AllWalked(path);
          assert path[..|path|] == path;
          return dir;
        }
        if !made && !nodes[dir].directory { return 0; }
      }
      LastPart(T(), dir, path);
      return 0;
    }

    /** Removes the node a path leads to; the root, and a directory with children, stay. The tree keeps
        its shape exactly when the node had no children: a file may have got some. */
    method Remove(path: string, cwd: nat, shell: nat) returns (ok: bool, ghost n: nat, ghost k: nat)
      requires Valid() && cwd in nodes && shell in nodes
      modifies this
      ensures !ok ==> T() == old(T())
      ensures ok ==> n in old(nodes) && n != root && (path != "" ==> Target(old(T()), cwd, path) == Some(n))
      ensures ok ==> ChildAt(old(T()), n, old(nodes)[n].parent, k) && old(nodes)[n].parent in old(kids)
      ensures ok ==> T() == RemoveNode(old(T()), n, old(nodes)[n].parent, k)
      ensures ok ==> nodes.Keys == old(nodes).Keys - {n} && forall x :: x in nodes ==>
        && nodes[x].name == old(nodes)[x].name && nodes[x].parent == old(nodes)[x].parent
        && nodes[x].directory == old(nodes)[x].directory
      ensures ok ==> n in old(kids) && (Valid() <==> old(kids)[n] == [])
      ensures ok && old(nodes)[n].directory ==> Valid()
      ensures ok && old(Tidy(T())) ==> Tidy(T())
      ensures ok <==> Removable(old(T()), cwd, shell, path)
    {
      hide Chained, Named, Hung, Resolve, Enter, Shape, ChildAt, RemoveNode, Target, Tidy;
      ghost var t := T();
      k := 0;
      var node := Find(path, cwd, shell);
      n := node;
      NoZero(t);
      if node == 0 { return false, n, k; }
      if node == root { return false, n, k; }
      LinksHead(t, node);
      if nodes[node].directory && nodes[node].children != 0 { return false, n, k; }
      var parent := nodes[node].parent;
      k := KidIndex(t, node);
      RemoveExact(t, node, parent, k);
      Unlink(node, parent, k);
      nodes := nodes - {node};
      kids, depth := kids[parent := Dropped(kids[parent], k)] - {node}, depth - {node};
      RemoveIs(t, T(), node, parent, k);
      return true, n, k;
    }

    /** Leads the link to a node past it. */
    method Unlink(node: nat, parent: nat, ghost k: nat)
      requires ChildAt(T(), node, parent, k) && parent in kids
      modifies this`nodes
      ensures nodes == Unlinked(old(T()), node, parent, k)
    {
      hide Named, Hung, Shape, Chained;
      KidsKnown(T(), parent);
      DistinctKids(T(), parent);
      LinksOf(T(), parent, k);
      if nodes[parent].children == node {
        assert k == 0;
        nodes := nodes[parent := nodes[parent].(children := nodes[node].next)];
      } else {
        var prev := nodes[parent].children;
        ghost var j := 0;
        while prev != 0 && nodes[prev].next != node
          invariant j < k && prev == kids[parent][j] && nodes == old(nodes)
          decreases k - j
        {
          LinksOf(T(), parent, j);
          prev := nodes[prev].next;
          j := j + 1;
        }
        LinksOf(T(), parent, j);
        assert j + 1 == k;
        if prev != 0 { nodes := nodes[prev := nodes[prev].(next := nodes[node].next)]; }
      }
    }

    method SkipSlashes(path: string) returns (p: nat)
      requires path != ""
      ensures p <= |path| && (forall i :: 0 <= i < p ==> path[i] == SEP) && (p == |path| || path[p] != SEP)
      ensures p == Skip(path, 0)
    {
      p := 0;
      while p < |path| && path[p] == SEP
        invariant p <= |path| && Skip(path, 0) == Skip(path, p) && forall i :: 0 <= i < p ==> path[i] == SEP
      {
        p := p + 1;
      }
    }
  }

  /** The path leads to a node other than the root that is a file or an empty directory. */
  ghost predicate Removable(t: Tree, cwd: nat, shell: nat, path: string)
    requires Shape(t) && cwd in t.nodes && shell in t.nodes
  {
    var n := if path == "" then Some(shell) else Target(t, cwd, path);
    && n.Some? && n.value != t.root && n.value in t.nodes && n.value in t.kids
    && (t.nodes[n.value].directory ==> t.kids[n.value] == [])
  }

  lemma CutNext(s: string, c: char)
    ensures Cut("") == ""
    ensures Cut(s + [c]) == if |Cut(s)| < PART then Cut(s) + [c] else Cut(s)
  {
    if |s| >= PART { assert (s + [c])[..PART] == s[..PART]; }
  }

  /** Where a path starts. */
  function Base(t: Tree, cwd: nat, path: string): nat
    requires path != ""
  {
    if path[0] == SEP then t.root else cwd
  }

  /** No file is made at the path: it has no component, or leads through a file. */
  predicate Refused(t: Tree, cwd: nat, path: string)
    requires Shape(t) && cwd in t.nodes
  {
    path == "" || Blocked(t, Base(t, cwd, path), path, Skip(path, 0))
  }

  lemma LastPart(t: Tree, n: nat, path: string)
    requires Shape(t) && n in t.nodes
    ensures Blocked(t, n, path, |path|) && Spelled(path, |path|) == ""
  {
    hide Shape;
  }

  lemma BlockedStep(t: Tree, n: nat, path: string, p: nat)
    requires Shape(t) && n in t.nodes && p < |path| && path[p] != SEP
    ensures var c, q := ChildOf(t, n, Cut(path[p..End(path, p)])), Skip(path, End(path, p));
      && (c != 0 ==> c in t.nodes)
      && (Blocked(t, n, path, p) <==> q < |path| && c != 0 && (!t.nodes[c].directory || Blocked(t, c, path, q)))
  {
    hide Shape, Child;
    ChildStands(t, n, Cut(path[p..End(path, p)]));
  }

  /** The new nodes lie on the way from `top` up, and all but `top` are directories. */
  ghost predicate MadeAbove(t0: Tree, t: Tree, top: nat)
    requires Shape(t) && top in t.nodes
  {
    forall n :: n in t.nodes && n !in t0.nodes ==> Above(t, n, top) && (n != top ==> t.nodes[n].directory)
  }

  lemma NothingMade(t: Tree, n: nat)
    requires Shape(t) && n in t.nodes
    ensures MadeAbove(t, t, n)
  {
    hide Shape;
  }

  /** Added nodes change no way up. */
  lemma {:induction false} WayKept(t: Tree, t': Tree, n: nat)
    requires Shape(t) && Shape(t') && Extends(t, t') && n in t.nodes
    ensures n in t'.nodes && PathOf(t', n) == PathOf(t, n) && forall m :: Above(t, m, n) ==> Above(t', m, n)
    decreases t.depth[n]
  {
    hide Shape, Chained, Named;
    HungOf(t, n);
    ExtendsIn(t, t', n);
    if n != t.root { WayKept(t, t', t.nodes[n].parent); }
  }

  /** One component further: `c` is the child of `dir` of that name. */
  lemma AlongStep(t0: Tree, t: Tree, t': Tree, from: nat, dir: nat, c: nat, path: string, p: nat, made: bool)
    requires Shape(t) && Shape(t') && Extends(t, t') && from in t.nodes && dir in t.nodes && p < |path|
    requires path[p] != SEP && MadeAbove(t0, t, dir) && (dir in t0.nodes || t.nodes[dir].directory)
    requires c in t'.nodes && c != t'.root && c != dir && t'.nodes[c].parent == dir
    requires t'.nodes[c].name == Cut(path[p..End(path, p)]) && t'.nodes.Keys <= t.nodes.Keys + {c}
    requires PathOf(t, from) + Spelled(path, Skip(path, 0)) == PathOf(t, dir) + Spelled(path, p)
    requires made <==> c !in t.nodes
    ensures from in t'.nodes && MadeAbove(t0, t', c) && (made || c in t0.nodes || t'.nodes[c].directory)
    ensures PathOf(t', from) + Spelled(path, Skip(path, 0))
         == PathOf(t', c) + Spelled(path, Skip(path, End(path, p)))
  {
    hide Shape, PathOf, Above, MadeAbove, Spelled, Extends, Cut, End, Skip;
    WayKept(t, t', from);
    WayKept(t, t', dir);
    ChildPath(t', dir, c);
    MadeStep(t0, t, t', dir, c);
    if !made { FoundKind(t0, t, t', dir, c); }
    SpelledStep(path, p);
    Rejoined(PathOf(t, dir), t'.nodes[c].name, Spelled(path, Skip(path, End(path, p))));
  }

  lemma Rejoined(a: string, b: string, c: string)
    ensures a + ([SEP] + b + c) == a + [SEP] + b + c
  {
  }

  lemma SpelledStep(path: string, p: nat)
    requires p < |path| && path[p] != SEP
    ensures Spelled(path, p) == [SEP] + Cut(path[p..End(path, p)]) + Spelled(path, Skip(path, End(path, p)))
  {
  }

  lemma MadeStep(t0: Tree, t: Tree, t': Tree, dir: nat, c: nat)
    requires Shape(t) && Shape(t') && Extends(t, t') && dir in t.nodes && c in t'.nodes && c != t'.root
    requires MadeAbove(t0, t, dir) && (dir in t0.nodes || t.nodes[dir].directory)
    requires t'.nodes[c].parent == dir && t'.nodes.Keys <= t.nodes.Keys + {c}
    ensures MadeAbove(t0, t', c)
  {
    hide Shape, Above, Extends;
    forall n | n in t'.nodes && n !in t0.nodes ensures Above(t', n, c) && (n != c ==> t'.nodes[n].directory) {
      MadeOne(t0, t, t', dir, c, n);
    }
  }

  lemma MadeOne(t0: Tree, t: Tree, t': Tree, dir: nat, c: nat, n: nat)
    requires Shape(t) && Shape(t') && Extends(t, t') && dir in t.nodes && c in t'.nodes && c != t'.root
    requires MadeAbove(t0, t, dir) && (dir in t0.nodes || t.nodes[dir].directory)
    requires t'.nodes[c].parent == dir && t'.nodes.Keys <= t.nodes.Keys + {c} && n in t'.nodes && n !in t0.nodes
    ensures Above(t', n, c) && (n != c ==> t'.nodes[n].directory)
  {
    hide Shape, Above, Extends;
    WayKept(t, t', dir);
    ChildPath(t', dir, c);
    if n != c {
      assert n in t.nodes;
      SameKind(t, t', n);
    }
  }

  lemma FoundKind(t0: Tree, t: Tree, t': Tree, dir: nat, c: nat)
    requires Shape(t) && Extends(t, t') && dir in t.nodes && MadeAbove(t0, t, dir) && c in t.nodes && c != dir
    ensures c in t'.nodes && (c in t0.nodes || t'.nodes[c].directory)
  {
    hide Shape, Above, Extends;
    SameKind(t, t', c);
  }

  lemma SameKind(t: Tree, t': Tree, n: nat)
    requires Extends(t, t') && n in t.nodes
    ensures n in t'.nodes && t'.nodes[n].directory == t.nodes[n].directory
  {
  }

  lemma LinksHead(t: Tree, n: nat)
    requires Shape(t) && n in t.nodes
    ensures n in t.kids && (t.nodes[n].children == 0 <==> t.kids[n] == [])
  {
    assert Chained(t.nodes, n, t.kids[n]);
  }

  lemma KidIndex(t: Tree, n: nat) returns (k: nat)
    requires Shape(t) && n in t.nodes && n != t.root
    ensures ChildAt(t, n, t.nodes[n].parent, k) && t.nodes[n].parent in t.kids && k < |t.kids[t.nodes[n].parent]|
  {
    hide Named;
    ParentOf(t, n);
    var p := t.nodes[n].parent;
    KidsKnown(t, p);
    k :| 0 <= k < |t.kids[p]| && t.kids[p][k] == n;
  }

  lemma RemoveIs(t: Tree, t': Tree, n: nat, p: nat, k: nat)
    requires ChildAt(t, n, p, k) && p in t.kids
    requires t' == Tree(Unlinked(t, n, p, k) - {n}, t.root, t.kids[p := Dropped(t.kids[p], k)] - {n}, t.depth - {n})
    ensures t' == RemoveNode(t, n, p, k) && forall x :: x in t'.nodes ==> x in t.nodes
  {
    hide Chained, Named, Hung, Shape, Dropped;
  }

  /** Nodes are only added. */
  ghost predicate Extends(t: Tree, t': Tree) {
    && t'.root == t.root && t.nodes.Keys <= t'.nodes.Keys
    && (forall n :: n in t.nodes ==> t'.nodes[n].name == t.nodes[n].name && t'.nodes[n].parent == t.nodes[n].parent)
    && (forall n :: n in t.nodes ==> t'.nodes[n].directory == t.nodes[n].directory)
  }

  lemma ExtendsNot(t: Tree)
    ensures Extends(t, t)
  {
  }

  lemma ExtendsTwice(t: Tree, t1: Tree, t2: Tree)
    requires Extends(t, t1) && Extends(t1, t2)
    ensures Extends(t, t2) && forall n :: n in t.nodes ==> n in t2.nodes
  {
  }

  lemma ExtendsIn(t: Tree, t': Tree, n: nat)
    requires Extends(t, t') && n in t.nodes
    ensures n in t'.nodes
  {
  }

  lemma AddExtends(t: Tree, c: nat, name: string, directory: bool, p: nat)
    requires CanAdd(t, c, p)
    ensures p in t.kids && p in t.depth && Extends(t, AddNode(t, c, name, directory, p))
    ensures var t' := AddNode(t, c, name, directory, p);
      && c in t'.nodes && t'.nodes[c].directory == directory && p in t'.nodes
      && c in t'.kids && t'.kids[c] == [] && t'.nodes.Keys == t.nodes.Keys + {c}
  {
    hide Chained, Named, Hung;
    if p == c { assert false; }
  }

  lemma EnterIs(t: Tree, n: nat, comp: string, c: nat)
    requires Shape(t) && n in t.nodes && comp != "" && comp != "." && comp != ".." && c != 0
    requires forall k :: 0 <= k < |t.kids[n]| ==> t.kids[n][k] != 0 && t.kids[n][k] in t.nodes
    requires c == Child(t.nodes, t.kids[n], Cut(comp))
    ensures Enter(t, n, comp) == Some(c) && c in t.nodes
  {
    hide Named, Hung;
  }

  /** Where resolution of the path starts. */
  function Start(path: string): nat
    requires path != ""
  {
    if path[0] == SEP then 1 else 0
  }

  /** The component is `.` or `..`. */
  predicate Dots(comp: string) {
    comp == "." || comp == ".."
  }

  /** What resolved before resolves to the same node. */
  ghost predicate Resolves(t: Tree, t': Tree)
    requires Shape(t) && Shape(t')
  {
    forall n, rest :: n in t.nodes && n in t'.nodes && Resolve(t, n, "", rest).Some? ==>
      Resolve(t', n, "", rest) == Resolve(t, n, "", rest)
  }

  lemma AddAllResolve(t: Tree, c: nat, name: string, directory: bool, p: nat)
    requires CanAdd(t, c, p) && p in t.kids && p in t.depth && Shape(AddNode(t, c, name, directory, p))
    ensures Resolves(t, AddNode(t, c, name, directory, p))
  {
    hide Shape, Resolve, AddNode;
    forall n, rest | n in t.nodes && n in AddNode(t, c, name, directory, p).nodes && Resolve(t, n, "", rest).Some?
      ensures Resolve(AddNode(t, c, name, directory, p), n, "", rest) == Resolve(t, n, "", rest)
    {
      AddResolves(t, c, name, directory, p, n, "", rest);
    }
  }

  /** A child of a tidy tree has a good name. */
  lemma ChildGood(t: Tree, dir: nat, part: string, c: nat)
    requires Shape(t) && dir in t.nodes && c != 0
    requires forall k :: 0 <= k < |t.kids[dir]| ==> t.kids[dir][k] != 0 && t.kids[dir][k] in t.nodes
    requires c == Child(t.nodes, t.kids[dir], part)
    ensures c in t.nodes && (Tidy(t) ==> GoodName(part))
  {
    hide Named, Chained, GoodName;
    KidsKnown(t, dir);
    HungOf(t, c);
  }

  /** No component that starts before `p` is `.` or `..`. */
  ghost predicate FreeTo(path: string, p: nat) {
    forall q: nat, e: nat :: IsComponent(path, q, e) && q < p ==> !Dots(path[q..e])
  }

  lemma NoComponent(path: string)
    ensures path == "" ==> DotFree(path)
  {
  }

  lemma AllWalked(path: string)
    ensures FreeTo(path, |path|) <==> DotFree(path)
  {
    if FreeTo(path, |path|) {
      forall q: nat, e: nat | IsComponent(path, q, e) ensures path[q..e] != "." && path[q..e] != ".." {
        assert !Dots(path[q..e]);
      }
    }
  }

  /** The only component between two component starts is the one at the first. */
  lemma FreeNext(path: string, p: nat, e: nat, p': nat)
    requires p < e <= p' <= |path| && SEP !in path[p..e] && (e == |path| || path[e] == SEP)
    requires (forall i :: e <= i < p' ==> path[i] == SEP) && (p == 0 || path[p - 1] == SEP)
    ensures FreeTo(path, p') <==> FreeTo(path, p) && !Dots(path[p..e])
  {
    hide Dots;
    assert IsComponent(path, p, e);
    forall q: nat, f: nat | IsComponent(path, q, f) && p <= q < p' ensures q == p && f == e {
      SameComponent(path, p, e, p', q, f);
    }
  }

  lemma SameComponent(path: string, p: nat, e: nat, p': nat, q: nat, f: nat)
    requires p < e <= p' <= |path| && IsComponent(path, p, e) && IsComponent(path, q, f) && p <= q < p'
    requires forall i :: e <= i < p' ==> path[i] == SEP
    ensures q == p && f == e
  {
    NoSeparator(path, p, e, q - 1);
    NoSeparator(path, p, e, f);
    NoSeparator(path, q, f, q);
    NoSeparator(path, q, f, e);
  }

  lemma NoSeparator(path: string, p: nat, e: nat, i: int)
    requires p <= e <= |path| && SEP !in path[p..e]
    ensures p <= i < e ==> path[i] != SEP
  {
    if p <= i < e { assert path[i] == path[p..e][i - p]; }
  }

  lemma FreeStart(path: string, p: nat)
    requires p <= |path| && forall i :: 0 <= i < p ==> path[i] == SEP
    ensures FreeTo(path, p)
  {
    forall q: nat, e: nat | IsComponent(path, q, e) ensures q >= p {
      NoSeparator(path, q, e, q);
    }
  }

  /** One component further along the path. */
  lemma Walked(path: string, t: Tree, t': Tree, from: nat, s0: nat, dir: nat, c: nat, p: nat, e: nat, p': nat)
    requires Shape(t) && Shape(t') && from in t.nodes && from in t'.nodes && dir in t.nodes && dir in t'.nodes
    requires Resolves(t, t') && s0 <= p < e <= p' <= |path| && SEP !in path[p..e] && (e == |path| || path[e] == SEP)
    requires forall i :: e <= i < p' ==> path[i] == SEP
    requires path != "" && s0 == (if path[0] == SEP then 1 else 0) && (p == s0 || path[p - 1] == SEP)
    requires FreeTo(path, p) ==> Resolve(t, from, "", path[s0..p]) == Some(dir)
    requires !Dots(path[p..e]) ==> Enter(t', dir, path[p..e]) == Some(c)
    ensures FreeTo(path, p') <==> FreeTo(path, p) && !Dots(path[p..e])
    ensures FreeTo(path, p') ==> Resolve(t', from, "", path[s0..p']) == Some(c)
  {
    hide Shape, Resolve, Enter, Dots, FreeTo;
    FreeNext(path, p, e, p');
    if FreeTo(path, p') {
      var pre, comp := path[s0..p], path[p..e];
      ResolveJoin(t', from, pre, comp, dir);
      assert pre + comp == path[s0..e];
      SlashesAfter(t', from, path, s0, e, p', c);
    }
  }

  lemma {:induction false} SlashesAfter(t: Tree, n: nat, path: string, s0: nat, e: nat, p: nat, m: nat)
    requires Shape(t) && n in t.nodes && s0 <= e <= p <= |path| && (forall i :: e <= i < p ==> path[i] == SEP)
    requires Resolve(t, n, "", path[s0..e]) == Some(m)
    ensures Resolve(t, n, "", path[s0..p]) == Some(m)
    decreases p - e
  {
    hide Shape, Resolve;
    if e < p {
      ResolveSlash(t, n, path[s0..e], m);
      assert path[s0..e] + [SEP] == path[s0..e + 1];
      SlashesAfter(t, n, path, s0, e + 1, p, m);
    }
  }

  lemma SlashesStay(t: Tree, n: nat, path: string, s0: nat, p: nat)
    requires Shape(t) && n in t.nodes && path != "" && s0 == (if path[0] == SEP then 1 else 0)
    requires p <= |path| && (forall i :: 0 <= i < p ==> path[i] == SEP) && (p == |path| || path[p] != SEP)
    ensures s0 <= p && Resolve(t, n, "", path[s0..p]) == Some(n)
  {
    hide Shape, Resolve;
    assert path[s0..s0] == "";
    ResolveName(t, n, "", "");
    RootStays(t, n);
    if s0 <= p { SlashesAfter(t, n, path, s0, s0, p, n); }
  }

  /** The start and the rest of a path: from the root when it begins with a separator. */
  function Target(t: Tree, cwd: nat, path: string): Option<nat>
    requires Shape(t) && cwd in t.nodes && path != ""
  {
    if path[0] == SEP then Resolve(t, t.root, "", path[1..]) else Resolve(t, cwd, "", path)
  }

  /** A printed path finds its node from everywhere, and with `/..` behind it the node's parent; a name
      alone finds the child of the working directory. */
  lemma TargetMeans(t: Tree, cwd: nat, n: nat)
    requires Inv(t) && cwd in t.nodes && n in t.nodes
    ensures PathText(t, n) != "" && Target(t, cwd, PathText(t, n)) == Some(n)
    ensures Target(t, cwd, PathText(t, n) + "/..") == Some(if n == t.root then n else t.nodes[n].parent)
    ensures Target(t, cwd, "..") == Some(if cwd == t.root then cwd else t.nodes[cwd].parent)
    ensures n != t.root && t.nodes[n].parent == cwd ==>
      t.nodes[n].name != "" && Target(t, cwd, t.nodes[n].name) == Some(n)
  {
    hide Shape, Tidy, Enter, Resolve, PathText;
    RootIn(t);
    FindInvertsPath(t, n);
    PathUp(t, n);
    PathLong(t, n);
    assert (PathText(t, n) + "/..")[1..] == PathText(t, n)[1..] + "/..";
    ResolveName(t, cwd, "", "..");
    assert "" + ".." == "..";
    EnterMeans(t, cwd, n);
    if n != t.root && t.nodes[n].parent == cwd {
      EnterChild(t, n);
      GoodNames(t, n);
      ResolveName(t, cwd, "", t.nodes[n].name);
      assert "" + t.nodes[n].name == t.nodes[n].name;
    }
  }

  lemma PathLong(t: Tree, n: nat)
    requires Shape(t) && n in t.nodes
    ensures PathText(t, n) != ""
  {
    hide Shape, Hung;
    HungOf(t, n);
  }

  lemma GoodNames(t: Tree, n: nat)
    requires Tidy(t) && n in t.nodes && n != t.root
    ensures GoodName(t.nodes[n].name) && t.nodes[n].name != "" && t.nodes[n].name[0] != SEP
  {
  }

  /** A file cannot have anything below it: when a part of the path leads to a file and more follows, the
      path is refused. */
  lemma FileInTheWay(t: Tree, cwd: nat, path: string, e: nat)
    requires Shape(t) && cwd in t.nodes && DotFree(path) && 0 < e < |path| && path[e - 1] != SEP && path[e] == SEP
    requires Skip(path, e) < |path|
    requires Target(t, cwd, path[..e]).Some? && !t.nodes[Target(t, cwd, path[..e]).value].directory
    ensures Refused(t, cwd, path)
  {
    hide Shape, Enter, Resolve, Blocked, DotFree;
    RootIn(t);
    var s, n := Start(path), Base(t, cwd, path);
    var p := Skip(path, 0);
    assert path[..e][0] == path[0] && path[..e][1..] == path[1..e];
    SkipBefore(path, 0, e);
    SkipFirst(path);
    SlashesBefore(t, n, path, s, e);
    FileBlocks(t, n, path, p, e);
  }

  lemma {:induction false} SkipBefore(path: string, p: nat, e: nat)
    requires p < e <= |path| && path[e - 1] != SEP
    ensures Skip(path, p) < e && (forall i :: p <= i < Skip(path, p) ==> path[i] == SEP)
    decreases e - p
  {
    if path[p] == SEP { SkipBefore(path, p + 1, e); }
  }

  lemma SkipFirst(path: string)
    requires path != ""
    ensures Skip(path, 0) == Skip(path, Start(path))
  {
  }

  /** Separators in front change nothing. */
  lemma {:induction false} SlashesBefore(t: Tree, n: nat, path: string, p: nat, e: nat)
    requires Shape(t) && n in t.nodes && p < e <= |path| && path[e - 1] != SEP
    ensures Skip(path, p) < e && Resolve(t, n, "", path[p..e]) == Resolve(t, n, "", path[Skip(path, p)..e])
    decreases e - p
  {
    hide Shape, Enter, Resolve;
    if path[p] == SEP {
      SlashesBefore(t, n, path, p + 1, e);
      var x := path[p..e];
      assert x[0] == SEP && x[1..] == path[p + 1..e];
      ResolveStep(t, n, "", x);
      RootStays(t, n);
    }
  }

  lemma {:induction false} FileBlocks(t: Tree, n: nat, path: string, p: nat, e: nat)
    requires Shape(t) && n in t.nodes && DotFree(path) && p < e < |path| && path[p] != SEP && path[e - 1] != SEP
    requires path[e] == SEP && Skip(path, e) < |path| && (p == 0 || path[p - 1] == SEP)
    requires var r := Resolve(t, n, "", path[p..e]); r.Some? && r.value in t.nodes && !t.nodes[r.value].directory
    ensures Blocked(t, n, path, p)
    decreases e - p
  {
    hide Shape, Enter, Resolve, Blocked, DotFree, End, Skip, Cut, ChildOf, Child;
    var f := End(path, p);
    EndIs(path, p);
    var comp := path[p..f];
    NotDots(path, p, f);
    BlockedStep(t, n, path, p);
    EnterNamed(t, n, comp);
    ResolveName(t, n, "", comp);
    assert "" + comp == comp;
    if f < e {
      assert path[p..e] == comp + [SEP] + path[f + 1..e];
      ResolveSplit(t, n, "", comp, path[f + 1..e]);
      var c := ChildOf(t, n, Cut(comp));
      assert Enter(t, n, comp) == Some(c);
      SlashesBefore(t, c, path, f + 1, e);
      SkipAfter(path, f);
      SkipBefore(path, f, e);
      if t.nodes[c].directory { FileBlocks(t, c, path, Skip(path, f), e); }
    } else {
      EndBefore(path, p, e);
      assert path[p..e] == comp;
    }
  }

  lemma SkipAfter(path: string, f: nat)
    requires f < |path| && path[f] == SEP
    ensures Skip(path, f) == Skip(path, f + 1) > f && path[Skip(path, f) - 1] == SEP
  {
    LastSkipped(path, f + 1);
  }

  lemma {:induction false} LastSkipped(path: string, p: nat)
    requires 0 < p <= |path| && path[p - 1] == SEP
    ensures path[Skip(path, p) - 1] == SEP
    decreases |path| - p
  {
    if p < |path| && path[p] == SEP { LastSkipped(path, p + 1); }
  }

  lemma {:induction false} EndIs(path: string, p: nat)
    requires p < |path| && path[p] != SEP
    ensures var f := End(path, p); p < f && SEP !in path[p..f] && (f == |path| || path[f] == SEP)
    decreases |path| - p
  {
    var f := End(path, p);
    if p + 1 < |path| && path[p + 1] != SEP {
      EndIs(path, p + 1);
      assert path[p..f] == [path[p]] + path[p + 1..f];
    }
  }

  /** The first end of a component is not behind any other place where one ends. */
  lemma {:induction false} EndBefore(path: string, p: nat, e: nat)
    requires p <= e <= |path| && (e == |path| || path[e] == SEP)
    ensures End(path, p) <= e
    decreases e - p
  {
    if p < e && path[p] != SEP { EndBefore(path, p + 1, e); }
  }

  lemma NotDots(path: string, p: nat, f: nat)
    requires DotFree(path) && p < f <= |path| && SEP !in path[p..f] && (f == |path| || path[f] == SEP)
    requires p == 0 || path[p - 1] == SEP
    ensures path[p..f] != "." && path[p..f] != ".."
  {
    assert IsComponent(path, p, f);
  }

  lemma EnterNamed(t: Tree, n: nat, comp: string)
    requires Shape(t) && n in t.nodes && comp != "" && comp != "." && comp != ".."
    ensures var c := ChildOf(t, n, Cut(comp)); Enter(t, n, comp) == (if c == 0 then None else Some(c))
    ensures var c := ChildOf(t, n, Cut(comp)); c != 0 ==> c in t.nodes
  {
    hide Named, Hung;
    ChildStands(t, n, Cut(comp));
  }

  lemma NoZero(t: Tree)
    requires Shape(t)
    ensures 0 !in t.nodes
  {
  }

  lemma ResolveStep(t: Tree, n: nat, part: string, rest: string)
    requires Shape(t) && n in t.nodes
    ensures rest == "" ==> Resolve(t, n, part, rest) == Enter(t, n, part)
    ensures rest != "" && rest[0] != SEP ==> Resolve(t, n, part, rest) == Resolve(t, n, part + [rest[0]], rest[1..])
    ensures rest != "" && rest[0] == SEP ==>
      var e := Enter(t, n, part);
      Resolve(t, n, part, rest) == if e.None? then None else Resolve(t, e.value, "", rest[1..])
  {
    hide Shape;
  }

  lemma ChildStep(nodes: map<nat, Node>, list: seq<nat>, k: nat, name: string)
    requires k <= |list| && forall i :: 0 <= i < |list| ==> list[i] != 0 && list[i] in nodes
    ensures k == |list| ==> Child(nodes, list[k..], name) == 0
    ensures k < |list| && nodes[list[k]].name == name ==> Child(nodes, list[k..], name) == list[k]
    ensures k < |list| && nodes[list[k]].name != name ==>
      Child(nodes, list[k..], name) == Child(nodes, list[k + 1..], name)
  {
    if k < |list| { assert list[k..][1..] == list[k + 1..]; }
  }

  /** Directory creation goes through files too, and removal looks for children of directories only: a
      file with a child can be removed, and the child is left without a parent. */
  method RemovedFileOrphans() returns (fs: FileTree, child: nat)
    ensures fresh(fs) && child in fs.nodes && fs.nodes[child].parent !in fs.nodes && !fs.Valid()
  {
    hide Chained, Named, Hung, Resolve, Enter, Shape, Extends, DotFree, Tidy, PathOf, MadeAbove, ChildAt, RemoveNode,
         Blocked, Spelled, Child, ChildOf, IsComponent;
    fs := new FileTree();
    RootIn(fs.T());
    Plain();
    BlockedStep(fs.T(), fs.root, "f", 0);
    var file := fs.CreateFilePath("f", fs.root);
    ghost var t := fs.T();
    RootPath(t);
    child := fs.CreateDirPath("f/d", fs.root);
    ghost var u := fs.T();
    FileHasChild(t, u, file, child);
    var ok, n, k := fs.Remove("f", fs.root, fs.root);
    OrphanLeft(u, file, child, k);
  }

  /** A directory is made for the component `.`, and the path that made it does not lead to it. */
  method DotIsMade() returns (fs: FileTree, dir: nat)
    ensures fresh(fs) && fs.Valid() && dir in fs.nodes && fs.root in fs.nodes && dir != fs.root
    ensures Target(fs.T(), fs.root, ".") == Some(fs.root) && PathText(fs.T(), dir) == "/." && !Tidy(fs.T())
  {
    hide Chained, Named, Hung, Resolve, Shape, Extends, Tidy, PathOf, MadeAbove;
    fs := new FileTree();
    RootIn(fs.T());
    dir := fs.CreateDirPath(".", fs.root);
    RootPath(fs.T());
    DotPath();
    ResolveName(fs.T(), fs.root, "", ".");
    assert "" + "." == ".";
  }

  lemma DotPath()
    ensures !DotFree(".") && Skip(".", 0) == 0 && Spelled(".", 0) == "/."
  {
    assert IsComponent(".", 0, 1) && "."[0..1] == ".";
  }

  lemma RootPath(t: Tree)
    requires Shape(t)
    ensures t.root in t.nodes && PathOf(t, t.root) == ""
  {
    hide Chained, Named, Hung;
  }

  lemma Plain()
    ensures DotFree("f") && DotFree("f/d") && Skip("f", 0) == 0 && Spelled("f", 0) == "/f"
    ensures End("f", 0) == 1 && Skip("f", 1) == 1
  {
    hide DotFree;
    NoDots("f");
    NoDots("f/d");
  }

  lemma NoDots(path: string)
    requires '.' !in path
    ensures DotFree(path)
  {
    forall q: nat, e: nat | IsComponent(path, q, e) ensures path[q..e] != "." && path[q..e] != ".." {
      assert path[q..e][0] == path[q];
    }
  }

  /** The directory made at `f/d` is a child of the file at `f`. */
  lemma FileHasChild(t: Tree, u: Tree, file: nat, child: nat)
    requires Shape(t) && Inv(u) && Extends(t, u) && file in t.nodes && PathOf(t, file) == "/f" && file != t.root
    requires u.root in u.nodes && Target(u, u.root, "f/d") == Some(child)
    ensures Target(u, u.root, "f") == Some(file) && file in u.nodes && file in u.kids && u.kids[file] != []
    ensures u.nodes[file].directory == t.nodes[file].directory
    ensures child in u.nodes && child != file && u.nodes[child].parent == file && file != u.root
  {
    hide Shape, Resolve, PathOf, Tidy, Child;
    WayKept(t, u, file);
    FindInvertsPath(u, file);
    assert PathText(u, file)[1..] == "f";
    ResolveSplit(u, u.root, "", "f", "d");
    assert "f" + [SEP] + "d" == "f/d";
    ResolveName(u, file, "", "d");
    assert "" + "d" == "d" && "d" != "." && "d" != "..";
    assert Enter(u, file, "d") == Some(child);
    assert child == ChildOf(u, file, "d");
    ChildStands(u, file, "d");
    HungOf(u, child);
  }

  lemma OrphanLeft(u: Tree, file: nat, child: nat, k: nat)
    requires file in u.nodes && ChildAt(u, file, u.nodes[file].parent, k) && child in u.nodes && child != file
    ensures u.nodes[file].parent in u.kids
    ensures var t := RemoveNode(u, file, u.nodes[file].parent, k);
      child in t.nodes && t.nodes[child].parent == u.nodes[child].parent && file !in t.nodes
  {
    hide RemoveNode, Shape, Unlinked;
    RemoveNodes(u, file, u.nodes[file].parent, k);
  }
}

/** Removing files and directories: when each answer comes, and what happens to paths. */
module TreeRemoval {
  import opened Wrappers
  import opened TreeModel
  import opened TreePaths

  // ---------- Which child a name means ----------

  /** Child number `k` is the first of that name, and the ones before it exist. */
  predicate FirstAt(nodes: Nodes, children: seq<nat>, name: string, k: int) {
    0 <= k < |children| && Named(nodes, children[k], name)
    && forall j :: 0 <= j < k ==> Exists(nodes, children[j]) && !Named(nodes, children[j], name)
  }

  ghost predicate IsFirst(nodes: Nodes, children: seq<nat>, name: string, c: nat) {
    exists k :: FirstAt(nodes, children, name, k) && children[k] == c
  }

  lemma {:induction false} FirstNamedIff(nodes: Nodes, children: seq<nat>, name: string, c: nat)
    ensures FirstNamed(nodes, children, name) == Some(c) <==> IsFirst(nodes, children, name, c)
  {
    if children != [] {
      var rest := children[1..];
      FirstNamedIff(nodes, rest, name, c);
      if FirstAt(nodes, children, name, 0) && children[0] == c { assert FirstNamed(nodes, children, name) == Some(c); }
      if Exists(nodes, children[0]) && !Named(nodes, children[0], name) {
        forall k | FirstAt(nodes, children, name, k) ensures k > 0 && FirstAt(nodes, rest, name, k - 1) {
          assert forall j :: 0 <= j < k - 1 ==> rest[j] == children[j + 1];
        }
        forall k | FirstAt(nodes, rest, name, k) ensures FirstAt(nodes, children, name, k + 1) && rest[k] == children[k + 1] {
          forall j | 0 <= j < k + 1 ensures Exists(nodes, children[j]) && !Named(nodes, children[j], name) {
            if j > 0 { assert rest[j - 1] == children[j]; }
          }
        }
      } else {
        forall k | FirstAt(nodes, children, name, k) ensures k == 0 {
        }
      }
    }
  }

  /** Looking a name up finds the first child of that name, in any tree; a dangling child before it hides it. */
  lemma LookupIff(nodes: Nodes, parent: nat, name: string, c: nat)
    ensures Lookup(nodes, parent, name) == Some(c) <==> IsFirst(nodes, Children(nodes, parent), name, c)
  {
    FirstNamedIff(nodes, Children(nodes, parent), name, c);
  }

  // ---------- Unlisting a leaf ----------

  lemma {:induction false} FirstNamedWithout(nodes: Nodes, after: Nodes, children: seq<nat>, ino: nat, name: string)
    requires Extends(nodes, after) && forall c <- children :: Exists(nodes, c)
    ensures
      var was, now := FirstNamed(nodes, children, name), FirstNamed(after, Without(children, ino), name);
      now != Some(ino) && (was != Some(ino) ==> now == was)
  {
    if children != [] {
      var c, rest := children[0], children[1..];
      assert c in children && forall d <- rest :: d in children;
      assert SameIdentity(nodes[c - 1], after[c - 1]);
      FirstNamedWithout(nodes, after, rest, ino, name);
      FirstNamedHead(nodes, c, rest, name);
      FirstNamedHead(after, c, Without(rest, ino), name);
      assert [c] + rest == children;
      assert Without(children, ino) == if c == ino then Without(rest, ino) else [c] + Without(rest, ino);
      hide FirstNamed, Without, Extends, SameIdentity;
    }
  }

  lemma FirstNamedHead(nodes: Nodes, c: nat, rest: seq<nat>, name: string)
    requires Exists(nodes, c)
    ensures FirstNamed(nodes, [c] + rest, name) == if nodes[c - 1].name == name then Some(c) else FirstNamed(nodes, rest, name)
  {
    assert ([c] + rest)[1..] == rest;
  }

  lemma LookupUnlist(nodes: Nodes, parent: nat, child: nat, dir: nat, name: string)
    requires Wf(nodes)
    ensures
      var was, now := Lookup(nodes, dir, name), Lookup(Unlist(nodes, parent, child), dir, name);
      && (dir == parent && IsDir(nodes, parent) ==> now != Some(child) && (was != Some(child) ==> now == was))
      && (dir != parent ==> now == was)
  {
    var after := Unlist(nodes, parent, child);
    UnlistKeepsWf(nodes, parent, child);
    ChildrenExist(nodes, dir);
    LookupFinds(nodes, dir, name);
    FirstNamedWithout(nodes, after, Children(nodes, dir), child, name);
    FirstNamedWithout(nodes, after, Children(nodes, dir), 0, name);
    NoneWithout(Children(nodes, dir), 0);
    if Exists(nodes, dir) && (dir != parent || !IsDir(nodes, parent)) { assert after[dir - 1] == nodes[dir - 1]; }
    assert Children(after, dir) == if dir == parent then Without(Children(nodes, dir), child) else Children(nodes, dir);
    hide Wf, Unlist, FirstNamed, Without;
  }

  lemma {:induction false} NoneWithout(children: seq<nat>, ino: nat)
    requires forall c <- children :: c >= 1
    ensures ino == 0 ==> Without(children, ino) == children
  {
    if children != [] && ino == 0 {
      assert children[0] in children && forall c <- children[1..] :: c in children;
      NoneWithout(children[1..], ino);
    }
  }

  lemma NotListedElsewhere(nodes: Nodes, parent: nat, child: nat, dir: nat, name: string)
    requires Wf(nodes) && child in Children(nodes, parent) && dir != parent
    ensures Lookup(nodes, dir, name) != Some(child)
  {
    ChildrenExist(nodes, parent);
    LookupFinds(nodes, dir, name);
  }

  /** Some start of the path leads to the node. */
  ghost predicate Through(nodes: Nodes, from: nat, p: Path, child: nat) {
    exists q :: q <= p && Resolve(nodes, from, q) == Some(child)
  }

  lemma ThroughBelow(nodes: Nodes, from: nat, p: Path, child: nat)
    requires p != [] && Lookup(nodes, from, p[0]).Some? && Through(nodes, Lookup(nodes, from, p[0]).value, p[1..], child)
    ensures Through(nodes, from, p, child)
  {
    var c := Lookup(nodes, from, p[0]).value;
    var q :| q <= p[1..] && Resolve(nodes, c, q) == Some(child);
    var longer := [p[0]] + q;
    assert longer[1..] == q && longer[0] == p[0];
    assert longer <= p by { assert p == [p[0]] + p[1..]; }
    assert Resolve(nodes, from, longer) == Some(child);
  }

  lemma LeafEnds(nodes: Nodes, leaf: nat, p: Path)
    requires Children(nodes, leaf) == []
    ensures Resolve(nodes, leaf, p).Some? ==> p == [] && Resolve(nodes, leaf, p) == Some(leaf)
  {
  }

  /**
   * Unlisting a child that has no children of its own: no path leads to it any more, every path that led elsewhere leads
   * there still, and a path that now leads somewhere new went through it, to a younger sibling of its name.
   */
  lemma {:induction false} ResolveUnlist(nodes: Nodes, parent: nat, child: nat, from: nat, p: Path)
    requires Wf(nodes) && child in Children(nodes, parent) && Children(nodes, child) == [] && from != child
    ensures
      var was, now := Resolve(nodes, from, p), Resolve(Unlist(nodes, parent, child), from, p);
      && now != Some(child)
      && (was.Some? && was != Some(child) ==> now == was)
      && (now != was ==> Through(nodes, from, p, child))
    decreases |p|
  {
    var after := Unlist(nodes, parent, child);
    UnlistKeepsWf(nodes, parent, child);
    ChildrenExist(nodes, parent);
    if p != [] {
      LookupUnlist(nodes, parent, child, from, p[0]);
      LookupFinds(nodes, from, p[0]);
      LookupFinds(after, from, p[0]);
      WithoutKeeps(Children(nodes, parent), child);
      var was, now := Lookup(nodes, from, p[0]), Lookup(after, from, p[0]);
      if from != parent { NotListedElsewhere(nodes, parent, child, from, p[0]); }
      hide Unlist, Wf;
      if was == Some(child) {
        LeafEnds(nodes, child, p[1..]);
        assert [p[0]][1..] == [] && [p[0]] <= p;
        assert Resolve(nodes, from, [p[0]]) == Some(child);
        if now.Some? { ResolveUnlist(nodes, parent, child, now.value, p[1..]); }
      } else if was.Some? {
        ResolveUnlist(nodes, parent, child, was.value, p[1..]);
        if Through(nodes, was.value, p[1..], child) { ThroughBelow(nodes, from, p, child); }
      }
    }
  }

  // ---------- The two removals ----------

  /** Node `child` of `parent` is gone: no other node changed, its directory lists all the others in order, no path leads to it. */
  ghost predicate Gone(nodes: Nodes, after: Nodes, parent: nat, child: nat) {
    && |after| == |nodes| && Wf(after) && Extends(nodes, after)
    && (forall i :: 0 <= i < |nodes| && i != parent - 1 ==> after[i] == nodes[i])
    && (forall c :: c in Children(after, parent) <==> c in Children(nodes, parent) && c != child)
    && (forall from, p :: from != child ==> Resolve(after, from, p) != Some(child))
    && (forall from, p :: from != child && Resolve(nodes, from, p).Some? && Resolve(nodes, from, p) != Some(child)
          ==> Resolve(after, from, p) == Resolve(nodes, from, p))
  }

  lemma UnlistedIsGone(nodes: Nodes, parent: nat, child: nat)
    requires Wf(nodes) && child in Children(nodes, parent) && Children(nodes, child) == []
    ensures Gone(nodes, Unlist(nodes, parent, child), parent, child)
  {
    UnlistKeepsWf(nodes, parent, child);
    WithoutKeeps(Children(nodes, parent), child);
    var after := Unlist(nodes, parent, child);
    hide Wf, Extends;
    forall from: nat, p: Path | from != child
      ensures Resolve(after, from, p) != Some(child)
      ensures Resolve(nodes, from, p).Some? && Resolve(nodes, from, p) != Some(child) ==> Resolve(after, from, p) == Resolve(nodes, from, p)
    {
      ResolveUnlist(nodes, parent, child, from, p);
    }
  }

  /** `c` is the child the name means: the first of that name. */
  ghost predicate Means(nodes: Nodes, parent: nat, name: string, c: nat) {
    IsFirst(nodes, Children(nodes, parent), name, c)
  }

  /**
   * What `rmdir` answers and does: removed exactly if the name means an empty directory, which is then gone; otherwise
   * nothing changes, and the answer says whether the name means a directory with children, a file, or nothing.
   */
  ghost predicate RmdirMeans(nodes: Nodes, parent: nat, name: string, after: Nodes, result: RmdirResult) {
    match result
    case NoEntry => after == nodes && forall c :: !Means(nodes, parent, name, c)
    case NotDir => after == nodes && exists c :: Means(nodes, parent, name, c) && nodes[c - 1].File?
    case NotEmpty =>
      after == nodes && exists c :: Means(nodes, parent, name, c) && nodes[c - 1].Directory? && |nodes[c - 1].children| > 0
    case Removed =>
      exists c :: Means(nodes, parent, name, c) && nodes[c - 1].Directory? && |nodes[c - 1].children| == 0
        && Gone(nodes, after, parent, c)
  }

  lemma MeantChild(nodes: Nodes, parent: nat, name: string)
    requires Wf(nodes)
    ensures
      match Lookup(nodes, parent, name)
      case None => forall c :: !Means(nodes, parent, name, c)
      case Some(c) => Means(nodes, parent, name, c) && c in Children(nodes, parent) && Exists(nodes, c)
  {
    forall c: nat ensures Means(nodes, parent, name, c) <==> Lookup(nodes, parent, name) == Some(c) {
      LookupIff(nodes, parent, name, c);
    }
    LookupFinds(nodes, parent, name);
  }

  lemma RemoveDirMeans(nodes: Nodes, parent: nat, name: string)
    requires Wf(nodes)
    ensures
      var (after, result) := RemoveDir(nodes, parent, name);
      RmdirMeans(nodes, parent, name, after, result)
  {
    MeantChild(nodes, parent, name);
    hide Wf, Means, Gone, Unlist;
    var found := Lookup(nodes, parent, name);
    if found.Some? && IsDir(nodes, found.value) && Children(nodes, found.value) == [] {
      UnlistedIsGone(nodes, parent, found.value);
    }
  }

  /** What removing a file answers and does: removed exactly if the name means a file, which is then gone. */
  ghost predicate UnlinkMeans(nodes: Nodes, parent: nat, name: string, after: Nodes, removed: bool) {
    if removed then exists c :: Means(nodes, parent, name, c) && nodes[c - 1].File? && Gone(nodes, after, parent, c)
    else after == nodes && forall c :: Means(nodes, parent, name, c) ==> nodes[c - 1].Directory?
  }

  lemma RemoveFileMeans(nodes: Nodes, parent: nat, name: string)
    requires Wf(nodes)
    ensures
      var (after, removed) := RemoveFile(nodes, parent, name);
      UnlinkMeans(nodes, parent, name, after, removed)
  {
    MeantChild(nodes, parent, name);
    OneMeant(nodes, parent, name);
    hide Wf, Means, Gone, Unlist;
    var found := Lookup(nodes, parent, name);
    if found.Some? && !IsDir(nodes, found.value) { UnlistedIsGone(nodes, parent, found.value); }
  }

  lemma OneMeant(nodes: Nodes, parent: nat, name: string)
    ensures forall c, d :: Means(nodes, parent, name, c) && Means(nodes, parent, name, d) ==> c == d
  {
    forall c: nat, d: nat | Means(nodes, parent, name, c) && Means(nodes, parent, name, d) ensures c == d {
      LookupIff(nodes, parent, name, c);
      LookupIff(nodes, parent, name, d);
    }
  }
}

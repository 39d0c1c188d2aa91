/** Paths in the inode arena: what resolves where, and how adding nodes changes that. */
module TreePaths {
  import opened Wrappers
  import opened TreeModel

  type Path = seq<string>

  predicate Named(nodes: Nodes, ino: nat, name: string) {
    Exists(nodes, ino) && nodes[ino - 1].name == name
  }

  /** Follows `path` by name lookups, as the kernel does. */
  function Resolve(nodes: Nodes, from: nat, path: Path): Option<nat>
    decreases |path|
  {
    if path == [] then if Exists(nodes, from) then Some(from) else None
    else match Lookup(nodes, from, path[0])
      case None => None
      case Some(child) => Resolve(nodes, child, path[1..])
  }

  /** `to` is listed below `from` under the names of `path`; siblings may share a name. */
  ghost predicate Reaches(nodes: Nodes, from: nat, path: Path, to: nat)
    decreases |path|
  {
    if path == [] then from == to && Exists(nodes, from)
    else exists c :: c in Children(nodes, from) && Named(nodes, c, path[0]) && Reaches(nodes, c, path[1..], to)
  }

  function Init(path: Path): Path
    requires path != []
  {
    path[..|path| - 1]
  }

  function Last(path: Path): string
    requires path != []
  {
    path[|path| - 1]
  }

  // ---------- Lookups ----------

  lemma {:induction false} FirstNamedIsFirst(nodes: Nodes, children: seq<nat>, name: string)
    requires forall c <- children :: Exists(nodes, c)
    ensures
      match FirstNamed(nodes, children, name)
      case Some(c) => c in children && Named(nodes, c, name)
      case None => forall c <- children :: !Named(nodes, c, name)
  {
    if children != [] {
      assert children[0] in children;
      FirstNamedIsFirst(nodes, children[1..], name);
      assert forall c <- children :: c == children[0] || c in children[1..];
    }
  }

  lemma ChildrenExist(nodes: Nodes, ino: nat)
    requires Wf(nodes)
    ensures forall c <- Children(nodes, ino) :: Exists(nodes, c) && ChildOk(nodes, ino, c)
  {
    if IsDir(nodes, ino) { assert NodeOk(nodes, ino); }
  }

  lemma LookupFinds(nodes: Nodes, parent: nat, name: string)
    requires Wf(nodes)
    ensures
      match Lookup(nodes, parent, name)
      case Some(c) => c in Children(nodes, parent) && Named(nodes, c, name) && ChildOk(nodes, parent, c)
      case None => forall c <- Children(nodes, parent) :: !Named(nodes, c, name)
  {
    ChildrenExist(nodes, parent);
    FirstNamedIsFirst(nodes, Children(nodes, parent), name);
  }

  /** Appending one child changes the search only when it failed before. */
  lemma {:induction false} FirstNamedAppend(nodes: Nodes, after: Nodes, children: seq<nat>, extra: nat, name: string)
    requires Extends(nodes, after) && Exists(after, extra)
    requires forall c <- children :: Exists(nodes, c)
    ensures FirstNamed(after, children, name) == FirstNamed(nodes, children, name)
    ensures FirstNamed(after, children + [extra], name)
      == match FirstNamed(nodes, children, name)
         case Some(c) => Some(c)
         case None => if Named(after, extra, name) then Some(extra) else None
  {
    var longer := children + [extra];
    if children == [] {
      assert longer[1..] == [];
    } else {
      assert longer[0] == children[0] && longer[1..] == children[1..] + [extra];
      assert children[0] in children;
      assert SameIdentity(nodes[children[0] - 1], after[children[0] - 1]);
      FirstNamedAppend(nodes, after, children[1..], extra, name);
    }
  }

  lemma LookupAttach(nodes: Nodes, parent: nat, node: TreeNode, dir: nat, name: string)
    requires Wf(nodes) && FreshNode(nodes, node)
    ensures Exists(nodes, dir) ==>
      Lookup(Attach(nodes, parent, node), dir, name)
        == match Lookup(nodes, dir, name)
           case Some(c) => Some(c)
           case None => if dir == parent && IsDir(nodes, parent) && node.name == name then Some(NextInode(nodes)) else None
    ensures parent != NextInode(nodes) ==> Lookup(Attach(nodes, parent, node), NextInode(nodes), name) == None
  {
    AttachExtends(nodes, parent, node);
    AttachedChildren(nodes, parent, node, dir);
    AttachedChildren(nodes, parent, node, NextInode(nodes));
    ChildrenExist(nodes, dir);
    FirstNamedAppend(nodes, Attach(nodes, parent, node), Children(nodes, dir), NextInode(nodes), name);
  }

  // ---------- Resolution ----------

  lemma {:induction false} ResolveAppend(nodes: Nodes, from: nat, p: Path, q: Path)
    requires Wf(nodes)
    ensures Resolve(nodes, from, p + q)
      == match Resolve(nodes, from, p)
         case None => None
         case Some(mid) => Resolve(nodes, mid, q)
    decreases |p|
  {
    if p == [] {
      assert p + q == q;
      if q != [] { LookupFinds(nodes, from, q[0]); }
    } else {
      assert (p + q)[0] == p[0] && (p + q)[1..] == p[1..] + q;
      if Lookup(nodes, from, p[0]).Some? {
        ResolveAppend(nodes, Lookup(nodes, from, p[0]).value, p[1..], q);
      }
    }
  }

  lemma ResolveSnoc(nodes: Nodes, from: nat, p: Path, name: string)
    requires Wf(nodes)
    ensures Resolve(nodes, from, p + [name])
      == match Resolve(nodes, from, p)
         case None => None
         case Some(d) => Lookup(nodes, d, name)
  {
    ResolveAppend(nodes, from, p, [name]);
    if Resolve(nodes, from, p).Some? {
      LookupFinds(nodes, Resolve(nodes, from, p).value, name);
      assert [name][1..] == [];
    }
  }

  /** A resolved node is at or below the start; its last step is a child that points back to its directory. */
  lemma {:induction false} ResolvedNode(nodes: Nodes, from: nat, p: Path)
    requires Wf(nodes) && Resolve(nodes, from, p).Some?
    ensures
      var ino := Resolve(nodes, from, p).value;
      && Exists(nodes, ino) && from <= ino && (p == [] <==> ino == from)
      && (p != [] ==> Resolve(nodes, from, Init(p)) == Some(nodes[ino - 1].parent)
                      && IsDir(nodes, nodes[ino - 1].parent) && nodes[ino - 1].name == Last(p))
    decreases |p|
  {
    if p != [] {
      assert Init(p) + [Last(p)] == p;
      ResolveSnoc(nodes, from, Init(p), Last(p));
      ResolvedNode(nodes, from, Init(p));
      var d := Resolve(nodes, from, Init(p)).value;
      LookupFinds(nodes, d, Last(p));
    }
  }

  /** In a forest a node has one path from any start. */
  lemma {:induction false} ResolveUnique(nodes: Nodes, from: nat, p: Path, q: Path)
    requires Wf(nodes) && Resolve(nodes, from, p).Some? && Resolve(nodes, from, p) == Resolve(nodes, from, q)
    ensures p == q
    decreases |p|
  {
    hide Resolve, Wf, IsDir, Init, Last;
    ResolvedNode(nodes, from, p);
    ResolvedNode(nodes, from, q);
    if p != [] && q != [] {
      InitLast(p);
      InitLast(q);
      ResolveUnique(nodes, from, Init(p), Init(q));
    }
  }

  lemma InitLast(p: Path)
    requires p != []
    ensures p == Init(p) + [Last(p)] && |Init(p)| < |p|
  {
  }

  /** Subtrees of two siblings share no node. */
  lemma {:induction false} SiblingsDisjoint(nodes: Nodes, a: nat, b: nat, p: Path, q: Path)
    requires Wf(nodes) && a != b && Exists(nodes, a) && Exists(nodes, b)
    requires nodes[a - 1].parent == nodes[b - 1].parent && nodes[a - 1].parent < a && nodes[b - 1].parent < b
    requires Resolve(nodes, a, p).Some?
    ensures Resolve(nodes, a, p) != Resolve(nodes, b, q)
    decreases |p|
  {
    if Resolve(nodes, a, p) == Resolve(nodes, b, q) {
      ResolvedNode(nodes, a, p);
      ResolvedNode(nodes, b, q);
      if p != [] && q != [] {
        SiblingsDisjoint(nodes, a, b, Init(p), Init(q));
      } else if p == [] && q != [] {
        ResolvedNode(nodes, b, Init(q));
      } else if p != [] {
        ResolvedNode(nodes, a, Init(p));
      }
      assert false;
    }
  }

  /**
   * Adding a node, under any parent number, changes no path that resolved, and makes exactly one new path resolve if the
   * parent is a directory the start leads to; a node added under a file or under no node at all is not reachable.
   */
  lemma {:induction false} ResolveAttach(nodes: Nodes, parent: nat, node: TreeNode, from: nat, p: Path)
    requires Wf(nodes) && FreshNode(nodes, node) && Exists(nodes, from)
    ensures Resolve(Attach(nodes, parent, node), from, p)
      == if Resolve(nodes, from, p).Some? then Resolve(nodes, from, p)
         else if p != [] && Resolve(nodes, from, Init(p)) == Some(parent) && IsDir(nodes, parent) && Last(p) == node.name
         then Some(NextInode(nodes))
         else None
    decreases |p|
  {
    var after := Attach(nodes, parent, node);
    AttachExtends(nodes, parent, node);
    if p != [] {
      LookupAttach(nodes, parent, node, from, p[0]);
      LookupFinds(nodes, from, p[0]);
      if Lookup(nodes, from, p[0]).Some? {
        var c := Lookup(nodes, from, p[0]).value;
        ResolveAttach(nodes, parent, node, c, p[1..]);
        if |p| > 1 {
          assert Init(p)[0] == p[0] && Init(p)[1..] == Init(p[1..]);
        }
      } else {
        if |p| > 1 {
          assert Init(p)[0] == p[0];
          LookupAttach(nodes, parent, node, from, p[1]);
        }
      }
    }
  }

  /** Nothing changes below a start whose subtree does not hold the directory added to. */
  lemma ResolveElsewhere(nodes: Nodes, parent: nat, node: TreeNode, from: nat, p: Path)
    requires Wf(nodes) && FreshNode(nodes, node) && Exists(nodes, from)
    requires forall q :: Resolve(nodes, from, q) != Some(parent)
    ensures Resolve(Attach(nodes, parent, node), from, p) == Resolve(nodes, from, p)
  {
    ResolveAttach(nodes, parent, node, from, p);
  }

  lemma LookupKept(nodes: Nodes, ino: nat, node: TreeNode, parent: nat, name: string)
    requires Wf(nodes) && Exists(nodes, ino) && SameShape(nodes[ino - 1], node)
    ensures Lookup(nodes[ino - 1 := node], parent, name) == Lookup(nodes, parent, name)
  {
    var after := nodes[ino - 1 := node];
    UpdateKeepsWf(nodes, ino, node);
    ChildrenExist(nodes, parent);
    FirstNamedAppend(nodes, after, Children(nodes, parent), ino, name);
  }

  /** Changing a node's payload changes no path. */
  lemma {:induction false} UpdateKeepsPaths(nodes: Nodes, ino: nat, node: TreeNode, from: nat, p: Path)
    requires Wf(nodes) && Exists(nodes, ino) && SameShape(nodes[ino - 1], node)
    ensures Resolve(nodes[ino - 1 := node], from, p) == Resolve(nodes, from, p)
    decreases |p|
  {
    if p != [] {
      LookupKept(nodes, ino, node, from, p[0]);
      if Lookup(nodes, from, p[0]).Some? { UpdateKeepsPaths(nodes, ino, node, Lookup(nodes, from, p[0]).value, p[1..]); }
    }
  }

  ghost predicate SamePaths(nodes: Nodes, after: Nodes) {
    forall from, p :: Resolve(after, from, p) == Resolve(nodes, from, p)
  }

  /**
   * An update of node `ino` or of nothing: every other node is as it was, the node keeps its number, name and place, and a
   * well-formed tree stays well-formed with every path leading where it led.
   */
  ghost predicate PayloadOnly(nodes: Nodes, after: Nodes, ino: nat, updated: bool) {
    && |after| == |nodes| && (!updated ==> after == nodes)
    && (updated ==> Exists(nodes, ino) && SameShape(nodes[ino - 1], after[ino - 1]))
    && (forall i :: 0 <= i < |nodes| && i != ino - 1 ==> after[i] == nodes[i])
    && (Wf(nodes) ==> Wf(after) && Extends(nodes, after) && SamePaths(nodes, after))
  }

  lemma UpdatedPayload(nodes: Nodes, ino: nat, node: TreeNode)
    requires Exists(nodes, ino) && SameShape(nodes[ino - 1], node)
    ensures PayloadOnly(nodes, nodes[ino - 1 := node], ino, true)
  {
    if Wf(nodes) {
      UpdateKeepsWf(nodes, ino, node);
      forall from, p ensures Resolve(nodes[ino - 1 := node], from, p) == Resolve(nodes, from, p) {
        UpdateKeepsPaths(nodes, ino, node, from, p);
      }
    }
  }

  lemma NoUpdate(nodes: Nodes, ino: nat)
    ensures PayloadOnly(nodes, nodes, ino, false)
  {
    if Wf(nodes) { StaysPut(nodes); }
  }

  // ---------- The files listed in a directory ----------

  datatype FileRecord = FileRecord(name: string, content: FileContent, size: U64, uploaded: U64)

  function RecordOf(node: TreeNode): FileRecord
    requires node.File?
  {
    FileRecord(node.name, node.content, node.size, node.uploaded)
  }

  function FilesAmong(nodes: Nodes, children: seq<nat>): seq<FileRecord> {
    if children == [] then []
    else
      var last := children[|children| - 1];
      FilesAmong(nodes, children[..|children| - 1])
        + (if Exists(nodes, last) && nodes[last - 1].File? then [RecordOf(nodes[last - 1])] else [])
  }

  /** The file entries of a directory, in listing order. */
  function FilesIn(nodes: Nodes, dir: nat): seq<FileRecord> {
    FilesAmong(nodes, Children(nodes, dir))
  }

  predicate SameFile(nodes: Nodes, after: Nodes, c: nat) {
    && Exists(nodes, c) && Exists(after, c)
    && (nodes[c - 1].File? || after[c - 1].File? ==> nodes[c - 1] == after[c - 1])
  }

  lemma {:induction false} FilesAmongSame(nodes: Nodes, after: Nodes, children: seq<nat>)
    requires forall c <- children :: SameFile(nodes, after, c)
    ensures FilesAmong(nodes, children) == FilesAmong(after, children)
  {
    if children != [] {
      assert children[|children| - 1] in children;
      FilesAmongSame(nodes, after, children[..|children| - 1]);
    }
  }

  lemma {:induction false} FilesAmongNone(nodes: Nodes, children: seq<nat>, c: nat)
    requires FilesAmong(nodes, children) == [] && c in children && Exists(nodes, c)
    ensures nodes[c - 1].Directory?
  {
    if c != children[|children| - 1] {
      assert c in children[..|children| - 1];
      FilesAmongNone(nodes, children[..|children| - 1], c);
    }
  }

  lemma FilesAttach(nodes: Nodes, parent: nat, node: TreeNode, dir: nat)
    requires Wf(nodes) && FreshNode(nodes, node)
    ensures Exists(nodes, dir) ==>
      FilesIn(Attach(nodes, parent, node), dir)
        == FilesIn(nodes, dir) + (if dir == parent && IsDir(nodes, parent) && node.File? then [RecordOf(node)] else [])
    ensures parent != NextInode(nodes) ==> FilesIn(Attach(nodes, parent, node), NextInode(nodes)) == []
  {
    hide Attach, Wf, SameFile, Extends, FreshNode;
    var after := Attach(nodes, parent, node);
    AttachExtends(nodes, parent, node);
    AttachedChildren(nodes, parent, node, dir);
    AttachedChildren(nodes, parent, node, NextInode(nodes));
    ChildrenExist(nodes, dir);
    forall c | c in Children(nodes, dir) ensures SameFile(nodes, after, c) { AttachedFile(nodes, parent, node, c); }
    FilesAmongSame(nodes, after, Children(nodes, dir));
    if IsDir(nodes, dir) && dir == parent {
      NewLast(nodes, parent, node);
      var longer := Children(after, dir);
      assert longer[..|longer| - 1] == Children(nodes, dir) && longer[|longer| - 1] == NextInode(nodes);
      assert after[NextInode(nodes) - 1] == node;
    }
    assert FilesIn(nodes, dir) + [] == FilesIn(nodes, dir) && Children(nodes, dir) + [] == Children(nodes, dir);
  }

  lemma AttachedFile(nodes: Nodes, parent: nat, node: TreeNode, c: nat)
    requires FreshNode(nodes, node) && Exists(nodes, c)
    ensures SameFile(nodes, Attach(nodes, parent, node), c)
  {
  }

  /** The attached node is the last one; it is a file as given, or a directory as its number says. */
  lemma NewLast(nodes: Nodes, parent: nat, node: TreeNode)
    requires FreshNode(nodes, node) && parent != NextInode(nodes)
    ensures Exists(Attach(nodes, parent, node), NextInode(nodes)) && Attach(nodes, parent, node)[|nodes|] == node
  {
  }
}

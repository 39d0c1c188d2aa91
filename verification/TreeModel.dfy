/** The inode arena on values: what every tree operation does to the node vector, and what all of them keep. */
module TreeModel {
  import opened Wrappers
  import Sanitize

  datatype FileContent =
    | Static(data: seq<Byte>)
    | Remote(url: string, sha256: string, mimeType: Option<string>, expires: Option<U64>)
    | Local(path: string)

  datatype LazyDir = GitRepo(cloneUrl: string, cachePath: string)

  datatype TreeNode =
    | Directory(ino: nat, name: string, children: seq<nat>, parent: nat, lazy: Option<LazyDir>)
    | File(ino: nat, name: string, parent: nat, size: U64, content: FileContent, uploaded: U64)

  /** Node number N sits at index N - 1. */
  type Nodes = seq<TreeNode>

  const ROOT := 1

  const NewTree: Nodes := [Directory(ROOT, "/", [], 0, None)]

  // ---------- Reading ----------

  predicate Exists(nodes: Nodes, ino: nat) {
    1 <= ino <= |nodes|
  }

  function Get(nodes: Nodes, ino: nat): Option<TreeNode> {
    if Exists(nodes, ino) then Some(nodes[ino - 1]) else None
  }

  predicate IsDir(nodes: Nodes, ino: nat) {
    Exists(nodes, ino) && nodes[ino - 1].Directory?
  }

  function Children(nodes: Nodes, ino: nat): seq<nat> {
    if IsDir(nodes, ino) then nodes[ino - 1].children else []
  }

  /** The first of `children` with this name; a child number out of range ends the search. */
  function FirstNamed(nodes: Nodes, children: seq<nat>, name: string): Option<nat> {
    if children == [] || !Exists(nodes, children[0]) then None
    else if nodes[children[0] - 1].name == name then Some(children[0])
    else FirstNamed(nodes, children[1..], name)
  }

  function Lookup(nodes: Nodes, parent: nat, name: string): Option<nat> {
    FirstNamed(nodes, Children(nodes, parent), name)
  }

  function NextInode(nodes: Nodes): nat {
    |nodes| + 1
  }

  // ---------- Writing ----------

  /** Pushes a node, then lists its number under `parent` when that is a directory by then. */
  function Attach(nodes: Nodes, parent: nat, node: TreeNode): Nodes {
    var pushed := nodes + [node];
    if IsDir(pushed, parent) then
      pushed[parent - 1 := pushed[parent - 1].(children := pushed[parent - 1].children + [NextInode(nodes)])]
    else pushed
  }

  function NewDir(nodes: Nodes, parent: nat, name: string, lazy: Option<LazyDir>): TreeNode {
    Directory(NextInode(nodes), Sanitize.Component(name), [], parent, lazy)
  }

  function NewFile(nodes: Nodes, parent: nat, name: string, content: FileContent, size: U64, uploaded: U64): TreeNode {
    File(NextInode(nodes), Sanitize.Component(name), parent, size, content, uploaded)
  }

  function AddDir(nodes: Nodes, parent: nat, name: string, lazy: Option<LazyDir>): Nodes {
    Attach(nodes, parent, NewDir(nodes, parent, name, lazy))
  }

  function AddFile(nodes: Nodes, parent: nat, name: string, content: FileContent, size: U64, uploaded: U64): Nodes {
    Attach(nodes, parent, NewFile(nodes, parent, name, content, size, uploaded))
  }

  /** The directory's number and the tree that holds it. */
  function GetOrCreateDir(nodes: Nodes, parent: nat, name: string): (Nodes, nat) {
    match Lookup(nodes, parent, name)
    case Some(ino) => (nodes, ino)
    case None => (AddDir(nodes, parent, name, None), NextInode(nodes))
  }

  /** `children.retain(|c| c != ino)`. */
  function Without(children: seq<nat>, ino: nat): seq<nat> {
    if children == [] then []
    else if children[0] == ino then Without(children[1..], ino)
    else [children[0]] + Without(children[1..], ino)
  }

  function Unlist(nodes: Nodes, parent: nat, ino: nat): Nodes {
    if IsDir(nodes, parent) then
      nodes[parent - 1 := nodes[parent - 1].(children := Without(nodes[parent - 1].children, ino))]
    else nodes
  }

  function RemoveFile(nodes: Nodes, parent: nat, name: string): (Nodes, bool) {
    match Lookup(nodes, parent, name)
    case None => (nodes, false)
    case Some(child) =>
      if IsDir(nodes, child) then (nodes, false) else (Unlist(nodes, parent, child), true)
  }

  datatype RmdirResult = Removed | NoEntry | NotEmpty | NotDir

  function RemoveDir(nodes: Nodes, parent: nat, name: string): (Nodes, RmdirResult) {
    match Lookup(nodes, parent, name)
    case None => (nodes, NoEntry)
    case Some(child) =>
      if !IsDir(nodes, child) then (nodes, NotDir)
      else if Children(nodes, child) != [] then (nodes, NotEmpty)
      else (Unlist(nodes, parent, child), Removed)
  }

  function TakeLazy(nodes: Nodes, ino: nat): (Nodes, Option<LazyDir>) {
    if IsDir(nodes, ino) then (nodes[ino - 1 := nodes[ino - 1].(lazy := None)], nodes[ino - 1].lazy)
    else (nodes, None)
  }

  function UpdateFile(nodes: Nodes, ino: nat, content: FileContent, size: U64, uploaded: U64): (Nodes, bool) {
    if Exists(nodes, ino) && nodes[ino - 1].File? then
      (nodes[ino - 1 := nodes[ino - 1].(content := content, size := size, uploaded := uploaded)], true)
    else (nodes, false)
  }

  function UpdateSize(nodes: Nodes, ino: nat, size: U64): (Nodes, bool) {
    if Exists(nodes, ino) && nodes[ino - 1].File? then (nodes[ino - 1 := nodes[ino - 1].(size := size)], true)
    else (nodes, false)
  }

  function SetExpires(nodes: Nodes, ino: nat, expires: Option<U64>): (Nodes, bool) {
    if Exists(nodes, ino) && nodes[ino - 1].File? && nodes[ino - 1].content.Remote? then
      (nodes[ino - 1 := nodes[ino - 1].(content := nodes[ino - 1].content.(expires := expires))], true)
    else (nodes, false)
  }

  // ---------- Well-formed trees ----------

  ghost predicate Sorted(children: seq<nat>) {
    forall j, k :: 0 <= j < k < |children| ==> children[j] < children[k]
  }

  /** A listed child exists, comes after its directory and points back to it. */
  ghost predicate ChildOk(nodes: Nodes, dir: nat, child: nat) {
    dir < child <= |nodes| && nodes[child - 1].parent == dir
  }

  ghost predicate NodeOk(nodes: Nodes, ino: nat)
    requires Exists(nodes, ino)
  {
    var node := nodes[ino - 1];
    && node.ino == ino
    && (if ino == ROOT then node.Directory? && node.name == "/" && node.parent == 0 else Sanitize.Clean(node.name))
    && (node.Directory? ==> Sorted(node.children) && forall c <- node.children :: ChildOk(nodes, ino, c))
  }

  /**
   * Every node sits at its own number and has a clean name, and every listed child exists, is greater than
   * the directory that lists it, points back to it, and is listed once.
   */
  ghost predicate Wf(nodes: Nodes) {
    |nodes| >= 1 && forall ino :: 1 <= ino <= |nodes| ==> NodeOk(nodes, ino)
  }

  /** A node keeps its number, name, parent and kind, and a directory never becomes lazy again. */
  predicate SameIdentity(a: TreeNode, b: TreeNode) {
    && a.ino == b.ino && a.name == b.name && a.parent == b.parent
    && (a.Directory? <==> b.Directory?)
    && (a.Directory? && a.lazy.None? ==> b.lazy.None?)
  }

  ghost predicate Extends(before: Nodes, after: Nodes) {
    |before| <= |after| && forall i :: 0 <= i < |before| ==> SameIdentity(before[i], after[i])
  }

  lemma NewTreeIsWf()
    ensures Wf(NewTree)
  {
  }

  /** The tree is a forest: a node is listed by at most one directory, its parent, and there only once. */
  lemma ListedOnce(nodes: Nodes, d1: nat, k1: nat, d2: nat, k2: nat)
    requires Wf(nodes) && IsDir(nodes, d1) && IsDir(nodes, d2)
    requires k1 < |Children(nodes, d1)| && k2 < |Children(nodes, d2)|
    requires Children(nodes, d1)[k1] == Children(nodes, d2)[k2]
    ensures d1 == d2 && k1 == k2
  {
    var c := Children(nodes, d1)[k1];
    assert NodeOk(nodes, d1) && NodeOk(nodes, d2);
    assert c in Children(nodes, d1) && c in Children(nodes, d2);
    assert ChildOk(nodes, d1, c) && ChildOk(nodes, d2, c);
  }

  ghost predicate FreshNode(nodes: Nodes, node: TreeNode) {
    node.ino == NextInode(nodes) && Sanitize.Clean(node.name) && (node.Directory? ==> node.children == [])
  }

  /** An attached node is the only new child anywhere. */
  lemma AttachedChildren(nodes: Nodes, parent: nat, node: TreeNode, ino: nat)
    requires FreshNode(nodes, node)
    ensures Exists(nodes, ino) ==>
      Children(Attach(nodes, parent, node), ino)
        == Children(nodes, ino) + (if ino == parent && IsDir(nodes, ino) then [NextInode(nodes)] else [])
    ensures ino == NextInode(nodes) ==>
      Children(Attach(nodes, parent, node), ino) == if ino == parent && node.Directory? then [ino] else []
  {
  }

  lemma AttachExtends(nodes: Nodes, parent: nat, node: TreeNode)
    requires FreshNode(nodes, node)
    ensures |Attach(nodes, parent, node)| == |nodes| + 1 && Extends(nodes, Attach(nodes, parent, node))
    ensures SameIdentity(node, Attach(nodes, parent, node)[|nodes|])
  {
  }

  lemma AttachNodeOk(nodes: Nodes, parent: nat, node: TreeNode, ino: nat)
    requires Wf(nodes) && FreshNode(nodes, node) && node.parent == parent
    requires node.File? || parent != NextInode(nodes)
    requires 1 <= ino <= NextInode(nodes)
    ensures Exists(Attach(nodes, parent, node), ino) && NodeOk(Attach(nodes, parent, node), ino)
  {
    var r := Attach(nodes, parent, node);
    AttachExtends(nodes, parent, node);
    AttachedChildren(nodes, parent, node, ino);
    if ino <= |nodes| {
      assert NodeOk(nodes, ino);
      assert SameIdentity(nodes[ino - 1], r[ino - 1]);
      hide Attach, Wf;
      var before, after := Children(nodes, ino), Children(r, ino);
      forall c | c in after ensures ChildOk(r, ino, c) {
        if c in before {
          assert ChildOk(nodes, ino, c);
          assert SameIdentity(nodes[c - 1], r[c - 1]);
        } else {
          assert SameIdentity(node, r[|nodes|]);
        }
      }
      forall j, k | 0 <= j < k < |after| ensures after[j] < after[k] {
        assert after[j] in before;
        assert ChildOk(nodes, ino, after[j]);
      }
    }
  }

  /**
   * Adding a node keeps the tree well-formed exactly when the parent number is not the number about to be given out;
   * a directory added under itself would list itself.
   */
  lemma AttachKeepsWf(nodes: Nodes, parent: nat, node: TreeNode)
    requires Wf(nodes) && FreshNode(nodes, node) && node.parent == parent
    ensures Wf(Attach(nodes, parent, node)) <==> node.File? || parent != NextInode(nodes)
    ensures |Attach(nodes, parent, node)| == |nodes| + 1 && Extends(nodes, Attach(nodes, parent, node))
  {
    var r := Attach(nodes, parent, node);
    AttachExtends(nodes, parent, node);
    if node.Directory? && parent == NextInode(nodes) {
      AttachedChildren(nodes, parent, node, parent);
      assert parent in Children(r, parent);
      assert !ChildOk(r, parent, parent);
      assert !NodeOk(r, parent);
    } else {
      hide Attach;
      forall ino | 1 <= ino <= |r| ensures NodeOk(r, ino) {
        AttachNodeOk(nodes, parent, node, ino);
      }
    }
  }

  lemma AddDirKeepsWf(nodes: Nodes, parent: nat, name: string, lazy: Option<LazyDir>)
    requires Wf(nodes)
    ensures Wf(AddDir(nodes, parent, name, lazy)) <==> parent != NextInode(nodes)
    ensures Extends(nodes, AddDir(nodes, parent, name, lazy))
  {
    Sanitize.ComponentIsClean(name);
    AttachKeepsWf(nodes, parent, NewDir(nodes, parent, name, lazy));
  }

  /** In a new tree, a directory added under number two lists itself. */
  lemma DirectoryInItself(nodes: Nodes, name: string)
    requires nodes == AddDir(NewTree, 2, name, None)
    ensures Children(nodes, 2) == [2] && !Wf(nodes)
  {
    NewTreeIsWf();
    AddDirKeepsWf(NewTree, 2, name, None);
  }

  lemma AddFileKeepsWf(nodes: Nodes, parent: nat, name: string, content: FileContent, size: U64, uploaded: U64)
    requires Wf(nodes)
    ensures Wf(AddFile(nodes, parent, name, content, size, uploaded))
    ensures Extends(nodes, AddFile(nodes, parent, name, content, size, uploaded))
  {
    Sanitize.ComponentIsClean(name);
    AttachKeepsWf(nodes, parent, NewFile(nodes, parent, name, content, size, uploaded));
  }

  lemma {:induction false} WithoutKeeps(children: seq<nat>, ino: nat)
    ensures forall c :: c in Without(children, ino) <==> c in children && c != ino
    ensures Sorted(children) ==> Sorted(Without(children, ino))
  {
    if children != [] {
      WithoutKeeps(children[1..], ino);
      assert forall c :: c in children <==> c == children[0] || c in children[1..];
      if Sorted(children) {
        var rest := Without(children[1..], ino);
        assert Sorted(children[1..]);
        forall j | 0 <= j < |rest| ensures children[0] < rest[j] {
          assert rest[j] in children[1..];
        }
      }
    }
  }

  lemma UnlistKeepsWf(nodes: Nodes, parent: nat, ino: nat)
    requires Wf(nodes)
    ensures Wf(Unlist(nodes, parent, ino)) && |Unlist(nodes, parent, ino)| == |nodes|
    ensures Extends(nodes, Unlist(nodes, parent, ino))
  {
    var r := Unlist(nodes, parent, ino);
    hide Without, NodeOk;
    forall i | 1 <= i <= |r| ensures NodeOk(r, i) { UnlistNodeOk(nodes, parent, ino, i); }
  }

  lemma UnlistNodeOk(nodes: Nodes, parent: nat, ino: nat, i: nat)
    requires Wf(nodes) && 1 <= i <= |nodes|
    ensures |Unlist(nodes, parent, ino)| == |nodes| && NodeOk(Unlist(nodes, parent, ino), i)
  {
    var r := Unlist(nodes, parent, ino);
    assert NodeOk(nodes, i);
    if IsDir(nodes, parent) { WithoutKeeps(Children(nodes, parent), ino); }
    hide Without, Wf;
    forall c | c in Children(r, i) ensures ChildOk(r, i, c) {
      assert c in Children(nodes, i);
      assert ChildOk(nodes, i, c);
    }
  }

  /** Everything about a node but the payload of a file and the pending population of a directory. */
  predicate SameShape(a: TreeNode, b: TreeNode) {
    if a.Directory? then b.Directory? && b == a.(lazy := None)
    else b.File? && a.ino == b.ino && a.name == b.name && a.parent == b.parent
  }

  lemma UpdateKeepsWf(nodes: Nodes, ino: nat, node: TreeNode)
    requires Wf(nodes) && Exists(nodes, ino) && SameShape(nodes[ino - 1], node)
    ensures Wf(nodes[ino - 1 := node]) && Extends(nodes, nodes[ino - 1 := node])
  {
    var r := nodes[ino - 1 := node];
    forall i | 1 <= i <= |r| ensures NodeOk(r, i) {
      assert NodeOk(nodes, i);
      forall c | c in Children(r, i) ensures ChildOk(r, i, c) {
        assert c in Children(nodes, i);
        assert ChildOk(nodes, i, c);
      }
    }
  }

  // ---------- Whole runs ----------

  datatype Op =
    | OpAddDir(parent: nat, name: string, lazy: Option<LazyDir>)
    | OpAddFile(parent: nat, name: string, content: FileContent, size: U64, uploaded: U64)
    | OpGetOrCreateDir(parent: nat, name: string)
    | OpRemoveFile(parent: nat, name: string)
    | OpRemoveDir(parent: nat, name: string)
    | OpTakeLazy(ino: nat)
    | OpUpdateFile(ino: nat, content: FileContent, size: U64, uploaded: U64)
    | OpUpdateSize(ino: nat, size: U64)
    | OpSetExpires(ino: nat, expires: Option<U64>)

  function Apply(nodes: Nodes, op: Op): Nodes {
    match op
    case OpAddDir(parent, name, lazy) => AddDir(nodes, parent, name, lazy)
    case OpAddFile(parent, name, content, size, uploaded) => AddFile(nodes, parent, name, content, size, uploaded)
    case OpGetOrCreateDir(parent, name) => GetOrCreateDir(nodes, parent, name).0
    case OpRemoveFile(parent, name) => RemoveFile(nodes, parent, name).0
    case OpRemoveDir(parent, name) => RemoveDir(nodes, parent, name).0
    case OpTakeLazy(ino) => TakeLazy(nodes, ino).0
    case OpUpdateFile(ino, content, size, uploaded) => UpdateFile(nodes, ino, content, size, uploaded).0
    case OpUpdateSize(ino, size) => UpdateSize(nodes, ino, size).0
    case OpSetExpires(ino, expires) => SetExpires(nodes, ino, expires).0
  }

  /** A directory is never added under the number it is about to get; callers pass numbers they were given. */
  predicate Legal(nodes: Nodes, op: Op) {
    (op.OpAddDir? || op.OpGetOrCreateDir?) ==> op.parent != NextInode(nodes)
  }

  function Run(nodes: Nodes, ops: seq<Op>): Nodes
    decreases |ops|
  {
    if ops == [] then nodes else Run(Apply(nodes, ops[0]), ops[1..])
  }

  predicate LegalRun(nodes: Nodes, ops: seq<Op>)
    decreases |ops|
  {
    ops == [] || (Legal(nodes, ops[0]) && LegalRun(Apply(nodes, ops[0]), ops[1..]))
  }

  lemma StaysPut(nodes: Nodes)
    ensures Extends(nodes, nodes)
  {
  }

  lemma ApplyKeepsWf(nodes: Nodes, op: Op)
    requires Wf(nodes) && Legal(nodes, op)
    ensures Wf(Apply(nodes, op)) && Extends(nodes, Apply(nodes, op))
  {
    hide Wf, Extends, AddDir, AddFile, Unlist, SameIdentity;
    StaysPut(nodes);
    match op
    case OpAddDir(parent, name, lazy) => AddDirKeepsWf(nodes, parent, name, lazy);
    case OpAddFile(parent, name, content, size, uploaded) => AddFileKeepsWf(nodes, parent, name, content, size, uploaded);
    case OpGetOrCreateDir(parent, name) => AddDirKeepsWf(nodes, parent, name, None);
    case OpRemoveFile(parent, name) =>
      if Lookup(nodes, parent, name).Some? { UnlistKeepsWf(nodes, parent, Lookup(nodes, parent, name).value); }
    case OpRemoveDir(parent, name) =>
      if Lookup(nodes, parent, name).Some? { UnlistKeepsWf(nodes, parent, Lookup(nodes, parent, name).value); }
    case OpTakeLazy(ino) =>
      if IsDir(nodes, ino) { UpdateKeepsWf(nodes, ino, nodes[ino - 1].(lazy := None)); }
    case OpUpdateFile(ino, content, size, uploaded) =>
      if UpdateFile(nodes, ino, content, size, uploaded).1 {
        UpdateKeepsWf(nodes, ino, nodes[ino - 1].(content := content, size := size, uploaded := uploaded));
      }
    case OpUpdateSize(ino, size) =>
      if UpdateSize(nodes, ino, size).1 { UpdateKeepsWf(nodes, ino, nodes[ino - 1].(size := size)); }
    case OpSetExpires(ino, expires) =>
      if SetExpires(nodes, ino, expires).1 {
        UpdateKeepsWf(nodes, ino, nodes[ino - 1].(content := nodes[ino - 1].content.(expires := expires)));
      }
  }

  /** Every run from a well-formed tree ends in one, and no inode number is ever reused for another node. */
  lemma {:induction false} RunKeepsWf(nodes: Nodes, ops: seq<Op>)
    requires Wf(nodes) && LegalRun(nodes, ops)
    ensures Wf(Run(nodes, ops)) && Extends(nodes, Run(nodes, ops))
    decreases |ops|
  {
    if ops != [] {
      ApplyKeepsWf(nodes, ops[0]);
      RunKeepsWf(Apply(nodes, ops[0]), ops[1..]);
    }
  }

  /** How many times a run takes a lazy population out of directory `ino`. */
  function Takes(nodes: Nodes, ops: seq<Op>, ino: nat): nat
    decreases |ops|
  {
    if ops == [] then 0
    else
      (if ops[0] == OpTakeLazy(ino) && TakeLazy(nodes, ino).1.Some? then 1 else 0)
      + Takes(Apply(nodes, ops[0]), ops[1..], ino)
  }

  /** A lazy directory is populated at most once in any run. */
  lemma {:induction false} LazyTakenOnce(nodes: Nodes, ops: seq<Op>, ino: nat)
    requires Wf(nodes) && LegalRun(nodes, ops)
    ensures Takes(nodes, ops, ino) <= 1
    ensures Exists(nodes, ino) && (IsDir(nodes, ino) ==> nodes[ino - 1].lazy.None?) ==> Takes(nodes, ops, ino) == 0
    decreases |ops|
  {
    if ops != [] {
      ApplyKeepsWf(nodes, ops[0]);
      LazyTakenOnce(Apply(nodes, ops[0]), ops[1..], ino);
    }
  }
}

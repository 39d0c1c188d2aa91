/**
 * Creating the directories of a path, one `get_or_create_dir` at a time: which paths come to lead somewhere, what stays as
 * it was, and where directories go that are wanted inside a file or hidden by a sibling.
 */
module TreeDirs {
  import opened Wrappers
  import opened TreeModel
  import opened TreePaths
  import Sanitize

  /** Walks `parts` from `parent`, creating what is missing; empty parts are skipped. */
  function MkDirs(nodes: Nodes, parent: nat, parts: Path): (Nodes, nat)
    decreases |parts|
  {
    if parts == [] then (nodes, parent)
    else if parts[0] == "" then MkDirs(nodes, parent, parts[1..])
    else
      var (made, ino) := GetOrCreateDir(nodes, parent, parts[0]);
      MkDirs(made, ino, parts[1..])
  }

  lemma {:induction false} MkDirsSnoc(nodes: Nodes, parent: nat, parts: Path, name: string)
    ensures
      var (made, ino) := MkDirs(nodes, parent, parts);
      MkDirs(nodes, parent, parts + [name]) == if name == "" then (made, ino) else GetOrCreateDir(made, ino, name)
    decreases |parts|
  {
    var longer := parts + [name];
    if parts == [] {
      assert longer[1..] == [];
    } else {
      assert longer[0] == parts[0] && longer[1..] == parts[1..] + [name];
      if parts[0] == "" {
        MkDirsSnoc(nodes, parent, parts[1..], name);
      } else {
        var (made, ino) := GetOrCreateDir(nodes, parent, parts[0]);
        MkDirsSnoc(made, ino, parts[1..], name);
      }
    }
  }

  ghost predicate CleanPath(p: Path) {
    forall i :: 0 <= i < |p| ==> Sanitize.Clean(p[i])
  }

  /** No file stands above `p`. */
  ghost predicate Unblocked(nodes: Nodes, from: nat, p: Path) {
    forall q :: q < p && Resolve(nodes, from, q).Some? ==> IsDir(nodes, Resolve(nodes, from, q).value)
  }

  /**
   * What resolved resolves as before; what newly resolves is a prefix of `full` with no file above it, and a new directory
   * without files.
   */
  ghost predicate GrownAt(nodes: Nodes, after: Nodes, from: nat, full: Path, p: Path) {
    if Resolve(nodes, from, p).Some? then Resolve(after, from, p) == Resolve(nodes, from, p)
    else if p <= full && Unblocked(nodes, from, p) then
      Resolve(after, from, p).Some? && |nodes| < Resolve(after, from, p).value <= |after|
    else Resolve(after, from, p) == None
  }

  /** Old nodes keep their kind, their payload and the files they list. */
  ghost predicate OldNodeKept(nodes: Nodes, after: Nodes, ino: nat) {
    Exists(nodes, ino) ==>
      && Exists(after, ino)
      && (nodes[ino - 1].File? ==> after[ino - 1] == nodes[ino - 1])
      && FilesIn(after, ino) == FilesIn(nodes, ino)
  }

  ghost predicate NewNodeBare(nodes: Nodes, after: Nodes, ino: nat) {
    |nodes| < ino <= |after| ==> IsDir(after, ino) && FilesIn(after, ino) == []
  }

  ghost predicate OnlyDirsAdded(nodes: Nodes, after: Nodes) {
    && Wf(after) && Extends(nodes, after)
    && (forall ino :: OldNodeKept(nodes, after, ino))
    && (forall ino :: NewNodeBare(nodes, after, ino))
  }

  ghost predicate Grown(nodes: Nodes, after: Nodes, from: nat, full: Path) {
    OnlyDirsAdded(nodes, after) && forall p :: GrownAt(nodes, after, from, full, p)
  }

  lemma OnlyDirsAddedTrans(nodes: Nodes, mid: Nodes, after: Nodes)
    requires OnlyDirsAdded(nodes, mid) && OnlyDirsAdded(mid, after)
    ensures OnlyDirsAdded(nodes, after)
  {
    forall ino ensures OldNodeKept(nodes, after, ino) && NewNodeBare(nodes, after, ino) {
      assert OldNodeKept(nodes, mid, ino) && OldNodeKept(mid, after, ino);
      assert NewNodeBare(nodes, mid, ino) && NewNodeBare(mid, after, ino);
    }
    forall i | 0 <= i < |nodes| ensures SameIdentity(nodes[i], after[i]) {
      assert SameIdentity(nodes[i], mid[i]) && SameIdentity(mid[i], after[i]);
    }
  }

  /** Growth puts no file above anything and takes none away. */
  lemma UnblockedStays(nodes: Nodes, after: Nodes, from: nat, full: Path, p: Path)
    requires Wf(nodes) && Grown(nodes, after, from, full)
    ensures Unblocked(nodes, from, p) <==> Unblocked(after, from, p)
  {
    forall q | q < p
      ensures Resolve(nodes, from, q).Some? ==>
        Resolve(after, from, q).Some? && (IsDir(nodes, Resolve(nodes, from, q).value) <==> IsDir(after, Resolve(after, from, q).value))
      ensures Resolve(nodes, from, q).None? && Resolve(after, from, q).Some? ==> IsDir(after, Resolve(after, from, q).value)
    {
      assert GrownAt(nodes, after, from, full, q);
      if Resolve(nodes, from, q).Some? {
        ResolvedNode(nodes, from, q);
        var ino := Resolve(nodes, from, q).value;
        assert SameIdentity(nodes[ino - 1], after[ino - 1]);
      } else if Resolve(after, from, q).Some? {
        assert NewNodeBare(nodes, after, Resolve(after, from, q).value);
      }
    }
  }

  lemma GrownTrans(nodes: Nodes, mid: Nodes, after: Nodes, from: nat, a: Path, b: Path)
    requires Wf(nodes) && Grown(nodes, mid, from, a) && Grown(mid, after, from, b) && a <= b
    ensures Grown(nodes, after, from, b)
  {
    OnlyDirsAddedTrans(nodes, mid, after);
    hide Unblocked, OnlyDirsAdded;
    forall p ensures GrownAt(nodes, after, from, b, p) {
      assert GrownAt(nodes, mid, from, a, p) && GrownAt(mid, after, from, b, p);
      UnblockedStays(nodes, mid, from, a, p);
      GrownOnlyAdds(nodes, mid, from, a);
      GrownOnlyAdds(mid, after, from, b);
    }
  }

  lemma GrownOnlyAdds(nodes: Nodes, after: Nodes, from: nat, full: Path)
    requires Grown(nodes, after, from, full)
    ensures |nodes| <= |after| && Wf(after)
  {
  }

  lemma PrefixResolves(nodes: Nodes, from: nat, p: Path, full: Path)
    requires Wf(nodes) && p <= full && Resolve(nodes, from, full).Some?
    ensures Resolve(nodes, from, p).Some?
    ensures p < full ==> IsDir(nodes, Resolve(nodes, from, p).value)
  {
    ResolveAppend(nodes, from, p, full[|p|..]);
    assert p + full[|p|..] == full;
  }

  /** Nothing above a path that resolves is a file. */
  lemma ResolvedIsUnblocked(nodes: Nodes, from: nat, p: Path)
    requires Wf(nodes) && Resolve(nodes, from, p).Some?
    ensures Unblocked(nodes, from, p)
  {
    forall q | q < p && Resolve(nodes, from, q).Some? ensures IsDir(nodes, Resolve(nodes, from, q).value) {
      PrefixResolves(nodes, from, q, p);
    }
  }

  lemma NoChange(nodes: Nodes, from: nat, full: Path)
    requires Wf(nodes) && Resolve(nodes, from, full).Some?
    ensures Grown(nodes, nodes, from, full)
  {
    forall p ensures GrownAt(nodes, nodes, from, full, p) {
      if p <= full { PrefixResolves(nodes, from, p, full); }
    }
  }

  /** Attaching a bare directory only adds a directory, whatever number is given as its parent. */
  lemma AttachDirOnly(nodes: Nodes, parent: nat, node: TreeNode)
    requires Wf(nodes) && FreshNode(nodes, node) && node.Directory? && node.parent == parent && parent != NextInode(nodes)
    ensures OnlyDirsAdded(nodes, Attach(nodes, parent, node))
  {
    var after := Attach(nodes, parent, node);
    AttachKeepsWf(nodes, parent, node);
    AttachExtends(nodes, parent, node);
    forall ino ensures OldNodeKept(nodes, after, ino) && NewNodeBare(nodes, after, ino) {
      if ino >= 0 { FilesAttach(nodes, parent, node, ino); }
    }
  }

  lemma AttachDirGrows(nodes: Nodes, from: nat, path: Path, parent: nat, node: TreeNode)
    requires Wf(nodes) && FreshNode(nodes, node) && node.Directory? && node.parent == parent && Exists(nodes, from)
    requires Resolve(nodes, from, path) == Some(parent) && IsDir(nodes, parent)
    requires Resolve(nodes, from, path + [node.name]) == None
    ensures Grown(nodes, Attach(nodes, parent, node), from, path + [node.name])
    ensures Resolve(Attach(nodes, parent, node), from, path + [node.name]) == Some(NextInode(nodes))
  {
    var made := Attach(nodes, parent, node);
    AttachDirOnly(nodes, parent, node);
    AttachExtends(nodes, parent, node);
    StepUnblocked(nodes, from, path, node.name);
    hide Attach, OnlyDirsAdded, Extends, Unblocked;
    forall p ensures GrownAt(nodes, made, from, path + [node.name], p) {
      ResolveAttach(nodes, parent, node, from, p);
      if Resolve(nodes, from, p).None? { NewlyResolved(nodes, from, path, parent, node.name, p); }
    }
    ResolveAttach(nodes, parent, node, from, path + [node.name]);
    assert Init(path + [node.name]) == path;
  }

  lemma StepUnblocked(nodes: Nodes, from: nat, path: Path, name: string)
    requires Wf(nodes) && Resolve(nodes, from, path).Some? && IsDir(nodes, Resolve(nodes, from, path).value)
    ensures Unblocked(nodes, from, path + [name])
  {
    ResolvedIsUnblocked(nodes, from, path);
    forall q | q < path + [name] && Resolve(nodes, from, q).Some? ensures IsDir(nodes, Resolve(nodes, from, q).value) {
      assert q < path || q == path;
    }
  }

  lemma NewDirGrows(nodes: Nodes, from: nat, path: Path, parent: nat, name: string)
    requires Wf(nodes) && Exists(nodes, from) && Resolve(nodes, from, path) == Some(parent) && IsDir(nodes, parent)
    requires Lookup(nodes, parent, Sanitize.Component(name)).None?
    ensures
      var made, step := AddDir(nodes, parent, name, None), path + [Sanitize.Component(name)];
      Grown(nodes, made, from, step) && Resolve(made, from, step) == Some(NextInode(nodes))
  {
    ResolveSnoc(nodes, from, path, Sanitize.Component(name));
    Sanitize.ComponentIsClean(name);
    AttachDirGrows(nodes, from, path, parent, NewDir(nodes, parent, name, None));
  }

  /** A directory made under the very number it gets lists itself, and is found there under its stored name. */
  lemma LookupInItself(nodes: Nodes, name: string)
    requires Wf(nodes)
    ensures
      var ino := NextInode(nodes);
      Lookup(AddDir(nodes, ino, name, None), ino, name) == if Sanitize.Clean(name) then Some(ino) else None
  {
    var ino := NextInode(nodes);
    var node := NewDir(nodes, ino, name, None);
    Sanitize.ComponentIsClean(name);
    Sanitize.FixpointsAreClean(name);
    AttachedChildren(nodes, ino, node, ino);
    AttachExtends(nodes, ino, node);
    var once := Attach(nodes, ino, node);
    hide Attach, Wf, Extends, Sanitize.Clean;
    assert [ino][1..] == [];
    assert FirstNamed(once, [ino], name) == if once[ino - 1].name == name then Some(ino) else None;
  }

  /** Where a name can be found again once it has been made: in a directory, or in the directory being made itself. */
  predicate CanHold(nodes: Nodes, parent: nat) {
    IsDir(nodes, parent) || parent == NextInode(nodes)
  }

  /**
   * Asking again for the same directory returns it and changes nothing exactly when the name was already there, or is
   * stored as given by a parent that can hold it. Otherwise, as for a name sanitisation changes, a parent that is a file,
   * or one that does not exist, each call adds one more directory.
   */
  lemma GetOrCreateTwice(nodes: Nodes, parent: nat, name: string)
    requires Wf(nodes)
    ensures
      var (once, ino) := GetOrCreateDir(nodes, parent, name);
      (GetOrCreateDir(once, parent, name) == (once, ino))
        <==> (Lookup(nodes, parent, name).Some? || (CanHold(nodes, parent) && Sanitize.Clean(name)))
  {
    Sanitize.FixpointsAreClean(name);
    if Lookup(nodes, parent, name).None? {
      var once := AddDir(nodes, parent, name, None);
      assert |AddDir(once, parent, name, None)| == |once| + 1;
      if parent == NextInode(nodes) {
        LookupInItself(nodes, name);
      } else {
        NewDirFound(nodes, parent, name, name);
      }
    }
  }

  lemma NewDirIsEmpty(nodes: Nodes, parent: nat, name: string, sought: string)
    requires Wf(nodes) && parent != NextInode(nodes)
    ensures Lookup(AddDir(nodes, parent, name, None), NextInode(nodes), sought) == None
  {
    Sanitize.ComponentIsClean(name);
    LookupAttach(nodes, parent, NewDir(nodes, parent, name, None), parent, sought);
  }

  /** What a new directory changes for one lookup under its parent. */
  lemma NewDirFound(nodes: Nodes, parent: nat, name: string, sought: string)
    requires Wf(nodes) && parent != NextInode(nodes) && Lookup(nodes, parent, sought).None?
    ensures
      Lookup(AddDir(nodes, parent, name, None), parent, sought)
        == if IsDir(nodes, parent) && Sanitize.Component(name) == sought then Some(NextInode(nodes)) else None
  {
    var node := NewDir(nodes, parent, name, None);
    Sanitize.ComponentIsClean(name);
    LookupAttach(nodes, parent, node, parent, sought);
    AttachedChildren(nodes, parent, node, parent);
  }

  /** Asked for twice inside a file, as the walk over a path does when a file stands on the way, a clean name makes two directories. */
  lemma FileParentMakesTwo(name: string, content: FileContent, size: U64)
    requires Sanitize.Clean(name)
    ensures
      var nodes := AddFile(NewTree, ROOT, "7", content, size, 0);
      var (once, first) := GetOrCreateDir(nodes, 2, name);
      var (twice, second) := GetOrCreateDir(once, 2, name);
      first == 3 && second == 4 && |twice| == 4
  {
    NewTreeIsWf();
    AddFileKeepsWf(NewTree, ROOT, "7", content, size, 0);
    var nodes := AddFile(NewTree, ROOT, "7", content, size, 0);
    NewDirFound(nodes, 2, name, name);
  }

  /** In a new tree, asking twice for a name with a slash makes two directories. */
  lemma SlashMakesTwo(name: string)
    requires '/' in name
    ensures
      var (once, first) := GetOrCreateDir(NewTree, ROOT, name);
      var (twice, second) := GetOrCreateDir(once, ROOT, name);
      first == 2 && second == 3 && |twice| == 3
  {
    NewTreeIsWf();
    Sanitize.FixpointsAreClean(name);
    Sanitize.ComponentIsClean(name);
    LookupAttach(NewTree, ROOT, NewDir(NewTree, ROOT, name, None), ROOT, name);
  }

  /** The one path that starts to resolve is the only unresolved prefix of it. */
  lemma NewlyResolved(nodes: Nodes, from: nat, path: Path, parent: nat, name: string, p: Path)
    requires Wf(nodes) && Resolve(nodes, from, path) == Some(parent) && Resolve(nodes, from, p) == None && Exists(nodes, from)
    ensures p <= path + [name] ==> p == path + [name]
    ensures p != [] && Resolve(nodes, from, Init(p)) == Some(parent) && Last(p) == name <==> p == path + [name]
  {
    assert p <= path + [name] ==> p <= path || p == path + [name];
    if p <= path { PrefixResolves(nodes, from, p, path); }
    if p != [] && Resolve(nodes, from, Init(p)) == Some(parent) && Last(p) == name {
      ResolveUnique(nodes, from, path, Init(p));
      assert p == Init(p) + [Last(p)];
    }
    if p == path + [name] { assert Init(p) == path; }
  }

  // ---------- Directories made below a file ----------

  /** A node the start does not lead to; it is younger than the start. */
  ghost predicate Stray(nodes: Nodes, from: nat, ino: nat) {
    from < ino <= |nodes| && forall p :: Resolve(nodes, from, p) != Some(ino)
  }

  /** Directories have been added, none of which the start leads to. */
  ghost predicate SameFrom(nodes: Nodes, after: Nodes, from: nat) {
    OnlyDirsAdded(nodes, after) && forall p :: Resolve(after, from, p) == Resolve(nodes, from, p)
  }

  /** A directory attached where nothing leads is itself astray. */
  lemma AttachStray(nodes: Nodes, from: nat, parent: nat, node: TreeNode)
    requires Wf(nodes) && FreshNode(nodes, node) && node.Directory? && node.parent == parent
    requires Exists(nodes, from) && Exists(nodes, parent) && (IsDir(nodes, parent) ==> Stray(nodes, from, parent))
    ensures SameFrom(nodes, Attach(nodes, parent, node), from) && Stray(Attach(nodes, parent, node), from, NextInode(nodes))
  {
    var after := Attach(nodes, parent, node);
    AttachDirOnly(nodes, parent, node);
    AttachExtends(nodes, parent, node);
    hide Attach, OnlyDirsAdded, Extends;
    forall p ensures Resolve(after, from, p) == Resolve(nodes, from, p) && Resolve(after, from, p) != Some(NextInode(nodes)) {
      ResolveAttach(nodes, parent, node, from, p);
      if Resolve(nodes, from, p).Some? { ResolvedNode(nodes, from, p); }
    }
  }

  /** A child of a stray node is astray. */
  lemma ChildStray(nodes: Nodes, from: nat, parent: nat, name: string)
    requires Wf(nodes) && Stray(nodes, from, parent) && Lookup(nodes, parent, name).Some?
    ensures Stray(nodes, from, Lookup(nodes, parent, name).value)
  {
    LookupFinds(nodes, parent, name);
    var c := Lookup(nodes, parent, name).value;
    forall p ensures Resolve(nodes, from, p) != Some(c) {
      if Resolve(nodes, from, p) == Some(c) { ResolvedNode(nodes, from, p); }
    }
  }

  lemma SameFromTrans(nodes: Nodes, mid: Nodes, after: Nodes, from: nat)
    requires SameFrom(nodes, mid, from) && SameFrom(mid, after, from)
    ensures SameFrom(nodes, after, from)
  {
    OnlyDirsAddedTrans(nodes, mid, after);
  }

  lemma OnlyDirsAddedRefl(nodes: Nodes)
    requires Wf(nodes)
    ensures OnlyDirsAdded(nodes, nodes)
  {
  }

  /** The rest of a path made below a stray node stays astray. */
  lemma {:induction false} MkDirsStray(nodes: Nodes, from: nat, parent: nat, parts: Path)
    requires Wf(nodes) && Exists(nodes, from) && Stray(nodes, from, parent)
    ensures
      var (made, ino) := MkDirs(nodes, parent, parts);
      SameFrom(nodes, made, from) && Stray(made, from, ino)
    decreases |parts|
  {
    hide Attach, OnlyDirsAdded, Stray, Wf;
    if parts == [] {
      OnlyDirsAddedRefl(nodes);
    } else if parts[0] == "" {
      MkDirsStray(nodes, from, parent, parts[1..]);
    } else {
      var (made, ino) := GetOrCreateDir(nodes, parent, parts[0]);
      GetOrCreateStray(nodes, from, parent, parts[0]);
      MkDirsStray(made, from, ino, parts[1..]);
      SameFromTrans(nodes, made, MkDirs(made, ino, parts[1..]).0, from);
    }
  }

  lemma GetOrCreateStray(nodes: Nodes, from: nat, parent: nat, name: string)
    requires Wf(nodes) && Exists(nodes, from) && Stray(nodes, from, parent)
    ensures
      var (made, ino) := GetOrCreateDir(nodes, parent, name);
      SameFrom(nodes, made, from) && Stray(made, from, ino) && Wf(made) && Exists(made, from)
  {
    if Lookup(nodes, parent, name).Some? {
      ChildStray(nodes, from, parent, name);
      OnlyDirsAddedRefl(nodes);
    } else {
      Sanitize.ComponentIsClean(name);
      AttachStray(nodes, from, parent, NewDir(nodes, parent, name, None));
    }
  }

  /** Nothing that stays unreachable counts as growth below a file. */
  lemma BlockedGrows(nodes: Nodes, after: Nodes, from: nat, path: Path, full: Path)
    requires Wf(nodes) && SameFrom(nodes, after, from) && path < full
    requires Resolve(nodes, from, path).Some? && !IsDir(nodes, Resolve(nodes, from, path).value)
    ensures Grown(nodes, after, from, full) && !Unblocked(nodes, from, full)
  {
    hide OnlyDirsAdded;
    forall p ensures GrownAt(nodes, after, from, full, p) {
      if Resolve(nodes, from, p).None? && p <= full {
        if p <= path { PrefixResolves(nodes, from, p, path); }
        assert path < p;
      }
    }
  }

  /** The names under which new directories of these parts are stored; empty parts are skipped. */
  function Stored(parts: Path): Path {
    if parts == [] then []
    else if parts[0] == "" then Stored(parts[1..])
    else [Sanitize.Component(parts[0])] + Stored(parts[1..])
  }

  /** Where the walk leads: as given while the names are found, as stored from the first one that is not. */
  function Shown(nodes: Nodes, parent: nat, parts: Path): Path
    decreases |parts|
  {
    if parts == [] then []
    else if parts[0] == "" then Shown(nodes, parent, parts[1..])
    else match Lookup(nodes, parent, parts[0])
      case Some(c) => [parts[0]] + Shown(nodes, c, parts[1..])
      case None => Stored(parts)
  }

  /** The first name that is not found stands there in its stored form: the new directory is hidden behind that sibling. */
  predicate Shadowed(nodes: Nodes, parent: nat, parts: Path)
    decreases |parts|
  {
    parts != [] &&
    if parts[0] == "" then Shadowed(nodes, parent, parts[1..])
    else match Lookup(nodes, parent, parts[0])
      case Some(c) => Shadowed(nodes, c, parts[1..])
      case None => Lookup(nodes, parent, Sanitize.Component(parts[0])).Some?
  }

  lemma {:induction false} CleanIsShown(nodes: Nodes, parent: nat, parts: Path)
    requires CleanPath(parts)
    ensures Stored(parts) == parts && Shown(nodes, parent, parts) == parts && !Shadowed(nodes, parent, parts)
    decreases |parts|
  {
    if parts != [] {
      Sanitize.FixpointsAreClean(parts[0]);
      CleanIsShown(nodes, if Lookup(nodes, parent, parts[0]).Some? then Lookup(nodes, parent, parts[0]).value else parent, parts[1..]);
    }
  }

  /** In an empty directory all names are new. */
  lemma {:induction false} BareIsShown(nodes: Nodes, parent: nat, parts: Path)
    requires forall name :: Lookup(nodes, parent, name) == None
    ensures Shown(nodes, parent, parts) == Stored(parts) && !Shadowed(nodes, parent, parts)
    decreases |parts|
  {
    if parts != [] && parts[0] == "" { BareIsShown(nodes, parent, parts[1..]); }
  }

  /**
   * Making a path of directories, whatever its parts. If the first missing name is hidden behind a sibling, everything is
   * made where nothing leads. Otherwise exactly those missing prefixes of the path shown come to resolve that have no file
   * above them, as new empty directories; if a file stands on the way, the rest is made where nothing leads.
   */
  lemma {:induction false} MkDirsGrows(nodes: Nodes, from: nat, path: Path, parent: nat, parts: Path)
    requires Wf(nodes) && Exists(nodes, from) && Resolve(nodes, from, path) == Some(parent)
    ensures
      var (made, ino) := MkDirs(nodes, parent, parts);
      var full := path + Shown(nodes, parent, parts);
      if Shadowed(nodes, parent, parts) then SameFrom(nodes, made, from) && Stray(made, from, ino)
      else
        && Grown(nodes, made, from, full)
        && if Unblocked(nodes, from, full) then Resolve(made, from, full) == Some(ino) else Stray(made, from, ino)
    decreases |parts|, 1
  {
    hide Attach, Unblocked, Stray, Wf, Grown, SameFrom, Resolve, AddDir, Lookup, Stored;
    ResolvedNode(nodes, from, path);
    if parts == [] {
      assert path + [] == path;
      NoChange(nodes, from, path);
      ResolvedIsUnblocked(nodes, from, path);
    } else if parts[0] == "" {
      MkDirsGrows(nodes, from, path, parent, parts[1..]);
    } else if Lookup(nodes, parent, parts[0]).Some? {
      var c := Lookup(nodes, parent, parts[0]).value;
      ResolveSnoc(nodes, from, path, parts[0]);
      MkDirsGrows(nodes, from, path + [parts[0]], c, parts[1..]);
      Grouped(path, parts[0], Shown(nodes, c, parts[1..]));
    } else if IsDir(nodes, parent) {
      MadeInDir(nodes, from, path, parent, parts);
    } else {
      MadeInFile(nodes, from, path, parent, parts);
    }
  }

  lemma Grouped(path: Path, name: string, rest: Path)
    ensures path + [name] + rest == path + ([name] + rest)
  {
  }

  lemma StoredHead(parts: Path)
    requires parts != [] && parts[0] != ""
    ensures Stored(parts) == [Sanitize.Component(parts[0])] + Stored(parts[1..])
  {
  }

  /** The walk whose first new directory is made in a directory. */
  lemma MadeInDir(nodes: Nodes, from: nat, path: Path, parent: nat, parts: Path)
    requires Wf(nodes) && Exists(nodes, from) && Resolve(nodes, from, path) == Some(parent) && IsDir(nodes, parent)
    requires parts != [] && parts[0] != "" && Lookup(nodes, parent, parts[0]).None?
    ensures
      var (made, ino) := MkDirs(nodes, parent, parts);
      var full := path + Stored(parts);
      if Lookup(nodes, parent, Sanitize.Component(parts[0])).Some? then SameFrom(nodes, made, from) && Stray(made, from, ino)
      else
        && Grown(nodes, made, from, full)
        && if Unblocked(nodes, from, full) then Resolve(made, from, full) == Some(ino) else Stray(made, from, ino)
    decreases |parts|, 0
  {
    hide Attach, Unblocked, Stray, Wf, Grown, SameFrom, Resolve, AddDir, Lookup;
    var name := Sanitize.Component(parts[0]);
    var (made, ino) := GetOrCreateDir(nodes, parent, parts[0]);
    if Lookup(nodes, parent, name).Some? {
      MadeHidden(nodes, from, path, parent, parts[0]);
      MkDirsStray(made, from, ino, parts[1..]);
      SameFromTrans(nodes, made, MkDirs(made, ino, parts[1..]).0, from);
    } else {
      var step := path + [name];
      NewDirGrows(nodes, from, path, parent, parts[0]);
      GrownOnlyAdds(nodes, made, from, step);
      forall sought ensures Lookup(made, ino, sought) == None { NewDirIsEmpty(nodes, parent, parts[0], sought); }
      BareIsShown(made, ino, parts[1..]);
      MkDirsGrows(made, from, step, ino, parts[1..]);
      Grouped(path, name, Stored(parts[1..]));
      UnblockedStays(nodes, made, from, step, path + Stored(parts));
      GrownTrans(nodes, made, MkDirs(made, ino, parts[1..]).0, from, step, path + Stored(parts));
    }
  }

  /** The walk whose first new directory is wanted inside a file. */
  lemma MadeInFile(nodes: Nodes, from: nat, path: Path, parent: nat, parts: Path)
    requires Wf(nodes) && Exists(nodes, from) && Resolve(nodes, from, path) == Some(parent)
    requires Exists(nodes, parent) && !IsDir(nodes, parent) && parts != [] && parts[0] != ""
    ensures
      var (made, ino) := MkDirs(nodes, parent, parts);
      var full := path + Stored(parts);
      Grown(nodes, made, from, full) && !Unblocked(nodes, from, full) && Stray(made, from, ino)
    ensures Lookup(nodes, parent, parts[0]).None? && Lookup(nodes, parent, Sanitize.Component(parts[0])).None?
  {
    hide Attach, Unblocked, Stray, Wf, Grown, SameFrom, Resolve;
    var (made, ino) := GetOrCreateDir(nodes, parent, parts[0]);
    MadeBelowFile(nodes, from, parent, parts[0]);
    MkDirsStray(made, from, ino, parts[1..]);
    SameFromTrans(nodes, made, MkDirs(made, ino, parts[1..]).0, from);
    StoredHead(parts);
    assert path < path + Stored(parts);
    BlockedGrows(nodes, MkDirs(made, ino, parts[1..]).0, from, path, path + Stored(parts));
  }

  /** A new directory stored under the name of an older sibling is hidden behind it. */
  lemma MadeHidden(nodes: Nodes, from: nat, path: Path, parent: nat, name: string)
    requires Wf(nodes) && Exists(nodes, from) && Resolve(nodes, from, path) == Some(parent) && IsDir(nodes, parent)
    requires Lookup(nodes, parent, Sanitize.Component(name)).Some?
    ensures
      var made := AddDir(nodes, parent, name, None);
      SameFrom(nodes, made, from) && Stray(made, from, NextInode(nodes)) && Wf(made) && Exists(made, from)
  {
    var node := NewDir(nodes, parent, name, None);
    var after := Attach(nodes, parent, node);
    Sanitize.ComponentIsClean(name);
    AttachDirOnly(nodes, parent, node);
    AttachExtends(nodes, parent, node);
    hide Attach, OnlyDirsAdded, Extends, Resolve, Wf, Lookup, FreshNode;
    forall p ensures Resolve(after, from, p) == Resolve(nodes, from, p) && Resolve(after, from, p) != Some(NextInode(nodes)) {
      HiddenPath(nodes, parent, node, from, p);
    }
    SameFromWf(nodes, after, from);
  }

  lemma HiddenPath(nodes: Nodes, parent: nat, node: TreeNode, from: nat, p: Path)
    requires Wf(nodes) && FreshNode(nodes, node) && Exists(nodes, from) && Lookup(nodes, parent, node.name).Some?
    ensures
      var after := Attach(nodes, parent, node);
      Resolve(after, from, p) == Resolve(nodes, from, p) && Resolve(after, from, p) != Some(NextInode(nodes))
  {
    hide Attach, Lookup, FreshNode, Wf;
    ResolveAttach(nodes, parent, node, from, p);
    hide Resolve;
    if Resolve(nodes, from, p).Some? {
      ResolvedNode(nodes, from, p);
    } else if p != [] {
      InitLast(p);
      ResolveSnoc(nodes, from, Init(p), Last(p));
    }
  }

  /** A directory wanted inside a file is made all the same, but nothing leads to it. */
  lemma MadeBelowFile(nodes: Nodes, from: nat, parent: nat, name: string)
    requires Wf(nodes) && Exists(nodes, from) && Exists(nodes, parent) && !IsDir(nodes, parent)
    ensures
      var (made, ino) := GetOrCreateDir(nodes, parent, name);
      SameFrom(nodes, made, from) && Stray(made, from, ino) && Wf(made) && Exists(made, from)
  {
    Sanitize.ComponentIsClean(name);
    AttachStray(nodes, from, parent, NewDir(nodes, parent, name, None));
    SameFromWf(nodes, GetOrCreateDir(nodes, parent, name).0, from);
  }

  lemma SameFromWf(nodes: Nodes, after: Nodes, from: nat)
    requires SameFrom(nodes, after, from)
    ensures Wf(after) && |nodes| <= |after|
  {
  }

  /** Clean parts are shown as they are. */
  lemma MkCleanDirs(nodes: Nodes, from: nat, path: Path, parent: nat, parts: Path)
    requires Wf(nodes) && CleanPath(parts) && Exists(nodes, from) && Resolve(nodes, from, path) == Some(parent)
    ensures
      var (made, ino) := MkDirs(nodes, parent, parts);
      && Grown(nodes, made, from, path + parts)
      && if Unblocked(nodes, from, path + parts) then Resolve(made, from, path + parts) == Some(ino) else Stray(made, from, ino)
  {
    MkDirsGrows(nodes, from, path, parent, parts);
    CleanIsShown(nodes, parent, parts);
  }
}

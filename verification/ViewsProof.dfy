/**
 * The steps behind the view theorems: filing one descriptor adds its record to its own directory and changes no other,
 * makes exactly the directories of its key, and moves nothing in the other views. Building a view repeats that step.
 */
module ViewsProof {
  import opened Wrappers
  import opened TreeModel
  import opened TreePaths
  import opened TreeDirs
  import opened Views
  import Sanitize

  lemma {:induction false} SelectEmpty(view: View, ds: seq<BlobDescriptor>, p: Path)
    requires p != [] && !Wanted(view, ds, p)
    ensures Select(view, ds, p) == []
  {
    hide Key;
    if ds != [] {
      var init := ds[..|ds| - 1];
      WantedSnoc(view, init, ds[|ds| - 1], p);
      assert init + [ds[|ds| - 1]] == ds;
      SelectEmpty(view, init, p);
    }
  }

  lemma {:induction false} SelectShort(view: View, ds: seq<BlobDescriptor>, p: Path)
    requires |p| != Depth(view)
    ensures Select(view, ds, p) == []
  {
    hide Key;
    if ds != [] {
      KeyIsClean(view, ds[|ds| - 1]);
      SelectShort(view, ds[..|ds| - 1], p);
    }
  }

  lemma WantedSnoc(view: View, ds: seq<BlobDescriptor>, d: BlobDescriptor, p: Path)
    ensures Wanted(view, ds + [d], p) <==> Wanted(view, ds, p) || p <= Key(view, d)
  {
    hide Key;
    var longer := ds + [d];
    if Wanted(view, ds, p) && p != [] {
      var i :| 0 <= i < |ds| && p <= Key(view, ds[i]);
      assert longer[i] == ds[i];
    }
    if p <= Key(view, d) { assert longer[|ds|] == d; }
    if Wanted(view, longer, p) && p != [] {
      var i :| 0 <= i < |longer| && p <= Key(view, longer[i]);
      if i < |ds| { assert longer[i] == ds[i]; }
    }
  }

  lemma SelectSnoc(view: View, ds: seq<BlobDescriptor>, d: BlobDescriptor, p: Path)
    ensures Select(view, ds + [d], p) == Select(view, ds, p) + (if Key(view, d) == p then [d] else [])
  {
    hide Key;
    assert (ds + [d])[..|ds|] == ds;
  }

  lemma RecordsSnoc(ext: Extension, ds: seq<BlobDescriptor>, d: BlobDescriptor)
    requires AllValid(ds) && Valid(d)
    ensures AllValid(ds + [d]) && Records(ext, ds + [d]) == Records(ext, ds) + [RecordFor(ext, d)]
  {
    assert (ds + [d])[..|ds|] == ds;
  }

  // ---------- Directories on a clear way ----------

  /** No file stands where a directory of `full` is wanted. */
  ghost predicate ClearWay(nodes: Nodes, from: nat, full: Path) {
    forall p :: p <= full && Resolve(nodes, from, p).Some? ==> IsDir(nodes, Resolve(nodes, from, p).value)
  }

  lemma GetOrCreateGrows(nodes: Nodes, from: nat, path: Path, parent: nat, name: string)
    requires Wf(nodes) && Sanitize.Clean(name) && Exists(nodes, from)
    requires Resolve(nodes, from, path) == Some(parent) && IsDir(nodes, parent)
    ensures
      var (made, ino) := GetOrCreateDir(nodes, parent, name);
      && Grown(nodes, made, from, path + [name])
      && Resolve(made, from, path + [name]) == Some(ino)
  {
    Sanitize.FixpointsAreClean(name);
    if Lookup(nodes, parent, name).Some? {
      ResolveSnoc(nodes, from, path, name);
      NoChange(nodes, from, path + [name]);
    } else {
      NewDirGrows(nodes, from, path, parent, name);
    }
  }

  lemma StillClear(nodes: Nodes, after: Nodes, from: nat, a: Path, full: Path)
    requires Grown(nodes, after, from, a) && ClearWay(nodes, from, full)
    ensures ClearWay(after, from, full)
  {
    forall p | p <= full && Resolve(after, from, p).Some? ensures IsDir(after, Resolve(after, from, p).value) {
      assert GrownAt(nodes, after, from, a, p);
      var ino := Resolve(after, from, p).value;
      assert NewNodeBare(nodes, after, ino);
      if Exists(nodes, ino) { assert SameIdentity(nodes[ino - 1], after[ino - 1]); }
    }
  }

  /** With no file on the way, nor at its end, the path ends in a directory. */
  lemma MkDirsClear(nodes: Nodes, from: nat, path: Path, parent: nat, parts: Path)
    requires Wf(nodes) && CleanPath(parts) && Exists(nodes, from) && Resolve(nodes, from, path) == Some(parent)
    requires ClearWay(nodes, from, path + parts)
    ensures
      var (made, ino) := MkDirs(nodes, parent, parts);
      && Grown(nodes, made, from, path + parts) && Resolve(made, from, path + parts) == Some(ino) && IsDir(made, ino)
  {
    MkCleanDirs(nodes, from, path, parent, parts);
    assert Unblocked(nodes, from, path + parts);
    StillClear(nodes, MkDirs(nodes, parent, parts).0, from, path + parts, path + parts);
  }

  /** One step of a clear way. */
  lemma ClearStep(nodes: Nodes, from: nat, path: Path, parent: nat, parts: Path)
    requires Wf(nodes) && CleanPath(parts) && Exists(nodes, from) && parts != []
    requires Resolve(nodes, from, path) == Some(parent) && IsDir(nodes, parent) && ClearWay(nodes, from, path + parts)
    ensures
      var (made, ino) := GetOrCreateDir(nodes, parent, parts[0]);
      var step := path + [parts[0]];
      && Grown(nodes, made, from, step) && Resolve(made, from, step) == Some(ino) && IsDir(made, ino)
      && step + parts[1..] == path + parts && ClearWay(made, from, step + parts[1..])
  {
    var step := path + [parts[0]];
    assert step + parts[1..] == path + parts && step <= path + parts;
    GetOrCreateGrows(nodes, from, path, parent, parts[0]);
    StillClear(nodes, GetOrCreateDir(nodes, parent, parts[0]).0, from, step, path + parts);
  }

  ghost predicate Siblings(nodes: Nodes, a: nat, b: nat) {
    && Exists(nodes, a) && Exists(nodes, b) && a != b
    && nodes[a - 1].parent == nodes[b - 1].parent && nodes[a - 1].parent < a && nodes[b - 1].parent < b
  }

  /** Directories made below one sibling do not show below another. */
  lemma {:induction false} MkDirsElsewhere(nodes: Nodes, from: nat, path: Path, parent: nat, parts: Path, other: nat, p: Path)
    requires Wf(nodes) && CleanPath(parts) && Siblings(nodes, from, other)
    requires Resolve(nodes, from, path) == Some(parent) && IsDir(nodes, parent)
    requires ClearWay(nodes, from, path + parts)
    ensures Resolve(MkDirs(nodes, parent, parts).0, other, p) == Resolve(nodes, other, p)
    decreases |parts|
  {
    if parts != [] {
      var step := path + [parts[0]];
      ClearStep(nodes, from, path, parent, parts);
      var (made, ino) := GetOrCreateDir(nodes, parent, parts[0]);
      assert SameIdentity(nodes[from - 1], made[from - 1]) && SameIdentity(nodes[other - 1], made[other - 1]);
      if Lookup(nodes, parent, parts[0]).None? {
        Sanitize.FixpointsAreClean(parts[0]);
        forall q ensures Resolve(nodes, other, q) != Some(parent) {
          SiblingsDisjoint(nodes, from, other, path, q);
        }
        ResolveElsewhere(nodes, parent, NewDir(nodes, parent, parts[0], None), other, p);
      }
      MkDirsElsewhere(made, from, step, ino, parts[1..], other, p);
    }
  }

  // ---------- Making the directories of a key ----------

  /** A bucket after the directories of `key` have been made. */
  ghost predicate MadeBucket(nodes: Nodes, base: nat, view: View, ext: Extension, ds: seq<BlobDescriptor>, key: Path, p: Path)
    requires AllValid(ds)
  {
    SelectValid(view, ds, p);
    if |p| > Depth(view) then Resolve(nodes, base, p).Some? ==> !IsDir(nodes, Resolve(nodes, base, p).value)
    else
      && (Resolve(nodes, base, p).Some? <==> Wanted(view, ds, p) || p <= key)
      && (Resolve(nodes, base, p).Some? ==>
            var dir := Resolve(nodes, base, p).value;
            IsDir(nodes, dir) && FilesIn(nodes, dir) == Records(ext, Select(view, ds, p)))
  }

  lemma HoldsIsClear(nodes: Nodes, base: nat, view: View, ext: Extension, ds: seq<BlobDescriptor>, key: Path)
    requires Wf(nodes) && AllValid(ds) && Holds(nodes, base, view, ext, ds) && |key| <= Depth(view)
    ensures ClearWay(nodes, base, key)
  {
    hide Key;
    forall p | p <= key && Resolve(nodes, base, p).Some? ensures IsDir(nodes, Resolve(nodes, base, p).value) {
      assert Bucket(nodes, base, view, ext, ds, p);
    }
  }

  /** One bucket, before and after directories have been made. */
  lemma BucketMade(nodes: Nodes, made: Nodes, base: nat, view: View, ext: Extension, ds: seq<BlobDescriptor>, key: Path, p: Path)
    requires Wf(nodes) && AllValid(ds) && Exists(nodes, base) && Bucket(nodes, base, view, ext, ds, p)
    requires OnlyDirsAdded(nodes, made) && GrownAt(nodes, made, base, key, p) && |key| <= Depth(view)
    requires ClearWay(nodes, base, key)
    ensures MadeBucket(made, base, view, ext, ds, key, p)
  {
    hide Wf, FilesIn, Key;
    if Resolve(nodes, base, p).Some? {
      ResolvedNode(nodes, base, p);
      hide Resolve;
      var ino := Resolve(nodes, base, p).value;
      assert OldNodeKept(nodes, made, ino);
      assert SameIdentity(nodes[ino - 1], made[ino - 1]);
    } else if p <= key {
      assert Unblocked(nodes, base, p);
      assert NewNodeBare(nodes, made, Resolve(made, base, p).value);
      assert p != [];
      hide Resolve;
      SelectEmpty(view, ds, p);
    }
  }

  lemma MadeBuckets(nodes: Nodes, base: nat, view: View, ext: Extension, ds: seq<BlobDescriptor>, d: BlobDescriptor, p: Path)
    requires Wf(nodes) && AllValid(ds) && Holds(nodes, base, view, ext, ds)
    ensures
      var (made, dir) := MkDirs(nodes, base, Key(view, d));
      && Grown(nodes, made, base, Key(view, d)) && IsDir(made, dir)
      && Resolve(made, base, Key(view, d)) == Some(dir)
      && MadeBucket(made, base, view, ext, ds, Key(view, d), p)
  {
    var key := Key(view, d);
    ViewIsClear(nodes, base, view, ext, ds, d);
    KeyIsClean(view, d);
    assert Bucket(nodes, base, view, ext, ds, p);
    hide Key, MkDirs, Resolve, ClearWay, CleanPath, OnlyDirsAdded, GrownAt, Bucket, MadeBucket, Wf;
    MkDirsClear(nodes, base, [], base, key);
    var (made, dir) := MkDirs(nodes, base, key);
    assert GrownAt(nodes, made, base, key, p);
    BucketMade(nodes, made, base, view, ext, ds, key, p);
  }

  // ---------- Filing one descriptor ----------

  /** Listing a file in the directory at `key` changes that directory only, down to its depth. */
  lemma FileAttached(made: Nodes, base: nat, key: Path, dir: nat, node: TreeNode, p: Path)
    requires Wf(made) && FreshNode(made, node) && node.File? && IsDir(made, dir) && Exists(made, base)
    requires Resolve(made, base, key) == Some(dir) && |p| <= |key|
    ensures Resolve(Attach(made, dir, node), base, p) == Resolve(made, base, p)
    ensures Resolve(made, base, p).Some? ==>
      var ino := Resolve(made, base, p).value;
      && (IsDir(made, ino) ==> IsDir(Attach(made, dir, node), ino))
      && FilesIn(Attach(made, dir, node), ino) == FilesIn(made, ino) + (if p == key then [RecordOf(node)] else [])
  {
    var after := Attach(made, dir, node);
    hide Attach, Wf, Resolve, FilesIn, FreshNode;
    AttachExtends(made, dir, node);
    ResolveAttach(made, dir, node, base, p);
    if Resolve(made, base, p).Some? {
      var ino := Resolve(made, base, p).value;
      ResolvedNode(made, base, p);
      assert SameIdentity(made[ino - 1], after[ino - 1]);
      if ino == dir { ResolveUnique(made, base, key, p); }
      FilesAttach(made, dir, node, ino);
    } else {
      NewlyResolved(made, base, key, dir, node.name, p);
    }
  }

  lemma AddedBucket(made: Nodes, base: nat, view: View, ext: Extension, ds: seq<BlobDescriptor>, d: BlobDescriptor, dir: nat, p: Path)
    requires Wf(made) && AllValid(ds) && Valid(d) && IsDir(made, dir) && Exists(made, base)
    requires Resolve(made, base, Key(view, d)) == Some(dir)
    requires MadeBucket(made, base, view, ext, ds, Key(view, d), p)
    ensures AllValid(ds + [d]) && Bucket(AddBlob(made, dir, ext, d), base, view, ext, ds + [d], p)
  {
    hide Key, Attach, Resolve, FilesIn, Wanted, Wf, IsDir, Select, Records;
    var node := NewFile(made, dir, FileName(ext, d), ContentOf(d), d.size, d.uploaded);
    Sanitize.ComponentIsClean(FileName(ext, d));
    assert RecordOf(node) == RecordFor(ext, d);
    assert AddBlob(made, dir, ext, d) == Attach(made, dir, node);
    KeyIsClean(view, d);
    RecordsSnoc(ext, ds, d);
    SelectValid(view, ds, p);
    hide AddBlob, RecordFor, RecordOf, FileName, Valid;
    WantedSnoc(view, ds, d, p);
    SelectSnoc(view, ds, d, p);
    RecordsSnoc(ext, Select(view, ds, p), d);
    assert Select(view, ds, p) + [] == Select(view, ds, p);
    if |p| <= Depth(view) {
      FileAttached(made, base, Key(view, d), dir, node, p);
    } else {
      NoDirBelow(made, base, dir, node, p);
    }
  }

  /** Adding a file puts a directory nowhere. */
  lemma NoDirBelow(made: Nodes, base: nat, dir: nat, node: TreeNode, p: Path)
    requires Wf(made) && FreshNode(made, node) && node.File? && Exists(made, base) && IsDir(made, dir)
    requires Resolve(made, base, p).Some? ==> !IsDir(made, Resolve(made, base, p).value)
    ensures
      var after := Attach(made, dir, node);
      Resolve(after, base, p).Some? ==> !IsDir(after, Resolve(after, base, p).value)
  {
    AttachExtends(made, dir, node);
    ResolveAttach(made, dir, node, base, p);
    if Resolve(made, base, p).Some? {
      ResolvedNode(made, base, p);
      var ino := Resolve(made, base, p).value;
      assert SameIdentity(made[ino - 1], Attach(made, dir, node)[ino - 1]);
    }
  }

  lemma AddBlobKeepsWf(nodes: Nodes, dir: nat, ext: Extension, d: BlobDescriptor)
    requires Wf(nodes) && Valid(d)
    ensures Wf(AddBlob(nodes, dir, ext, d)) && Extends(nodes, AddBlob(nodes, dir, ext, d))
  {
    AddFileKeepsWf(nodes, dir, FileName(ext, d), ContentOf(d), d.size, d.uploaded);
  }

  lemma ExtendsTrans(a: Nodes, b: Nodes, c: Nodes)
    requires Extends(a, b) && Extends(b, c)
    ensures Extends(a, c)
  {
    forall i | 0 <= i < |a| ensures SameIdentity(a[i], c[i]) {
      assert SameIdentity(a[i], b[i]) && SameIdentity(b[i], c[i]);
    }
  }

  /** Filing a descriptor adds it, and only it, to its view. */
  lemma PutInHolds(nodes: Nodes, base: nat, view: View, ext: Extension, ds: seq<BlobDescriptor>, d: BlobDescriptor)
    requires Wf(nodes) && AllValid(ds) && Valid(d) && Holds(nodes, base, view, ext, ds)
    ensures
      var after := PutIn(nodes, base, view, ext, d);
      && Wf(after) && Extends(nodes, after)
      && AllValid(ds + [d]) && Holds(after, base, view, ext, ds + [d])
  {
    hide Key;
    var (made, dir) := MkDirs(nodes, base, Key(view, d));
    MadeBuckets(nodes, base, view, ext, ds, d, []);
    AddBlobKeepsWf(made, dir, ext, d);
    var after := AddBlob(made, dir, ext, d);
    ExtendsTrans(nodes, made, after);
    assert SameIdentity(nodes[base - 1], after[base - 1]);
    hide Wf, Extends, MkDirs, AddBlob, Grown;
    forall p ensures Bucket(after, base, view, ext, ds + [d], p) {
      MadeBuckets(nodes, base, view, ext, ds, d, p);
      AddedBucket(made, base, view, ext, ds, d, dir, p);
    }
  }

  /** Filing in one view leaves the other views alone. */
  lemma PutInElsewhere(nodes: Nodes, base: nat, view: View, ext: Extension, ds: seq<BlobDescriptor>, d: BlobDescriptor,
                       other: nat, view2: View, ds2: seq<BlobDescriptor>)
    requires Wf(nodes) && AllValid(ds) && Valid(d) && Holds(nodes, base, view, ext, ds)
    requires Siblings(nodes, base, other) && AllValid(ds2) && Holds(nodes, other, view2, ext, ds2)
    ensures Holds(PutIn(nodes, base, view, ext, d), other, view2, ext, ds2)
  {
    hide Key;
    var key := Key(view, d);
    var (made, dir) := MkDirs(nodes, base, key);
    var after := AddBlob(made, dir, ext, d);
    MadeBuckets(nodes, base, view, ext, ds, d, []);
    AddBlobKeepsWf(made, dir, ext, d);
    ExtendsTrans(nodes, made, after);
    assert SameIdentity(nodes[other - 1], after[other - 1]);
    forall p ensures Bucket(after, other, view2, ext, ds2, p) {
      assert Bucket(nodes, other, view2, ext, ds2, p);
      ElsewhereSame(nodes, base, view, ext, ds, d, other, p);
    }
  }

  lemma ElsewhereSame(nodes: Nodes, base: nat, view: View, ext: Extension, ds: seq<BlobDescriptor>, d: BlobDescriptor,
                      other: nat, p: Path)
    requires Wf(nodes) && AllValid(ds) && Valid(d) && Holds(nodes, base, view, ext, ds)
    requires Siblings(nodes, base, other)
    ensures
      var after := PutIn(nodes, base, view, ext, d);
      && Resolve(after, other, p) == Resolve(nodes, other, p)
      && (Resolve(nodes, other, p).Some? ==>
            var ino := Resolve(nodes, other, p).value;
            (IsDir(after, ino) <==> IsDir(nodes, ino)) && FilesIn(after, ino) == FilesIn(nodes, ino))
  {
    hide Key;
    var key := Key(view, d);
    var (made, dir) := MkDirs(nodes, base, key);
    MadeBuckets(nodes, base, view, ext, ds, d, []);
    KeyIsClean(view, d);
    HoldsIsClear(nodes, base, view, ext, ds, key);
    assert [] + key == key;
    MkDirsElsewhere(nodes, base, [], base, key, other, p);
    assert SameIdentity(nodes[base - 1], made[base - 1]) && SameIdentity(nodes[other - 1], made[other - 1]);
    AddedElsewhere(nodes, made, base, key, dir, ext, d, other, p);
  }

  lemma AddedElsewhere(nodes: Nodes, made: Nodes, base: nat, key: Path, dir: nat, ext: Extension, d: BlobDescriptor, other: nat, p: Path)
    requires Wf(nodes) && Valid(d) && OnlyDirsAdded(nodes, made) && Siblings(made, base, other)
    requires Resolve(made, base, key) == Some(dir) && IsDir(made, dir) && Resolve(made, other, p) == Resolve(nodes, other, p)
    ensures
      var after := AddBlob(made, dir, ext, d);
      && Resolve(after, other, p) == Resolve(nodes, other, p)
      && (Resolve(nodes, other, p).Some? ==>
            var ino := Resolve(nodes, other, p).value;
            (IsDir(after, ino) <==> IsDir(nodes, ino)) && FilesIn(after, ino) == FilesIn(nodes, ino))
  {
    Sanitize.ComponentIsClean(FileName(ext, d));
    var node := NewFile(made, dir, FileName(ext, d), ContentOf(d), d.size, d.uploaded);
    var after := Attach(made, dir, node);
    forall q ensures Resolve(made, other, q) != Some(dir) {
      SiblingsDisjoint(made, base, other, key, q);
    }
    ResolveElsewhere(made, dir, node, other, p);
    if Resolve(nodes, other, p).Some? {
      ResolvedNode(nodes, other, p);
      OtherDirKept(nodes, made, dir, node, Resolve(nodes, other, p).value);
    }
  }

  lemma OtherDirKept(nodes: Nodes, made: Nodes, dir: nat, node: TreeNode, ino: nat)
    requires OnlyDirsAdded(nodes, made) && FreshNode(made, node) && IsDir(made, dir) && Exists(nodes, ino) && ino != dir
    ensures IsDir(Attach(made, dir, node), ino) <==> IsDir(nodes, ino)
    ensures FilesIn(Attach(made, dir, node), ino) == FilesIn(nodes, ino)
  {
    assert OldNodeKept(nodes, made, ino);
    AttachExtends(made, dir, node);
    assert SameIdentity(nodes[ino - 1], made[ino - 1]) && SameIdentity(made[ino - 1], Attach(made, dir, node)[ino - 1]);
    hide Attach, FilesIn;
    FilesAttach(made, dir, node, ino);
  }

  // ---------- Sibling directories keep distinct names ----------

  lemma AttachKeepsDistinct(nodes: Nodes, parent: nat, node: TreeNode, from: nat)
    requires Wf(nodes) && FreshNode(nodes, node) && node.parent == parent && IsDir(nodes, parent) && DirsDistinct(nodes, from)
    requires node.Directory? ==> Lookup(nodes, parent, node.name) == None
    ensures DirsDistinct(Attach(nodes, parent, node), from)
  {
    var after := Attach(nodes, parent, node);
    AttachExtends(nodes, parent, node);
    LookupFinds(nodes, parent, node.name);
    forall d, c1, c2 | d >= from && c1 in Children(after, d) && c2 in Children(after, d) && SameDirName(after, c1, c2)
      ensures c1 == c2
    {
      AttachedChildren(nodes, parent, node, d);
      ChildrenExist(nodes, d);
      assert d == parent && node.Directory? ==> forall c <- Children(nodes, d) :: !Named(nodes, c, node.name);
      if c1 != NextInode(nodes) { assert SameIdentity(nodes[c1 - 1], after[c1 - 1]); }
      if c2 != NextInode(nodes) { assert SameIdentity(nodes[c2 - 1], after[c2 - 1]); }
      if c1 != NextInode(nodes) && c2 != NextInode(nodes) { assert SameDirName(nodes, c1, c2); }
    }
  }

  lemma {:induction false} MkDirsKeepsDistinct(nodes: Nodes, base: nat, path: Path, parent: nat, parts: Path, from: nat)
    requires Wf(nodes) && CleanPath(parts) && Exists(nodes, base) && DirsDistinct(nodes, from)
    requires Resolve(nodes, base, path) == Some(parent) && IsDir(nodes, parent) && ClearWay(nodes, base, path + parts)
    ensures DirsDistinct(MkDirs(nodes, parent, parts).0, from)
    decreases |parts|
  {
    if parts != [] {
      var step := path + [parts[0]];
      ClearStep(nodes, base, path, parent, parts);
      var (made, ino) := GetOrCreateDir(nodes, parent, parts[0]);
      if Lookup(nodes, parent, parts[0]).None? {
        Sanitize.FixpointsAreClean(parts[0]);
        AttachKeepsDistinct(nodes, parent, NewDir(nodes, parent, parts[0], None), from);
      }
      MkDirsKeepsDistinct(made, base, step, ino, parts[1..], from);
    }
  }

  lemma PutInKeepsDistinct(nodes: Nodes, base: nat, view: View, ext: Extension, ds: seq<BlobDescriptor>, d: BlobDescriptor, from: nat)
    requires Wf(nodes) && AllValid(ds) && Valid(d) && Holds(nodes, base, view, ext, ds) && DirsDistinct(nodes, from)
    ensures DirsDistinct(PutIn(nodes, base, view, ext, d), from)
  {
    hide Key, MkDirs, Resolve, FileName, ContentOf, OnlyDirsAdded, GrownAt, MadeBucket, CleanPath, ClearWay, DirsDistinct, Sanitize.Component;
    var key := Key(view, d);
    ViewIsClear(nodes, base, view, ext, ds, d);
    MadeBuckets(nodes, base, view, ext, ds, d, []);
    MkDirsKeepsDistinct(nodes, base, [], base, key, from);
    var (made, dir) := MkDirs(nodes, base, key);
    MadeIsWf(nodes, made, base, key);
    Sanitize.ComponentIsClean(FileName(ext, d));
    AttachKeepsDistinct(made, dir, NewFile(made, dir, FileName(ext, d), ContentOf(d), d.size, d.uploaded), from);
  }

  lemma MadeIsWf(nodes: Nodes, made: Nodes, base: nat, key: Path)
    requires Grown(nodes, made, base, key)
    ensures Wf(made)
  {
  }

  /** What making the directories of a key asks of a view. */
  lemma ViewIsClear(nodes: Nodes, base: nat, view: View, ext: Extension, ds: seq<BlobDescriptor>, d: BlobDescriptor)
    requires Wf(nodes) && AllValid(ds) && Holds(nodes, base, view, ext, ds)
    ensures
      var key := Key(view, d);
      && CleanPath(key) && [] + key == key && Resolve(nodes, base, []) == Some(base) && Exists(nodes, base)
      && ClearWay(nodes, base, key)
  {
    hide Key;
    KeyIsClean(view, d);
    HoldsIsClear(nodes, base, view, ext, ds, Key(view, d));
  }

  // ---------- Nodes outside a view ----------

  /** Directories made below a node leave all nodes before it as they are. */
  lemma {:induction false} MkDirsBelow(nodes: Nodes, parent: nat, parts: Path, k: nat)
    requires Wf(nodes) && Exists(nodes, parent) && k < parent
    ensures
      var (made, ino) := MkDirs(nodes, parent, parts);
      Wf(made) && k < ino <= |made| && made[..k] == nodes[..k]
    decreases |parts|
  {
    if parts != [] {
      if parts[0] == "" {
        MkDirsBelow(nodes, parent, parts[1..], k);
      } else {
        GetOrCreateBelow(nodes, parent, parts[0], k);
        var (made, ino) := GetOrCreateDir(nodes, parent, parts[0]);
        hide GetOrCreateDir, Wf;
        MkDirsBelow(made, ino, parts[1..], k);
      }
    }
  }

  lemma GetOrCreateBelow(nodes: Nodes, parent: nat, name: string, k: nat)
    requires Wf(nodes) && Exists(nodes, parent) && k < parent
    ensures
      var (made, ino) := GetOrCreateDir(nodes, parent, name);
      Wf(made) && k < ino <= |made| && Exists(made, ino) && made[..k] == nodes[..k]
  {
    LookupFinds(nodes, parent, name);
    AddDirKeepsWf(nodes, parent, name, None);
  }

  lemma PutInBelow(nodes: Nodes, base: nat, view: View, ext: Extension, d: BlobDescriptor, k: nat)
    requires Wf(nodes) && Valid(d) && Exists(nodes, base) && k < base
    ensures |PutIn(nodes, base, view, ext, d)| >= k && PutIn(nodes, base, view, ext, d)[..k] == nodes[..k]
  {
    hide Key, Wf, FileName, ContentOf;
    var (made, dir) := MkDirs(nodes, base, Key(view, d));
    MkDirsBelow(nodes, base, Key(view, d), k);
  }
}

/**
 * Applying tags to a tree: what each tag claims, and which claims any tree lets it meet. The two passes are followed tag by
 * tag; meeting the claims of one tag and then of the others is meeting them all in order.
 */
module Restore {
  import opened Wrappers
  import opened TreeModel
  import opened TreePaths
  import opened TreeDirs
  import opened Persist
  import RestoredFiles
  import Sanitize
  import Text

  // ---------- Trees without two siblings of one name ----------

  ghost predicate Unique(nodes: Nodes) {
    forall d, c1, c2 :: c1 in Children(nodes, d) && c2 in Children(nodes, d) && SameName(nodes, c1, c2) ==> c1 == c2
  }

  predicate SameName(nodes: Nodes, a: nat, b: nat) {
    Exists(nodes, a) && Exists(nodes, b) && nodes[a - 1].name == nodes[b - 1].name
  }

  lemma UniqueAttach(nodes: Nodes, parent: nat, node: TreeNode)
    requires Wf(nodes) && Unique(nodes) && FreshNode(nodes, node) && parent != NextInode(nodes)
    requires Lookup(nodes, parent, node.name) == None
    ensures Unique(Attach(nodes, parent, node))
  {
    var after := Attach(nodes, parent, node);
    AttachExtends(nodes, parent, node);
    LookupFinds(nodes, parent, node.name);
    forall d, c1, c2 | c1 in Children(after, d) && c2 in Children(after, d) && SameName(after, c1, c2)
      ensures c1 == c2
    {
      AttachedChildren(nodes, parent, node, d);
      ChildrenExist(nodes, d);
      assert d == parent ==> forall c <- Children(nodes, d) :: !Named(nodes, c, node.name);
      if c1 != NextInode(nodes) { assert SameIdentity(nodes[c1 - 1], after[c1 - 1]); }
      if c2 != NextInode(nodes) { assert SameIdentity(nodes[c2 - 1], after[c2 - 1]); }
      if c1 != NextInode(nodes) && c2 != NextInode(nodes) { assert SameName(nodes, c1, c2); }
    }
  }

  /** With unique names, name lookups find exactly what is listed. */
  lemma {:induction false} ReachesIsResolve(nodes: Nodes, from: nat, path: Path, to: nat)
    requires Wf(nodes) && Unique(nodes)
    ensures Reaches(nodes, from, path, to) <==> Resolve(nodes, from, path) == Some(to)
    decreases |path|
  {
    if path != [] {
      LookupFinds(nodes, from, path[0]);
      if Reaches(nodes, from, path, to) {
        var c :| c in Children(nodes, from) && Named(nodes, c, path[0]) && Reaches(nodes, c, path[1..], to);
        assert SameName(nodes, c, Lookup(nodes, from, path[0]).value);
        ReachesIsResolve(nodes, c, path[1..], to);
      }
      if Resolve(nodes, from, path) == Some(to) {
        var c := Lookup(nodes, from, path[0]).value;
        ReachesIsResolve(nodes, c, path[1..], to);
      }
    }
  }

  lemma EntryAtIsHasEntry(nodes: Nodes, path: Path, e: Entry)
    requires Wf(nodes) && Unique(nodes)
    ensures HasEntry(nodes, path, e) <==> EntryAt(nodes, path) == Some(e)
  {
    if HasEntry(nodes, path, e) {
      var to :| Reaches(nodes, ROOT, path, to) && Exists(nodes, to) && EntryOf(nodes[to - 1]) == e;
      ReachesIsResolve(nodes, ROOT, path, to);
    }
    if EntryAt(nodes, path) == Some(e) {
      ResolvedNode(nodes, ROOT, path);
      ReachesIsResolve(nodes, ROOT, path, Resolve(nodes, ROOT, path).value);
    }
  }

  /** Making directories never makes two siblings of one name, wherever they go. */
  lemma {:induction false} MkDirsUnique(nodes: Nodes, parent: nat, parts: Path)
    requires Wf(nodes) && Unique(nodes) && CleanPath(parts) && Exists(nodes, parent)
    ensures Unique(MkDirs(nodes, parent, parts).0)
    decreases |parts|
  {
    if parts != [] {
      assert Sanitize.Clean(parts[0]);
      GetOrCreateUnique(nodes, parent, parts[0]);
      var (made, ino) := GetOrCreateDir(nodes, parent, parts[0]);
      hide Unique, Wf, GetOrCreateDir;
      MkDirsUnique(made, ino, parts[1..]);
    }
  }

  lemma GetOrCreateUnique(nodes: Nodes, parent: nat, name: string)
    requires Wf(nodes) && Unique(nodes) && Sanitize.Clean(name) && Exists(nodes, parent)
    ensures
      var (made, ino) := GetOrCreateDir(nodes, parent, name);
      Wf(made) && Unique(made) && Exists(made, ino)
  {
    Sanitize.FixpointsAreClean(name);
    LookupFinds(nodes, parent, name);
    if Lookup(nodes, parent, name).None? {
      AddDirKeepsWf(nodes, parent, name, None);
      UniqueAttach(nodes, parent, NewDir(nodes, parent, name, None));
    }
  }

  // ---------- Growth, seen as entries ----------

  function Else(first: Option<Entry>, second: Option<Entry>): Option<Entry> {
    if first.Some? then first else second
  }

  predicate IsFile(e: Option<Entry>) {
    e.Some? && e.value != Dir
  }

  /** No file of the tree stands above `p`, as `EntryAt` sees it. */
  ghost predicate Open(nodes: Nodes, p: Path)
    requires Wf(nodes)
  {
    forall q :: q < p ==> !IsFile(EntryAt(nodes, q))
  }

  lemma OpenIsUnblocked(nodes: Nodes, p: Path)
    requires Wf(nodes)
    ensures Open(nodes, p) <==> Unblocked(nodes, ROOT, p)
  {
    forall q: Path ensures Resolve(nodes, ROOT, q).Some? ==>
      (IsDir(nodes, Resolve(nodes, ROOT, q).value) <==> !IsFile(EntryAt(nodes, q)))
    {
      if Resolve(nodes, ROOT, q).Some? { ResolvedNode(nodes, ROOT, q); }
    }
  }

  lemma GrownNode(nodes: Nodes, after: Nodes, full: Path, p: Path, ino: nat)
    requires Wf(nodes) && Grown(nodes, after, ROOT, full)
    ensures Wf(after) && GrownAt(nodes, after, ROOT, full, p)
    ensures Exists(nodes, ino) ==> Exists(after, ino) && EntryOf(after[ino - 1]) == EntryOf(nodes[ino - 1])
    ensures |nodes| < ino <= |after| ==> EntryOf(after[ino - 1]) == Dir
  {
    assert OldNodeKept(nodes, after, ino) && NewNodeBare(nodes, after, ino);
    if Exists(nodes, ino) { assert SameIdentity(nodes[ino - 1], after[ino - 1]); }
  }

  lemma GrownEntries(nodes: Nodes, after: Nodes, full: Path, p: Path)
    requires Wf(nodes) && Grown(nodes, after, ROOT, full)
    ensures EntryAt(after, p) == Else(EntryAt(nodes, p), if p <= full && Open(nodes, p) then Some(Dir) else None)
  {
    var was, now := Resolve(nodes, ROOT, p), Resolve(after, ROOT, p);
    GrownNode(nodes, after, full, p, if was.Some? then was.value else if now.Some? then now.value else 0);
    OpenIsUnblocked(nodes, p);
    if was.Some? { ResolvedNode(nodes, ROOT, p); }
    hide Grown, Wf, Resolve, EntryOf, Open, Unblocked;
  }

  // ---------- What a list of entries claims ----------

  ghost predicate GoodListing(ls: seq<Listed>) {
    forall i :: 0 <= i < |ls| ==> GoodEntry(ls[i])
  }

  ghost predicate GoodEntry(l: Listed) {
    l.0 != [] && CleanPath(l.0) && (l.1.Blob? ==> l.1.mime != Some(""))
  }

  /** A listed directory or blob claims its path, and every path above it for a directory. */
  function ClaimOf(l: Listed, p: Path): Option<Entry> {
    if l.1 == Opaque || !(p <= l.0) then None
    else if p == l.0 then Some(l.1)
    else Some(Dir)
  }

  /** The first claim to a path wins. */
  function Claim(ls: seq<Listed>, p: Path): Option<Entry> {
    if ls == [] then None else Else(ClaimOf(ls[0], p), Claim(ls[1..], p))
  }

  lemma {:induction false} ClaimConcat(a: seq<Listed>, b: seq<Listed>, p: Path)
    ensures Claim(a + b, p) == Else(Claim(a, p), Claim(b, p))
  {
    if a == [] {
      assert a + b == b;
    } else {
      assert (a + b)[0] == a[0] && (a + b)[1..] == a[1..] + b;
      ClaimConcat(a[1..], b, p);
    }
  }

  /** Whoever claims a path claims everything above it. */
  lemma {:induction false} ClaimsAbove(ls: seq<Listed>, q: Path, p: Path)
    requires q <= p && Claim(ls, p).Some?
    ensures Claim(ls, q).Some?
  {
    if ClaimOf(ls[0], p).None? { ClaimsAbove(ls[1..], q, p); }
  }

  /** What stands at `p` once the claims have been met, as far as no file stands above it. */
  function Wanted(nodes: Nodes, ls: seq<Listed>, p: Path): Option<Entry>
    requires Wf(nodes)
  {
    Else(EntryAt(nodes, p), Claim(ls, p))
  }

  /** Neither a file of the tree nor a claimed one stands above `p`. */
  ghost predicate Clear(nodes: Nodes, ls: seq<Listed>, p: Path)
    requires Wf(nodes)
  {
    forall q :: q < p ==> !IsFile(Wanted(nodes, ls, q))
  }

  ghost function Met(nodes: Nodes, ls: seq<Listed>, p: Path): Option<Entry>
    requires Wf(nodes)
  {
    Else(EntryAt(nodes, p), if Clear(nodes, ls, p) then Claim(ls, p) else None)
  }

  /** The claims have been met: first come, first served, nothing there is touched, and nothing goes below a file. */
  ghost predicate Restored(nodes: Nodes, after: Nodes, ls: seq<Listed>)
    requires Wf(nodes)
  {
    && Wf(after) && (Unique(nodes) ==> Unique(after))
    && forall p :: EntryAt(after, p) == Met(nodes, ls, p)
  }

  lemma NothingRestored(nodes: Nodes)
    requires Wf(nodes)
    ensures Restored(nodes, nodes, [])
  {
  }

  /** One claim: what lies above a claimed path is at most a directory. */
  lemma MetByOne(nodes: Nodes, l: Listed, p: Path)
    requires Wf(nodes)
    ensures Met(nodes, [l], p) == Else(EntryAt(nodes, p), if Open(nodes, p) then ClaimOf(l, p) else None)
  {
    ClaimOne(l, p);
    forall q | q < p && ClaimOf(l, p).Some? ensures IsFile(Wanted(nodes, [l], q)) <==> IsFile(EntryAt(nodes, q)) {
      ClaimOne(l, q);
      assert q <= l.0 && q != l.0;
    }
  }

  lemma ClaimOne(l: Listed, p: Path)
    ensures Claim([l], p) == ClaimOf(l, p)
  {
    assert [l][1..] == [];
  }

  /** Meeting some claims and then others is meeting them all, in that order. */
  lemma MetTogether(nodes: Nodes, mid: Nodes, a: seq<Listed>, b: seq<Listed>, p: Path)
    requires Wf(nodes) && Restored(nodes, mid, a)
    ensures Met(mid, b, p) == Met(nodes, a + b, p)
  {
    ClaimConcat(a, b, p);
    if Clear(nodes, a + b, p) {
      forall q | q < p ensures EntryAt(mid, q) == Wanted(nodes, a, q) && Wanted(mid, b, q) == Wanted(nodes, a + b, q) {
        ClaimConcat(a, b, q);
        ClearAbove(nodes, a, b, q, p);
        assert EntryAt(mid, q) == Met(nodes, a, q);
      }
      ClearAbove(nodes, a, b, p, p);
    } else {
      var q :| q < p && IsFile(Wanted(nodes, a + b, q));
      ClaimConcat(a, b, q);
      if Clear(nodes, a, p) && Claim(a, p).Some? { ClaimsAbove(a, q, p); }
      if !Clear(nodes, a, q) {
        var q' :| q' < q && IsFile(Wanted(nodes, a, q'));
        BlockedInMid(nodes, mid, a, b, q', p);
      } else {
        assert EntryAt(mid, q) == Wanted(nodes, a, q);
        assert IsFile(Wanted(mid, b, q));
      }
    }
  }

  lemma ClearAbove(nodes: Nodes, a: seq<Listed>, b: seq<Listed>, q: Path, p: Path)
    requires Wf(nodes) && Clear(nodes, a + b, p) && q <= p
    ensures Clear(nodes, a, q)
  {
    forall r | r < q ensures !IsFile(Wanted(nodes, a, r)) {
      ClaimConcat(a, b, r);
      assert r < p && !IsFile(Wanted(nodes, a + b, r));
    }
  }

  /** The topmost claimed file is met, and blocks what is below it. */
  lemma {:induction false} BlockedInMid(nodes: Nodes, mid: Nodes, a: seq<Listed>, b: seq<Listed>, q: Path, p: Path)
    requires Wf(nodes) && Restored(nodes, mid, a) && q < p && IsFile(Wanted(nodes, a, q))
    ensures !Clear(mid, b, p)
    decreases |q|
  {
    if Clear(nodes, a, q) {
      assert EntryAt(mid, q) == Wanted(nodes, a, q);
      assert IsFile(Wanted(mid, b, q));
    } else {
      var r :| r < q && IsFile(Wanted(nodes, a, r));
      BlockedInMid(nodes, mid, a, b, r, p);
    }
  }

  lemma RestoredTogether(nodes: Nodes, mid: Nodes, after: Nodes, a: seq<Listed>, b: seq<Listed>)
    requires Wf(nodes) && Restored(nodes, mid, a) && Restored(mid, after, b)
    ensures Restored(nodes, after, a + b)
  {
    hide Met;
    forall p ensures EntryAt(after, p) == Met(nodes, a + b, p) {
      MetTogether(nodes, mid, a, b, p);
    }
  }

  // ---------- One tag ----------

  lemma FolderGrows(nodes: Nodes, l: Listed)
    requires Wf(nodes) && GoodEntry(l) && l.1 == Dir
    ensures
      var after := ApplyFolder(nodes, FolderTag(PathText(l.0)));
      Wf(after) && Grown(nodes, after, ROOT, l.0) && (Unique(nodes) ==> Unique(after))
  {
    hide Grown, Unique, Wf, Resolve, Stray, Unblocked, PathText;
    PathTextParts(l.0);
    RootResolves(nodes);
    assert [] + l.0 == l.0;
    MkCleanDirs(nodes, ROOT, [], ROOT, l.0);
    if Unique(nodes) { MkDirsUnique(nodes, ROOT, l.0); }
    GrownOnlyAdds(nodes, MkDirs(nodes, ROOT, l.0).0, ROOT, l.0);
  }

  /** A folder tag. */
  lemma ApplyOneFolder(nodes: Nodes, l: Listed)
    requires Wf(nodes) && GoodEntry(l) && l.1 == Dir
    ensures Restored(nodes, ApplyFolder(nodes, FolderTag(PathText(l.0))), [l])
  {
    hide ApplyFolder, Wf, Unique, PathText, FolderTag, Grown, Open, Clear, GoodEntry, Met, EntryAt;
    FolderGrows(nodes, l);
    var after := ApplyFolder(nodes, FolderTag(PathText(l.0)));
    forall p ensures EntryAt(after, p) == Met(nodes, [l], p) {
      GrownEntries(nodes, after, l.0, p);
      MetByOne(nodes, l, p);
    }
  }

  lemma RootResolves(nodes: Nodes)
    requires Wf(nodes)
    ensures Exists(nodes, ROOT) && Resolve(nodes, ROOT, []) == Some(ROOT) && IsDir(nodes, ROOT)
  {
    assert NodeOk(nodes, ROOT);
  }

  lemma AttachedOld(nodes: Nodes, parent: nat, node: TreeNode, ino: nat)
    requires FreshNode(nodes, node) && Exists(nodes, ino)
    ensures Exists(Attach(nodes, parent, node), ino)
    ensures EntryOf(Attach(nodes, parent, node)[ino - 1]) == EntryOf(nodes[ino - 1])
  {
  }

  /** The one path, if any, that an attached file adds. */
  lemma FileReached(nodes: Nodes, dir: Path, parent: nat, node: TreeNode, p: Path)
    requires Wf(nodes) && FreshNode(nodes, node) && Lookup(nodes, parent, node.name) == None
    requires Resolve(nodes, ROOT, dir) == Some(parent) || Stray(nodes, ROOT, parent)
    ensures Resolve(Attach(nodes, parent, node), ROOT, p)
         == if Resolve(nodes, ROOT, p).Some? then Resolve(nodes, ROOT, p)
            else if Resolve(nodes, ROOT, dir) == Some(parent) && IsDir(nodes, parent) && p == dir + [node.name]
            then Some(NextInode(nodes))
            else None
    ensures Resolve(nodes, ROOT, dir) == Some(parent) && p == dir + [node.name] ==> Resolve(nodes, ROOT, p).None?
  {
    hide Attach, Wf, FreshNode, Resolve;
    RootResolves(nodes);
    ResolveAttach(nodes, parent, node, ROOT, p);
    if Resolve(nodes, ROOT, dir) == Some(parent) {
      ResolveSnoc(nodes, ROOT, dir, node.name);
      if Resolve(nodes, ROOT, p).None? { NewlyResolved(nodes, ROOT, dir, parent, node.name, p); }
    }
  }

  /** A file is found again exactly when its parent is a directory the path leads to. */
  lemma AttachFileEntries(nodes: Nodes, dir: Path, parent: nat, node: TreeNode, p: Path)
    requires Wf(nodes) && FreshNode(nodes, node) && node.File? && Wf(Attach(nodes, parent, node))
    requires Exists(nodes, parent) && Lookup(nodes, parent, node.name) == None
    requires Resolve(nodes, ROOT, dir) == Some(parent) || Stray(nodes, ROOT, parent)
    ensures EntryAt(Attach(nodes, parent, node), p)
         == Else(EntryAt(nodes, p),
                 if Resolve(nodes, ROOT, dir) == Some(parent) && IsDir(nodes, parent) && p == dir + [node.name]
                 then Some(EntryOf(node)) else None)
  {
    hide Attach, Wf, EntryOf, FreshNode, Resolve, Stray, IsDir, Lookup;
    FileReached(nodes, dir, parent, node, p);
    NewLast(nodes, parent, node);
    if Resolve(nodes, ROOT, p).Some? {
      ResolvedNode(nodes, ROOT, p);
      AttachedOld(nodes, parent, node, Resolve(nodes, ROOT, p).value);
    }
  }

  /** The tree after a file tag, in terms of the directories made for it. */
  lemma FileTagApplied(nodes: Nodes, l: Listed, serverUrl: string)
    requires GoodEntry(l) && l.1.Blob?
    ensures
      var (made, parent) := MkDirs(nodes, ROOT, Init(l.0));
      ApplyFile(nodes, FileTag(l.1.sha256, PathText(l.0), l.1.size, l.1.mime), serverUrl)
        == if Lookup(made, parent, Last(l.0)).None?
           then AddFile(made, parent, Last(l.0), Remote(BlobUrl(serverUrl, l.1.sha256), l.1.sha256, l.1.mime, None), l.1.size, 0)
           else made
  {
    PathTextParts(l.0);
    Text.ParsePrinted(l.1.size);
    assert Sanitize.Clean(l.0[0]) && Sanitize.Clean(Last(l.0));
  }

  /** Adding the file itself, where its directories ended. */
  lemma FileAdded(made: Nodes, dir: Path, parent: nat, name: string, content: FileContent, size: U64, p: Path)
    requires Wf(made) && Sanitize.Clean(name) && Exists(made, parent) && Lookup(made, parent, name) == None
    requires Resolve(made, ROOT, dir) == Some(parent) || Stray(made, ROOT, parent)
    ensures
      var after := AddFile(made, parent, name, content, size, 0);
      && Wf(after) && (Unique(made) ==> Unique(after))
      && EntryAt(after, p)
         == Else(EntryAt(made, p), if Resolve(made, ROOT, dir) == Some(parent) && IsDir(made, parent) && p == dir + [name]
                                   then Some(EntryOf(File(0, "", 0, size, content, 0))) else None)
  {
    Sanitize.FixpointsAreClean(name);
    AddFileKeepsWf(made, parent, name, content, size, 0);
    var node := NewFile(made, parent, name, content, size, 0);
    if Unique(made) { UniqueAttach(made, parent, node); }
    AttachFileEntries(made, dir, parent, node, p);
  }

  /** The walk to a file's directory. */
  lemma FileWalk(nodes: Nodes, l: Listed)
    requires Wf(nodes) && GoodEntry(l) && l.1.Blob?
    ensures
      var dir := Init(l.0);
      var (made, parent) := MkDirs(nodes, ROOT, dir);
      && Grown(nodes, made, ROOT, dir) && (Unique(nodes) ==> Unique(made))
      && if Open(nodes, dir) then Resolve(made, ROOT, dir) == Some(parent) else Stray(made, ROOT, parent)
  {
    var dir := Init(l.0);
    RootResolves(nodes);
    assert [] + dir == dir && CleanPath(dir);
    hide MkDirs, Grown, CleanPath, Open, Unblocked, Unique, Wf;
    MkCleanDirs(nodes, ROOT, [], ROOT, dir);
    if Unique(nodes) { MkDirsUnique(nodes, ROOT, dir); }
    OpenIsUnblocked(nodes, dir);
  }

  /** The directories a file tag makes, seen as entries. */
  lemma FileDirs(nodes: Nodes, l: Listed, p: Path)
    requires Wf(nodes) && GoodEntry(l) && l.1.Blob?
    ensures
      var dir := Init(l.0);
      var (made, parent) := MkDirs(nodes, ROOT, dir);
      && Wf(made) && (Unique(nodes) ==> Unique(made)) && Exists(made, parent)
      && (Resolve(made, ROOT, dir) == Some(parent) || Stray(made, ROOT, parent))
      && EntryAt(made, p) == Else(EntryAt(nodes, p), if p <= dir && Open(nodes, p) then Some(Dir) else None)
      && (Resolve(made, ROOT, dir) == Some(parent) && IsDir(made, parent) <==> Open(nodes, l.0))
  {
    hide MkDirs, Grown, CleanPath, Open, Unblocked, Unique, Wf, Resolve, Stray, EntryAt, IsDir;
    var dir := Init(l.0);
    var (made, parent) := MkDirs(nodes, ROOT, dir);
    FileWalk(nodes, l);
    GrownOnlyAdds(nodes, made, ROOT, dir);
    LastOpen(nodes, l.0);
    GrownEntries(nodes, made, dir, p);
    if Open(nodes, dir) {
      GrownEntries(nodes, made, dir, dir);
      DirResolved(made, dir, parent);
    } else {
      StrayExists(made, dir, parent);
    }
  }

  lemma LastOpen(nodes: Nodes, p: Path)
    requires Wf(nodes) && p != []
    ensures Open(nodes, p) <==> Open(nodes, Init(p)) && !IsFile(EntryAt(nodes, Init(p)))
  {
    InitLast(p);
    OpenBelow(nodes, Init(p), Last(p));
  }

  lemma DirResolved(nodes: Nodes, p: Path, ino: nat)
    requires Wf(nodes) && Resolve(nodes, ROOT, p) == Some(ino)
    ensures Exists(nodes, ino) && EntryAt(nodes, p).Some? && (IsDir(nodes, ino) <==> EntryAt(nodes, p) == Some(Dir))
  {
    ResolvedNode(nodes, ROOT, p);
  }

  lemma StrayExists(nodes: Nodes, p: Path, ino: nat)
    requires Stray(nodes, ROOT, ino)
    ensures Exists(nodes, ino) && Resolve(nodes, ROOT, p) != Some(ino)
  {
  }

  lemma OpenBelow(nodes: Nodes, dir: Path, name: string)
    requires Wf(nodes)
    ensures Open(nodes, dir + [name]) <==> Open(nodes, dir) && !IsFile(EntryAt(nodes, dir))
  {
    assert dir < dir + [name];
    if Open(nodes, dir) && !IsFile(EntryAt(nodes, dir)) {
      forall q | q < dir + [name] ensures !IsFile(EntryAt(nodes, q)) {
        assert q < dir || q == dir;
      }
    }
    if Open(nodes, dir + [name]) {
      forall q | q < dir ensures !IsFile(EntryAt(nodes, q)) {
        assert q < dir + [name];
      }
    }
  }

  /** A file tag. */
  lemma ApplyOneFile(nodes: Nodes, l: Listed, serverUrl: string)
    requires Wf(nodes) && GoodEntry(l) && l.1.Blob?
    ensures Restored(nodes, ApplyFile(nodes, FileTag(l.1.sha256, PathText(l.0), l.1.size, l.1.mime), serverUrl), [l])
  {
    var dir, name := Init(l.0), Last(l.0);
    var (made, parent) := MkDirs(nodes, ROOT, dir);
    var after := ApplyFile(nodes, FileTag(l.1.sha256, PathText(l.0), l.1.size, l.1.mime), serverUrl);
    var content := Remote(BlobUrl(serverUrl, l.1.sha256), l.1.sha256, l.1.mime, None);
    FileTagApplied(nodes, l, serverUrl);
    InitLast(l.0);
    assert Sanitize.Clean(name);
    assert EntryOf(File(0, "", 0, l.1.size, content, 0)) == l.1;
    FileDirs(nodes, l, []);
    if Resolve(made, ROOT, dir) == Some(parent) && Lookup(made, parent, name).Some? { NameTaken(made, dir, parent, name); }
    hide ApplyFile, AddFile, Wf, Unique, PathText, MkDirs, Resolve, EntryOf, BlobUrl, FileTag, Open, Clear, Stray, Lookup, EntryAt;
    if Lookup(made, parent, name).None? { FileAdded(made, dir, parent, name, content, l.1.size, []); }
    forall p ensures EntryAt(after, p) == Met(nodes, [l], p) {
      FileDirs(nodes, l, p);
      MetByOne(nodes, l, p);
      if Lookup(made, parent, name).None? { FileAdded(made, dir, parent, name, content, l.1.size, p); }
      assert p <= l.0 <==> p <= dir || p == l.0;
    }
  }

  lemma NameTaken(made: Nodes, dir: Path, parent: nat, name: string)
    requires Wf(made) && Resolve(made, ROOT, dir) == Some(parent) && Lookup(made, parent, name).Some?
    ensures EntryAt(made, dir + [name]).Some?
  {
    ResolveSnoc(made, ROOT, dir, name);
  }

  // ---------- The two passes ----------

  function Dirs(ls: seq<Listed>): seq<Listed> {
    if ls == [] then [] else (if ls[0].1 == Dir then [ls[0]] else []) + Dirs(ls[1..])
  }

  function Blobs(ls: seq<Listed>): seq<Listed> {
    if ls == [] then [] else (if ls[0].1.Blob? then [ls[0]] else []) + Blobs(ls[1..])
  }

  lemma GoodRest(ls: seq<Listed>)
    requires GoodListing(ls) && ls != []
    ensures GoodEntry(ls[0]) && GoodListing(ls[1..])
  {
    assert forall i :: 0 <= i < |ls[1..]| ==> ls[1..][i] == ls[i + 1];
  }

  lemma FolderHead(nodes: Nodes, l: Listed, tags: seq<Tag>)
    ensures ApplyFolders(nodes, Printed(l) + tags)
         == ApplyFolders(if l.1 == Dir then ApplyFolder(nodes, FolderTag(PathText(l.0))) else nodes, tags)
  {
    if l.1 == Opaque {
      assert Printed(l) + tags == tags;
    } else {
      assert (Printed(l) + tags)[1..] == tags;
    }
  }

  /** The folder pass meets the claims of the listed directories, on any tree: also with files standing in the way. */
  lemma {:induction false} FolderPass(nodes: Nodes, ls: seq<Listed>)
    requires Wf(nodes) && GoodListing(ls)
    ensures Restored(nodes, ApplyFolders(nodes, PrintAll(ls)), Dirs(ls))
    decreases |ls|
  {
    hide Restored, ApplyFolder, Wf, PathText, GoodEntry, GoodListing;
    if ls == [] {
      NothingRestored(nodes);
    } else {
      var l, rest := ls[0], ls[1..];
      GoodRest(ls);
      FolderHead(nodes, l, PrintAll(rest));
      if l.1 == Dir {
        var mid := ApplyFolder(nodes, FolderTag(PathText(l.0)));
        ApplyOneFolder(nodes, l);
        RestoredIsWf(nodes, mid, [l]);
        FolderPass(mid, rest);
        RestoredTogether(nodes, mid, ApplyFolders(mid, PrintAll(rest)), [l], Dirs(rest));
      } else {
        FolderPass(nodes, rest);
        assert [] + Dirs(rest) == Dirs(rest);
      }
    }
  }

  lemma RestoredIsWf(nodes: Nodes, after: Nodes, ls: seq<Listed>)
    requires Wf(nodes) && Restored(nodes, after, ls)
    ensures Wf(after)
  {
  }

  lemma FileHead(nodes: Nodes, l: Listed, tags: seq<Tag>, serverUrl: string)
    ensures ApplyFiles(nodes, Printed(l) + tags, serverUrl)
         == ApplyFiles(if l.1.Blob? then ApplyFile(nodes, FileTag(l.1.sha256, PathText(l.0), l.1.size, l.1.mime), serverUrl) else nodes,
                       tags, serverUrl)
  {
    if l.1 == Opaque {
      assert Printed(l) + tags == tags;
    } else {
      assert (Printed(l) + tags)[1..] == tags;
    }
  }

  /** The file pass meets the claims of the listed blobs, on any tree, making the directories they need. */
  lemma {:induction false} FilePass(nodes: Nodes, ls: seq<Listed>, serverUrl: string)
    requires Wf(nodes) && GoodListing(ls)
    ensures Restored(nodes, ApplyFiles(nodes, PrintAll(ls), serverUrl), Blobs(ls))
    ensures RestoredFiles.Applied(nodes, ApplyFiles(nodes, PrintAll(ls), serverUrl), serverUrl)
    decreases |ls|
  {
    hide Restored, ApplyFile, Wf, PathText, GoodEntry, GoodListing, FileTag, RestoredFiles.Applied;
    RestoredFiles.FilesApplied(nodes, PrintAll(ls), serverUrl);
    if ls == [] {
      NothingRestored(nodes);
    } else {
      var l, rest := ls[0], ls[1..];
      GoodRest(ls);
      FileHead(nodes, l, PrintAll(rest), serverUrl);
      if l.1.Blob? {
        var mid := ApplyFile(nodes, FileTag(l.1.sha256, PathText(l.0), l.1.size, l.1.mime), serverUrl);
        ApplyOneFile(nodes, l, serverUrl);
        RestoredIsWf(nodes, mid, [l]);
        FilePass(mid, rest, serverUrl);
        RestoredTogether(nodes, mid, ApplyFiles(mid, PrintAll(rest), serverUrl), [l], Blobs(rest));
      } else {
        FilePass(nodes, rest, serverUrl);
        assert [] + Blobs(rest) == Blobs(rest);
      }
    }
  }

  /**
   * Applying a printed listing to any well-formed tree meets all its claims: directories first, then blobs, each group in
   * listed order. What stands there is left alone, the first claim to a free path wins and brings its directories, and
   * nothing appears below a file, whether it stood there or was just restored.
   */
  lemma ApplyPrinted(nodes: Nodes, ls: seq<Listed>, serverUrl: string)
    requires Wf(nodes) && GoodListing(ls)
    ensures Restored(nodes, ApplyPersisted(nodes, PrintAll(ls), serverUrl), Dirs(ls) + Blobs(ls))
    ensures RestoredFiles.Applied(nodes, ApplyPersisted(nodes, PrintAll(ls), serverUrl), serverUrl)
  {
    hide Restored, Wf, GoodListing, RestoredFiles.Applied;
    RestoredFiles.TagsApplied(nodes, PrintAll(ls), serverUrl);
    var mid := ApplyFolders(nodes, PrintAll(ls));
    FolderPass(nodes, ls);
    RestoredIsWf(nodes, mid, Dirs(ls));
    FilePass(mid, ls, serverUrl);
    RestoredTogether(nodes, mid, ApplyFiles(mid, PrintAll(ls), serverUrl), Dirs(ls), Blobs(ls));
  }
}

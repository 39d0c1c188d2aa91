/** The persistence round trip: what is printed, published, fetched and applied at the next mount. */
module RoundTrip {
  import opened Wrappers
  import opened TreeModel
  import opened TreePaths
  import opened Persist
  import opened PersistProof
  import opened Restore
  import RestoredFiles
  import Sanitize

  // ---------- The claims of a tree's own listing ----------

  ghost predicate DirWanted(ls: seq<Listed>, p: Path) {
    exists i :: 0 <= i < |ls| && ls[i].1 == Dir && p <= ls[i].0
  }

  function FirstBlob(ls: seq<Listed>, p: Path): Option<Entry> {
    if ls == [] then None
    else if ls[0].0 == p && ls[0].1.Blob? then Some(ls[0].1)
    else FirstBlob(ls[1..], p)
  }

  /** Which entry of a path comes back: a directory before any file, and the first listed of several files. */
  ghost function Survivor(ls: seq<Listed>, p: Path): Option<Entry> {
    if DirWanted(ls, p) then Some(Dir) else FirstBlob(ls, p)
  }

  lemma WantedHead(ls: seq<Listed>, p: Path)
    requires ls != []
    ensures DirWanted(ls, p) <==> (ls[0].1 == Dir && p <= ls[0].0) || DirWanted(ls[1..], p)
  {
    var rest := ls[1..];
    if DirWanted(rest, p) {
      var i :| 0 <= i < |rest| && rest[i].1 == Dir && p <= rest[i].0;
      assert ls[i + 1] == rest[i];
    }
    if DirWanted(ls, p) {
      var i :| 0 <= i < |ls| && ls[i].1 == Dir && p <= ls[i].0;
      if i > 0 { assert rest[i - 1] == ls[i]; }
    }
  }

  lemma {:induction false} DirClaims(ls: seq<Listed>, p: Path)
    ensures Claim(Dirs(ls), p) == if DirWanted(ls, p) then Some(Dir) else None
  {
    if ls != [] {
      WantedHead(ls, p);
      DirClaims(ls[1..], p);
      ClaimConcat(if ls[0].1 == Dir then [ls[0]] else [], Dirs(ls[1..]), p);
      ClaimOne(ls[0], p);
    }
  }

  lemma {:induction false} BlobClaims(ls: seq<Listed>, p: Path)
    requires forall l :: l in ls && l.1.Blob? && p <= l.0 ==> p == l.0
    ensures Claim(Blobs(ls), p) == FirstBlob(ls, p)
  {
    if ls != [] {
      assert ls[0] in ls && forall l :: l in ls[1..] ==> l in ls;
      BlobClaims(ls[1..], p);
      ClaimConcat(if ls[0].1.Blob? then [ls[0]] else [], Blobs(ls[1..]), p);
      ClaimOne(ls[0], p);
    }
  }

  lemma ListingIsGood(nodes: Nodes)
    requires Wf(nodes)
    ensures GoodListing(WholeListing(nodes))
  {
    var ls := WholeListing(nodes);
    forall i | 0 <= i < |ls| ensures GoodEntry(ls[i]) {
      ListingIsReachable(nodes, ls[i]);
      var to :| Reaches(nodes, ROOT, ls[i].0, to) && Exists(nodes, to) && EntryOf(nodes[to - 1]) == ls[i].1;
      ReachedNode(nodes, ROOT, ls[i].0, to);
    }
  }

  lemma WantedIsReachable(nodes: Nodes, p: Path)
    requires Wf(nodes) && p != []
    ensures DirWanted(WholeListing(nodes), p) <==> !Public(p) && HasEntry(nodes, p, Dir)
  {
    var ls := WholeListing(nodes);
    if DirWanted(ls, p) {
      var i :| 0 <= i < |ls| && ls[i].1 == Dir && p <= ls[i].0;
      ListingIsReachable(nodes, ls[i]);
      assert p[0] == ls[i].0[0];
      if p != ls[i].0 { PrefixIsDir(nodes, ls[i].0, Dir, p); }
    }
    if !Public(p) && HasEntry(nodes, p, Dir) {
      ListingIsReachable(nodes, (p, Dir));
      var i :| 0 <= i < |ls| && ls[i] == (p, Dir);
    }
  }

  lemma PrefixIsDir(nodes: Nodes, path: Path, e: Entry, p: Path)
    requires Wf(nodes) && HasEntry(nodes, path, e) && p <= path && p != path
    ensures HasEntry(nodes, p, Dir)
  {
    var to :| Reaches(nodes, ROOT, path, to) && Exists(nodes, to) && EntryOf(nodes[to - 1]) == e;
    var mid := ReachedPrefix(nodes, ROOT, path, to, p);
  }

  lemma {:induction false} FirstBlobListed(ls: seq<Listed>, p: Path)
    ensures
      match FirstBlob(ls, p)
      case Some(e) => e.Blob? && (p, e) in ls
      case None => forall e: Entry :: e.Blob? ==> (p, e) !in ls
  {
    if ls != [] {
      FirstBlobListed(ls[1..], p);
      assert forall l :: l in ls <==> l == ls[0] || l in ls[1..];
    }
  }

  /** Above a listed entry there are only listed directories. */
  lemma ListedAbove(nodes: Nodes, l: Listed, p: Path)
    requires Wf(nodes) && l in WholeListing(nodes) && p < l.0 && p != []
    ensures DirWanted(WholeListing(nodes), p)
  {
    ListingIsReachable(nodes, l);
    PrefixIsDir(nodes, l.0, l.1, p);
    assert p[0] == l.0[0];
    WantedIsReachable(nodes, p);
  }

  /** The survivor of a path is one of its persistable entries, and there is one if there are any. */
  lemma SurvivorIsOurs(nodes: Nodes, p: Path, e: Entry)
    requires Wf(nodes) && p != []
    ensures
      var s := Survivor(WholeListing(nodes), p);
      && (s == Some(e) ==> Persistable(p, e) && HasEntry(nodes, p, e))
      && (Persistable(p, e) && HasEntry(nodes, p, e) ==> s.Some?)
  {
    var ls := WholeListing(nodes);
    WantedIsReachable(nodes, p);
    FirstBlobListed(ls, p);
    ListingIsReachable(nodes, (p, e));
  }

  lemma WholeClaims(nodes: Nodes, p: Path)
    requires Wf(nodes) && p != []
    ensures
      var ls := WholeListing(nodes);
      Claim(Dirs(ls) + Blobs(ls), p) == Survivor(ls, p)
  {
    var ls := WholeListing(nodes);
    ClaimConcat(Dirs(ls), Blobs(ls), p);
    DirClaims(ls, p);
    if !DirWanted(ls, p) {
      forall l | l in ls && l.1.Blob? && p <= l.0 ensures p == l.0 {
        if p != l.0 { ListedAbove(nodes, l, p); }
      }
      BlobClaims(ls, p);
    }
  }

  /** Above a survivor all survivors are directories. */
  lemma SurvivorsAbove(nodes: Nodes, q: Path, p: Path)
    requires Wf(nodes) && q != [] && q < p && Survivor(WholeListing(nodes), p).Some?
    ensures Survivor(WholeListing(nodes), q) == Some(Dir)
  {
    var e := Survivor(WholeListing(nodes), p).value;
    SurvivorIsOurs(nodes, p, e);
    ListingIsReachable(nodes, (p, e));
    ListedAbove(nodes, (p, e), q);
  }

  // ---------- The next mount ----------

  /** The tree of the next mount: `mount` is what stands there before the fetched tags are applied. */
  function Remounted(nodes: Nodes, mount: Nodes, drive: string, serverUrl: string): Nodes
    requires Wf(nodes)
  {
    CollectIsListing(nodes, ROOT, []);
    PrintedShapes(WholeListing(nodes));
    WireRoundTrip(drive, PersistTags(nodes));
    ApplyPersisted(mount, Extract(Publish(drive, PersistTags(nodes))), serverUrl)
  }

  lemma RemountedClaims(nodes: Nodes, mount: Nodes, drive: string, serverUrl: string)
    requires Wf(nodes) && Wf(mount)
    ensures
      var ls := WholeListing(nodes);
      Restored(mount, Remounted(nodes, mount, drive, serverUrl), Dirs(ls) + Blobs(ls))
    ensures RestoredFiles.Applied(mount, Remounted(nodes, mount, drive, serverUrl), serverUrl)
  {
    CollectIsListing(nodes, ROOT, []);
    PrintedShapes(WholeListing(nodes));
    WireRoundTrip(drive, PersistTags(nodes));
    ListingIsGood(nodes);
    ApplyPrinted(mount, WholeListing(nodes), serverUrl);
  }

  lemma RootEntry(nodes: Nodes)
    requires Wf(nodes)
    ensures EntryAt(nodes, []) == Some(Dir)
  {
    RootResolves(nodes);
  }

  lemma SurvivorsAreClear(nodes: Nodes, mount: Nodes, p: Path)
    requires Wf(nodes) && Wf(mount) && p != [] && Survivor(WholeListing(nodes), p).Some?
    ensures
      var ls := WholeListing(nodes);
      Clear(mount, Dirs(ls) + Blobs(ls), p) <==> Open(mount, p)
  {
    var ls := WholeListing(nodes);
    RootEntry(mount);
    forall q | q < p ensures IsFile(Wanted(mount, Dirs(ls) + Blobs(ls), q)) <==> IsFile(EntryAt(mount, q)) {
      if q != [] {
        WholeClaims(nodes, q);
        SurvivorsAbove(nodes, q, p);
      }
    }
  }

  /**
   * Exactly what stands at each path after the next mount: what the mount has there; else the surviving entry of the old
   * tree, unless the mount has a file above it.
   */
  lemma RemountedEntries(nodes: Nodes, mount: Nodes, drive: string, serverUrl: string, p: Path)
    requires Wf(nodes) && Wf(mount)
    ensures
      var after := Remounted(nodes, mount, drive, serverUrl);
      && Wf(after) && (Unique(mount) ==> Unique(after))
      && EntryAt(after, p)
           == Else(EntryAt(mount, p), if Open(mount, p) then Survivor(WholeListing(nodes), p) else None)
  {
    var ls := WholeListing(nodes);
    var after := Remounted(nodes, mount, drive, serverUrl);
    RemountedClaims(nodes, mount, drive, serverUrl);
    RootEntry(mount);
    assert EntryAt(after, p) == Met(mount, Dirs(ls) + Blobs(ls), p);
    hide Remounted, Restored, Clear, Open, Survivor;
    if p != [] {
      WholeClaims(nodes, p);
      if Survivor(ls, p).Some? { SurvivorsAreClear(nodes, mount, p); }
    }
  }

  /** Every persistable entry of the old tree is found again at its path. */
  ghost predicate AllBack(nodes: Nodes, after: Nodes) {
    Wf(after) && forall p, e :: Persistable(p, e) && HasEntry(nodes, p, e) ==> EntryAt(after, p) == Some(e)
  }

  /** No persistable path carries two different entries; equal directories at one path merge. */
  ghost predicate OneEntryPerPath(nodes: Nodes) {
    forall p, e1, e2 :: Persistable(p, e1) && Persistable(p, e2) && HasEntry(nodes, p, e1) && HasEntry(nodes, p, e2) ==> e1 == e2
  }

  /** Where the mount already has something at a persisted path, it is the persisted entry. */
  ghost predicate MountAgrees(nodes: Nodes, mount: Nodes)
    requires Wf(mount)
  {
    forall p, e :: Persistable(p, e) && HasEntry(nodes, p, e) ==> EntryAt(mount, p) == None || EntryAt(mount, p) == Some(e)
  }

  lemma AgreedIsOpen(nodes: Nodes, mount: Nodes, p: Path, e: Entry)
    requires Wf(nodes) && Wf(mount) && MountAgrees(nodes, mount) && Persistable(p, e) && HasEntry(nodes, p, e)
    ensures Open(mount, p)
  {
    RootEntry(mount);
    forall q | q < p ensures !IsFile(EntryAt(mount, q)) {
      if q != [] {
        PrefixIsDir(nodes, p, e, q);
        assert q[0] == p[0];
        assert Persistable(q, Dir);
      }
    }
  }

  /** The file at `p` is fetched from the server's address of its hash, and carries no expiry. */
  ghost predicate FetchedFrom(nodes: Nodes, p: Path, serverUrl: string) {
    && Resolve(nodes, ROOT, p).Some? && Exists(nodes, Resolve(nodes, ROOT, p).value)
    && RestoredFiles.FromTag(nodes[Resolve(nodes, ROOT, p).value - 1], serverUrl)
  }

  /** Every file that comes back is fetched from the server of the mount. */
  lemma RemountedIsFetched(nodes: Nodes, mount: Nodes, drive: string, serverUrl: string, p: Path)
    requires Wf(nodes) && Wf(mount) && EntryAt(mount, p).None?
    ensures
      var after := Remounted(nodes, mount, drive, serverUrl);
      Wf(after) && (EntryAt(after, p).Some? && EntryAt(after, p).value.Blob? ==> FetchedFrom(after, p, serverUrl))
  {
    RemountedClaims(nodes, mount, drive, serverUrl);
    var after := Remounted(nodes, mount, drive, serverUrl);
    hide Remounted, Restored, RestoredFiles.FromTag;
    assert RestoredFiles.PathKept(mount, after, p) && RestoredFiles.FilesKept(mount, after, serverUrl);
    if EntryAt(after, p).Some? { ResolvedNode(after, ROOT, p); }
  }

  /**
   * The round trip at a real mount, whatever stands there before the tags are applied: the mount's own entries are left
   * alone, everything else found is a persisted entry at its own path, every file found is fetched from the server's address
   * of its hash, and every persisted entry is found again if and only if no persisted path carries two different entries and
   * the mount has nothing else at any persisted path.
   */
  lemma RemountRoundTrip(nodes: Nodes, mount: Nodes, drive: string, serverUrl: string)
    requires Wf(nodes) && Wf(mount)
    ensures
      var after := Remounted(nodes, mount, drive, serverUrl);
      && Wf(after)
      && (forall p :: EntryAt(mount, p).Some? ==> EntryAt(after, p) == EntryAt(mount, p))
      && (forall p, e :: EntryAt(mount, p).None? && EntryAt(after, p) == Some(e) ==> Persistable(p, e) && HasEntry(nodes, p, e))
      && (forall p, e :: EntryAt(mount, p).None? && EntryAt(after, p) == Some(e) && e.Blob? ==> FetchedFrom(after, p, serverUrl))
      && (AllBack(nodes, after) <==> OneEntryPerPath(nodes) && MountAgrees(nodes, mount))
  {
    hide Remounted, Survivor, Open, Wf, HasEntry, EntryAt, WholeListing, FetchedFrom;
    var after := Remounted(nodes, mount, drive, serverUrl);
    var ls := WholeListing(nodes);
    RootEntry(mount);
    RemountedEntries(nodes, mount, drive, serverUrl, []);
    forall p, e
      ensures EntryAt(mount, p).Some? ==> EntryAt(after, p) == EntryAt(mount, p)
      ensures EntryAt(mount, p).None? && EntryAt(after, p) == Some(e) ==> Persistable(p, e) && HasEntry(nodes, p, e)
      ensures EntryAt(mount, p).None? && EntryAt(after, p) == Some(e) && e.Blob? ==> FetchedFrom(after, p, serverUrl)
    {
      RemountedEntries(nodes, mount, drive, serverUrl, p);
      if EntryAt(mount, p).None? { RemountedIsFetched(nodes, mount, drive, serverUrl, p); }
      if p != [] { SurvivorIsOurs(nodes, p, e); }
    }
    if OneEntryPerPath(nodes) && MountAgrees(nodes, mount) {
      forall p, e | Persistable(p, e) && HasEntry(nodes, p, e) ensures EntryAt(after, p) == Some(e) {
        RemountedEntries(nodes, mount, drive, serverUrl, p);
        AgreedIsOpen(nodes, mount, p, e);
        SurvivorIsOurs(nodes, p, e);
        SurvivorIsOurs(nodes, p, Survivor(ls, p).value);
      }
    }
  }

  /** A file of the mount keeps a persisted directory of its name from coming back, as the generated README.txt would. */
  lemma FileInTheWay(nodes: Nodes, mount: Nodes, name: string, data: seq<Byte>, size: U64, drive: string, serverUrl: string)
    requires Sanitize.Clean(name) && !("public" <= name)
    requires nodes == AddDir(NewTree, ROOT, name, None) && mount == AddFile(NewTree, ROOT, name, Static(data), size, 0)
    ensures Wf(nodes) && Wf(mount) && !AllBack(nodes, Remounted(nodes, mount, drive, serverUrl))
  {
    hide Remounted, AllBack, MountAgrees, OneEntryPerPath;
    OneOfName(nodes, mount, name, data, size);
    RemountRoundTrip(nodes, mount, drive, serverUrl);
    DisagreesAt(nodes, mount, [name], Dir);
  }

  lemma DisagreesAt(nodes: Nodes, mount: Nodes, p: Path, e: Entry)
    requires Wf(mount) && Persistable(p, e) && HasEntry(nodes, p, e) && EntryAt(mount, p).Some? && EntryAt(mount, p) != Some(e)
    ensures !MountAgrees(nodes, mount)
  {
  }

  lemma OneOfName(nodes: Nodes, mount: Nodes, name: string, data: seq<Byte>, size: U64)
    requires Sanitize.Clean(name) && !("public" <= name)
    requires nodes == AddDir(NewTree, ROOT, name, None) && mount == AddFile(NewTree, ROOT, name, Static(data), size, 0)
    ensures Wf(nodes) && Wf(mount) && Persistable([name], Dir) && HasEntry(nodes, [name], Dir)
    ensures EntryAt(mount, [name]) == Some(Opaque)
  {
    NewTreeIsWf();
    Sanitize.FixpointsAreClean(name);
    AddDirKeepsWf(NewTree, ROOT, name, None);
    AddFileKeepsWf(NewTree, ROOT, name, Static(data), size, 0);
    assert Children(nodes, ROOT) == [2] && Named(nodes, 2, name) && EntryOf(nodes[1]) == Dir;
    assert Children(mount, ROOT) == [2] && Named(mount, 2, name) && EntryOf(mount[1]) == Opaque;
    hide AddFile, AddDir, Wf, EntryOf;
    assert [name][1..] == [];
    assert Reaches(nodes, 2, [], 2) && Reaches(nodes, ROOT, [name], 2);
    LookupFinds(mount, ROOT, name);
    assert Resolve(mount, ROOT, [name]) == Some(2);
  }

  // ---------- On a fresh tree ----------

  /** The tree rebuilt on its own, with nothing there before. */
  function Rebuilt(nodes: Nodes, drive: string, serverUrl: string): Nodes
    requires Wf(nodes)
  {
    Remounted(nodes, NewTree, drive, serverUrl)
  }

  lemma FreshEntries(p: Path)
    ensures Wf(NewTree) && Unique(NewTree)
    ensures EntryAt(NewTree, p) == if p == [] then Some(Dir) else None
    ensures Open(NewTree, p)
  {
    NewTreeIsWf();
    forall q: Path ensures EntryAt(NewTree, q) == if q == [] then Some(Dir) else None {
      if q != [] { LookupFinds(NewTree, ROOT, q[0]); }
    }
  }

  ghost predicate RoundTrips(nodes: Nodes, after: Nodes) {
    forall p, e :: Persistable(p, e) ==> (HasEntry(after, p, e) <==> HasEntry(nodes, p, e))
  }

  lemma RebuiltEntries(nodes: Nodes, drive: string, serverUrl: string, p: Path)
    requires Wf(nodes)
    ensures
      var after := Rebuilt(nodes, drive, serverUrl);
      && Wf(after) && Unique(after)
      && EntryAt(after, p) == if p == [] then Some(Dir) else Survivor(WholeListing(nodes), p)
  {
    FreshEntries(p);
    RemountedEntries(nodes, NewTree, drive, serverUrl, p);
  }

  /**
   * Persistence round trip on a fresh tree. For every well-formed tree, the rebuilt tree has unique names and holds
   * nothing that was not persisted from there; each path holds its survivor, a directory before any file and the first
   * listed of several files; and it holds exactly the directories and remote files (hash, size, MIME type) at exactly
   * their paths if and only if no persistable path carries two different entries.
   */
  lemma PersistenceRoundTrip(nodes: Nodes, drive: string, serverUrl: string)
    requires Wf(nodes)
    ensures
      var after := Rebuilt(nodes, drive, serverUrl);
      && Wf(after) && Unique(after)
      && (forall p, e :: HasEntry(after, p, e) ==> (p == [] && e == Dir) || (Persistable(p, e) && HasEntry(nodes, p, e)))
      && (forall p :: p != [] ==> EntryAt(after, p) == Survivor(WholeListing(nodes), p))
      && (RoundTrips(nodes, after) <==> OneEntryPerPath(nodes))
  {
    var after := Rebuilt(nodes, drive, serverUrl);
    var ls := WholeListing(nodes);
    RebuiltEntries(nodes, drive, serverUrl, []);
    hide Rebuilt, Survivor, Wf, HasEntry, Unique;
    forall p ensures p != [] ==> EntryAt(after, p) == Survivor(ls, p) { RebuiltEntries(nodes, drive, serverUrl, p); }
    forall p, e
      ensures HasEntry(after, p, e) <==> EntryAt(after, p) == Some(e)
      ensures HasEntry(after, p, e) ==> (p == [] && e == Dir) || (Persistable(p, e) && HasEntry(nodes, p, e))
    {
      EntryAtIsHasEntry(after, p, e);
      if p != [] { SurvivorIsOurs(nodes, p, e); }
    }
    if OneEntryPerPath(nodes) {
      forall p, e | Persistable(p, e) && HasEntry(nodes, p, e) ensures HasEntry(after, p, e) {
        SurvivorIsOurs(nodes, p, e);
        SurvivorIsOurs(nodes, p, Survivor(ls, p).value);
      }
    }
  }

  /** Trees without two siblings of one name always survive the round trip. */
  lemma UniqueTreesRoundTrip(nodes: Nodes, drive: string, serverUrl: string)
    requires Wf(nodes) && Unique(nodes)
    ensures RoundTrips(nodes, Rebuilt(nodes, drive, serverUrl))
  {
    forall p, e1, e2 | HasEntry(nodes, p, e1) && HasEntry(nodes, p, e2) ensures e1 == e2 {
      EntryAtIsHasEntry(nodes, p, e1);
      EntryAtIsHasEntry(nodes, p, e2);
    }
    PersistenceRoundTrip(nodes, drive, serverUrl);
  }

  /** A concrete tree the code accepts that does not survive: a directory and a remote file of one name. */
  lemma DirAndFileOfOneName(nodes: Nodes, drive: string, serverUrl: string)
    requires nodes == AddFile(AddDir(NewTree, ROOT, "7", None), ROOT, "7", Remote("u", "h", None, None), 1, 0)
    ensures Wf(nodes) && !RoundTrips(nodes, Rebuilt(nodes, drive, serverUrl))
  {
    hide AddFile, AddDir, Rebuilt, HasEntry, Unique, Wf, Children, Resolve, Reaches;
    ClashEntries(nodes);
    assert Persistable(["7"], Dir) && Persistable(["7"], Blob("h", 1, None));
    PersistenceRoundTrip(nodes, drive, serverUrl);
  }

  lemma ClashEntries(nodes: Nodes)
    requires nodes == AddFile(AddDir(NewTree, ROOT, "7", None), ROOT, "7", Remote("u", "h", None, None), 1, 0)
    ensures Wf(nodes) && HasEntry(nodes, ["7"], Dir) && HasEntry(nodes, ["7"], Blob("h", 1, None))
  {
    NewTreeIsWf();
    Sanitize.PlainNameIsClean("7");
    var one := AddDir(NewTree, ROOT, "7", None);
    AddDirKeepsWf(NewTree, ROOT, "7", None);
    AddFileKeepsWf(one, ROOT, "7", Remote("u", "h", None, None), 1, 0);
    assert Children(nodes, ROOT) == [2, 3];
    assert Named(nodes, 2, "7") && Named(nodes, 3, "7");
    assert EntryOf(nodes[1]) == Dir && EntryOf(nodes[2]) == Blob("h", 1, None);
    hide AddFile, AddDir, Wf, EntryOf;
    assert ["7"][1..] == [];
    assert Reaches(nodes, 2, [], 2) && Reaches(nodes, 3, [], 3);
    assert Reaches(nodes, ROOT, ["7"], 2) && Reaches(nodes, ROOT, ["7"], 3);
  }

  // ---------- The promise to persist whatever lies outside public/ ----------

  /** What the documentation promises to persist: every directory and remote file outside the subtree of `public`. */
  ghost predicate UserEntry(path: Path, e: Entry) {
    path != [] && path[0] != "public" && e != Opaque
  }

  predicate LooksPublic(name: string) {
    "public" < name
  }

  /**
   * Entry by entry, in every tree: the path of a user entry is there again after the round trip exactly when the root name
   * it starts with does not have "public" as a proper prefix. The printer takes all such names for the generated subtree.
   */
  lemma UserPathReturnsIff(nodes: Nodes, drive: string, serverUrl: string, p: Path, e: Entry)
    requires Wf(nodes) && UserEntry(p, e) && HasEntry(nodes, p, e)
    ensures
      var after := Rebuilt(nodes, drive, serverUrl);
      Wf(after) && (EntryAt(after, p).Some? <==> !LooksPublic(p[0]))
  {
    RebuiltEntries(nodes, drive, serverUrl, p);
    SurvivorIsOurs(nodes, p, e);
    var s := Survivor(WholeListing(nodes), p);
    if s.Some? { SurvivorIsOurs(nodes, p, s.value); }
    assert Public(p) <==> LooksPublic(p[0]);
  }

  ghost predicate UserEntriesReturn(nodes: Nodes, after: Nodes) {
    Wf(after) && forall p, e :: UserEntry(p, e) && HasEntry(nodes, p, e) ==> EntryAt(after, p) == Some(e)
  }

  /** No directory or remote file in the root has a name that only starts with "public". */
  predicate NoLookalike(nodes: Nodes)
    requires Wf(nodes)
  {
    ChildrenExist(nodes, ROOT);
    forall c <- Children(nodes, ROOT) :: LooksPublic(nodes[c - 1].name) ==> EntryOf(nodes[c - 1]) == Opaque
  }

  lemma RootChildEntry(nodes: Nodes, c: nat)
    requires Wf(nodes) && c in Children(nodes, ROOT)
    ensures Exists(nodes, c) && HasEntry(nodes, [nodes[c - 1].name], EntryOf(nodes[c - 1]))
  {
    ChildrenExist(nodes, ROOT);
    var name := nodes[c - 1].name;
    assert [name][1..] == [];
    assert Reaches(nodes, c, [name][1..], c) && Named(nodes, c, name);
    assert Reaches(nodes, ROOT, [name], c);
  }

  /** The root child a path of a user entry starts with is a user entry too. */
  lemma StartsAtRootChild(nodes: Nodes, p: Path, e: Entry) returns (c: nat)
    requires Wf(nodes) && UserEntry(p, e) && HasEntry(nodes, p, e)
    ensures c in Children(nodes, ROOT) && Named(nodes, c, p[0]) && EntryOf(nodes[c - 1]) != Opaque
  {
    var to :| Reaches(nodes, ROOT, p, to) && Exists(nodes, to) && EntryOf(nodes[to - 1]) == e;
    c :| c in Children(nodes, ROOT) && Named(nodes, c, p[0]) && Reaches(nodes, c, p[1..], to);
    if |p| > 1 {
      var d :| d in Children(nodes, c) && Named(nodes, d, p[1..][0]) && Reaches(nodes, d, p[1..][1..], to);
      assert IsDir(nodes, c);
    } else {
      assert p[1..] == [];
    }
  }

  /**
   * The promise as documented holds exactly for trees in which no persistable path carries two different entries and no
   * root name merely starts with "public".
   */
  lemma UserEntriesReturnIff(nodes: Nodes, drive: string, serverUrl: string)
    requires Wf(nodes)
    ensures UserEntriesReturn(nodes, Rebuilt(nodes, drive, serverUrl)) <==> OneEntryPerPath(nodes) && NoLookalike(nodes)
  {
    hide Rebuilt, HasEntry, Wf, EntryAt, Children, EntryOf, Survivor, Unique;
    var after := Rebuilt(nodes, drive, serverUrl);
    PersistenceRoundTrip(nodes, drive, serverUrl);
    if OneEntryPerPath(nodes) && NoLookalike(nodes) {
      forall p, e | UserEntry(p, e) && HasEntry(nodes, p, e) ensures EntryAt(after, p) == Some(e) {
        var c := StartsAtRootChild(nodes, p, e);
        assert !LooksPublic(p[0]);
        assert Persistable(p, e) && HasEntry(after, p, e);
        EntryAtIsHasEntry(after, p, e);
      }
    }
    if UserEntriesReturn(nodes, after) {
      forall p, e1, e2 | Persistable(p, e1) && Persistable(p, e2) && HasEntry(nodes, p, e1) && HasEntry(nodes, p, e2)
        ensures e1 == e2
      {
        assert UserEntry(p, e1) && UserEntry(p, e2);
      }
      ChildrenExist(nodes, ROOT);
      forall c <- Children(nodes, ROOT) | LooksPublic(nodes[c - 1].name) ensures EntryOf(nodes[c - 1]) == Opaque {
        RootChildEntry(nodes, c);
        var p, e := [nodes[c - 1].name], EntryOf(nodes[c - 1]);
        if e != Opaque { UserPathReturnsIff(nodes, drive, serverUrl, p, e); }
      }
    }
  }

  lemma OneDirectory(nodes: Nodes, name: string)
    requires Sanitize.Clean(name) && nodes == AddDir(NewTree, ROOT, name, None)
    ensures Wf(nodes) && HasEntry(nodes, [name], Dir)
  {
    hide HasEntry;
    NewTreeIsWf();
    Sanitize.FixpointsAreClean(name);
    AddDirKeepsWf(NewTree, ROOT, name, None);
    assert Children(nodes, ROOT) == [2] && nodes[1].name == name && EntryOf(nodes[1]) == Dir;
    hide AddDir, Wf, EntryOf;
    RootChildEntry(nodes, 2);
  }

  /** A directory "publications" made in the root does not come back. */
  lemma PublicationsLost(drive: string, serverUrl: string)
    ensures
      var nodes := AddDir(NewTree, ROOT, "publications", None);
      && Wf(nodes) && UserEntry(["publications"], Dir) && HasEntry(nodes, ["publications"], Dir)
      && Wf(Rebuilt(nodes, drive, serverUrl)) && EntryAt(Rebuilt(nodes, drive, serverUrl), ["publications"]) == None
  {
    hide Rebuilt, HasEntry, EntryAt, AddDir, Wf;
    var nodes := AddDir(NewTree, ROOT, "publications", None);
    Sanitize.PlainNameIsClean("publications");
    OneDirectory(nodes, "publications");
    assert "publications"[..6] == "public";
    UserPathReturnsIff(nodes, drive, serverUrl, ["publications"], Dir);
  }
}

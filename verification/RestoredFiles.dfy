/** What any tags at all bring to a tree, and where restored files are fetched from. */
module RestoredFiles {
  import opened Wrappers
  import opened TreeModel
  import opened TreePaths
  import opened TreeDirs
  import opened Persist
  import Sanitize
  import Text

  /** The address of a blob: the server's text without its trailing slashes, one slash, the hash. */
  ghost predicate AddressOf(serverUrl: string, sha256: string, url: string) {
    exists base :: Text.Trimmed(serverUrl, base, '/') && url == base + "/" + sha256
  }

  lemma BlobUrlIsAddress(serverUrl: string, sha256: string)
    ensures AddressOf(serverUrl, sha256, BlobUrl(serverUrl, sha256))
  {
    Text.TrimEndIs(serverUrl, '/', Text.TrimEnd(serverUrl, '/'));
  }

  /** A blob has one address, with or without slashes at the end of the server's text. */
  lemma OneAddress(base: string, slashes: string, sha256: string, url: string)
    requires (base != "" ==> base[|base| - 1] != '/') && forall i :: 0 <= i < |slashes| ==> slashes[i] == '/'
    ensures AddressOf(base + slashes, sha256, url) <==> url == base + "/" + sha256
  {
    var server := base + slashes;
    assert Text.Trimmed(server, base, '/');
    Text.TrimEndIs(server, '/', base);
    forall other | Text.Trimmed(server, other, '/') ensures other == base { Text.TrimEndIs(server, '/', other); }
  }

  /** A file as a tag restores it: fetched from its address, without expiry, upload time or an empty MIME type. */
  ghost predicate FromTag(node: TreeNode, serverUrl: string) {
    && node.File? && node.content.Remote? && node.uploaded == 0
    && node.content.expires == None && node.content.mimeType != Some("")
    && AddressOf(serverUrl, node.content.sha256, node.content.url)
  }

  ghost predicate FilesKept(nodes: Nodes, after: Nodes, serverUrl: string) {
    && |nodes| <= |after|
    && (forall i :: 0 <= i < |nodes| && nodes[i].File? ==> after[i] == nodes[i])
    && forall i :: |nodes| <= i < |after| && after[i].File? ==> FromTag(after[i], serverUrl)
  }

  /** What resolved resolves as before; what newly resolves is a new node. */
  ghost predicate PathKept(nodes: Nodes, after: Nodes, p: Path) {
    if Resolve(nodes, ROOT, p).Some? then Resolve(after, ROOT, p) == Resolve(nodes, ROOT, p)
    else Resolve(after, ROOT, p).Some? ==> Resolve(after, ROOT, p).value > |nodes|
  }

  /** Nothing there is lost or moved, and every new file is as its tag says. */
  ghost predicate Applied(nodes: Nodes, after: Nodes, serverUrl: string) {
    Wf(after) && Extends(nodes, after) && FilesKept(nodes, after, serverUrl) && forall p :: PathKept(nodes, after, p)
  }

  lemma NothingApplied(nodes: Nodes, serverUrl: string)
    requires Wf(nodes)
    ensures Applied(nodes, nodes, serverUrl)
  {
  }

  lemma AppliedTogether(nodes: Nodes, mid: Nodes, after: Nodes, serverUrl: string)
    requires Applied(nodes, mid, serverUrl) && Applied(mid, after, serverUrl)
    ensures Applied(nodes, after, serverUrl)
  {
    forall p ensures PathKept(nodes, after, p) {
      assert PathKept(nodes, mid, p) && PathKept(mid, after, p);
    }
    hide Wf, FromTag, PathKept;
    forall i | 0 <= i < |nodes| ensures SameIdentity(nodes[i], after[i]) {
      assert SameIdentity(nodes[i], mid[i]) && SameIdentity(mid[i], after[i]);
    }
  }

  lemma RootExists(nodes: Nodes)
    requires Wf(nodes)
    ensures Exists(nodes, ROOT) && Resolve(nodes, ROOT, []) == Some(ROOT)
  {
    assert NodeOk(nodes, ROOT);
  }

  /** Directories of any parts, clean or not. */
  lemma DirsApplied(nodes: Nodes, parts: Path, serverUrl: string)
    requires Wf(nodes)
    ensures Applied(nodes, MkDirs(nodes, ROOT, parts).0, serverUrl)
    ensures Exists(MkDirs(nodes, ROOT, parts).0, MkDirs(nodes, ROOT, parts).1)
  {
    RootExists(nodes);
    MkDirsGrows(nodes, ROOT, [], ROOT, parts);
    var (made, ino) := MkDirs(nodes, ROOT, parts);
    var full := [] + Shown(nodes, ROOT, parts);
    hide MkDirs, Shown, Shadowed, Unblocked, Wf, FromTag, Resolve;
    assert OnlyDirsAdded(nodes, made);
    forall p ensures PathKept(nodes, made, p) {
      assert Shadowed(nodes, ROOT, parts) || GrownAt(nodes, made, ROOT, full, p);
    }
    forall i | 0 <= i < |nodes| && nodes[i].File? ensures made[i] == nodes[i] { assert OldNodeKept(nodes, made, i + 1); }
    forall i | |nodes| <= i < |made| ensures made[i].Directory? { assert NewNodeBare(nodes, made, i + 1); }
    if Resolve(made, ROOT, full) == Some(ino) { ResolvedNode(made, ROOT, full); }
  }

  lemma FileApplied(nodes: Nodes, parent: nat, name: string, content: FileContent, size: U64, serverUrl: string)
    requires Wf(nodes) && content.Remote? && content.expires == None && content.mimeType != Some("")
    requires AddressOf(serverUrl, content.sha256, content.url)
    ensures Applied(nodes, AddFile(nodes, parent, name, content, size, 0), serverUrl)
  {
    var node := NewFile(nodes, parent, name, content, size, 0);
    var after := Attach(nodes, parent, node);
    RootExists(nodes);
    Sanitize.ComponentIsClean(name);
    AddFileKeepsWf(nodes, parent, name, content, size, 0);
    assert after[|nodes|] == node;
    hide Wf, AddressOf, Resolve;
    forall p ensures PathKept(nodes, after, p) { ResolveAttach(nodes, parent, node, ROOT, p); }
  }

  lemma FolderTagApplied(nodes: Nodes, tag: Tag, serverUrl: string)
    requires Wf(nodes)
    ensures Applied(nodes, ApplyFolder(nodes, tag), serverUrl)
  {
    NothingApplied(nodes, serverUrl);
    hide Applied, MkDirs;
    if |tag| >= 2 { DirsApplied(nodes, PathParts(tag[1]), serverUrl); }
  }

  lemma FileTagApplied(nodes: Nodes, tag: Tag, serverUrl: string)
    requires Wf(nodes)
    ensures Applied(nodes, ApplyFile(nodes, tag, serverUrl), serverUrl)
  {
    NothingApplied(nodes, serverUrl);
    hide MkDirs, AddFile, Wf, FilesKept, PathKept, BlobUrl, AddressOf;
    if |tag| >= 4 {
      var dirs := Init(PathParts(tag[2]));
      DirsApplied(nodes, dirs, serverUrl);
      BlobUrlIsAddress(serverUrl, tag[1]);
      var (made, parent) := MkDirs(nodes, ROOT, dirs);
      var mime := if |tag| >= 5 && tag[4] != "" then Some(tag[4]) else None;
      var content := Remote(BlobUrl(serverUrl, tag[1]), tag[1], mime, None);
      FileApplied(made, parent, Last(PathParts(tag[2])), content, ParsedSize(tag[3]), serverUrl);
      AppliedTogether(nodes, made, AddFile(made, parent, Last(PathParts(tag[2])), content, ParsedSize(tag[3]), 0), serverUrl);
    }
  }

  lemma {:induction false} FoldersApplied(nodes: Nodes, tags: seq<Tag>, serverUrl: string)
    requires Wf(nodes)
    ensures Applied(nodes, ApplyFolders(nodes, tags), serverUrl)
    decreases |tags|
  {
    if tags == [] {
      NothingApplied(nodes, serverUrl);
    } else {
      FolderTagApplied(nodes, tags[0], serverUrl);
      var mid := ApplyFolder(nodes, tags[0]);
      hide ApplyFolder, FilesKept, PathKept, Wf;
      FoldersApplied(mid, tags[1..], serverUrl);
      AppliedTogether(nodes, mid, ApplyFolders(mid, tags[1..]), serverUrl);
    }
  }

  lemma {:induction false} FilesApplied(nodes: Nodes, tags: seq<Tag>, serverUrl: string)
    requires Wf(nodes)
    ensures Applied(nodes, ApplyFiles(nodes, tags, serverUrl), serverUrl)
    decreases |tags|
  {
    if tags == [] {
      NothingApplied(nodes, serverUrl);
    } else {
      FileTagApplied(nodes, tags[0], serverUrl);
      var mid := ApplyFile(nodes, tags[0], serverUrl);
      hide ApplyFile, FilesKept, PathKept, Wf;
      FilesApplied(mid, tags[1..], serverUrl);
      AppliedTogether(nodes, mid, ApplyFiles(mid, tags[1..], serverUrl), serverUrl);
    }
  }

  /**
   * Whatever tags are applied to a well-formed tree, also another client's: it stays well-formed, no file there changes, every
   * path leads where it led, a path that newly leads somewhere leads to a new node, and every new file is remote, fetched
   * from the server's address of its hash.
   */
  lemma TagsApplied(nodes: Nodes, tags: seq<Tag>, serverUrl: string)
    requires Wf(nodes)
    ensures Applied(nodes, ApplyPersisted(nodes, tags, serverUrl), serverUrl)
  {
    FoldersApplied(nodes, tags, serverUrl);
    var mid := ApplyFolders(nodes, tags);
    hide ApplyFolders, ApplyFiles, FilesKept, PathKept, Wf;
    FilesApplied(mid, tags, serverUrl);
    AppliedTogether(nodes, mid, ApplyFiles(mid, tags, serverUrl), serverUrl);
  }

  // ---------- Tags in other forms ----------

  lemma LeadingSlash(p: string)
    ensures PathParts("/" + p) == PathParts(p)
  {
    assert ("/" + p)[1..] == p;
  }

  lemma {:induction false} TrailingSlash(s: string, sep: char)
    ensures Text.Split(s + [sep], sep) == Text.Split(s, sep) + [""]
  {
    if s == "" {
      assert ("" + [sep])[1..] == "";
      assert Text.Split("" + [sep], sep) == [""] + [""];
    } else {
      assert (s + [sep])[1..] == s[1..] + [sep];
      TrailingSlash(s[1..], sep);
    }
  }

  /**
   * File tags of other forms: a missing MIME type is an empty one, fields after it do not matter, leading slashes do not
   * matter, a size that is no number is zero, a path ending in a slash only makes its directories, and anything shorter or
   * with another name does nothing.
   */
  lemma FileTagForms(nodes: Nodes, h: string, path: string, size: string, mime: string, extra: Tag, serverUrl: string)
    ensures ApplyFile(nodes, ["x", h, path, size], serverUrl) == ApplyFile(nodes, ["x", h, path, size, ""], serverUrl)
    ensures ApplyFile(nodes, ["x", h, path, size, mime] + extra, serverUrl) == ApplyFile(nodes, ["x", h, path, size, mime], serverUrl)
    ensures ApplyFile(nodes, ["x", h, "/" + path, size, mime], serverUrl) == ApplyFile(nodes, ["x", h, path, size, mime], serverUrl)
    ensures Text.ParseU64(size).None? ==>
      ApplyFile(nodes, ["x", h, path, size, mime], serverUrl) == ApplyFile(nodes, ["x", h, path, "0", mime], serverUrl)
    ensures path != "" && path[0] != '/' ==>
      ApplyFile(nodes, ["x", h, path + "/", size, mime], serverUrl) == ApplyFolder(nodes, ["folder", path])
    ensures forall tag: Tag :: |tag| < 4 || tag[0] != "x" ==> ApplyFile(nodes, tag, serverUrl) == nodes
  {
    hide MkDirs, AddFile, Lookup;
    LeadingSlash(path);
    Text.ParsePrinted(0);
    assert Text.Decimal(0) == "0";
    if path != "" && path[0] != '/' {
      TrailingSlash(path, '/');
      var parts := Text.Split(path, '/');
      assert PathParts(path + "/") == parts + [""] && PathParts(path) == parts;
      assert Init(parts + [""]) == parts && Last(parts + [""]) == "";
      assert parts[0] != "";
    }
  }

  /** Folder tags of other forms. */
  lemma FolderTagForms(nodes: Nodes, path: string, extra: Tag)
    ensures ApplyFolder(nodes, ["folder", path] + extra) == ApplyFolder(nodes, ["folder", path])
    ensures ApplyFolder(nodes, ["folder", "/" + path]) == ApplyFolder(nodes, ["folder", path])
    ensures ApplyFolder(nodes, ["folder", path + "/"]) == ApplyFolder(nodes, ["folder", path])
    ensures forall tag: Tag :: |tag| < 2 || tag[0] != "folder" ==> ApplyFolder(nodes, tag) == nodes
  {
    LeadingSlash(path);
    hide MkDirs;
    TrailingParts(nodes, path);
  }

  lemma {:induction false} EmptyPartLast(nodes: Nodes, parent: nat, parts: Path)
    ensures MkDirs(nodes, parent, parts + [""]) == MkDirs(nodes, parent, parts)
  {
    MkDirsSnoc(nodes, parent, parts, "");
  }

  lemma {:induction false} TrailingParts(nodes: Nodes, path: string)
    ensures MkDirs(nodes, ROOT, PathParts(path + "/")) == MkDirs(nodes, ROOT, PathParts(path))
    decreases |path|
  {
    if path == "" {
      assert ("" + "/")[1..] == "";
      assert PathParts("" + "/") == PathParts("");
    } else if path[0] == '/' {
      assert (path + "/")[1..] == path[1..] + "/";
      TrailingParts(nodes, path[1..]);
      assert path == "/" + path[1..] && path + "/" == "/" + (path[1..] + "/");
      LeadingSlash(path[1..]);
      LeadingSlash(path[1..] + "/");
    } else {
      TrailingSlash(path, '/');
      EmptyPartLast(nodes, ROOT, Text.Split(path, '/'));
    }
  }
}

/** Printing the user part of a tree to flat tags, sending them through an event, and rebuilding a tree from them. */
module Persist {
  import opened Wrappers
  import opened TreeModel
  import opened TreePaths
  import opened TreeDirs
  import Sanitize
  import Text

  type Tag = seq<string>

  // ---------- Printing ----------

  const PUBLIC := "/public"

  function MimeText(mime: Option<string>): string {
    match mime
    case None => ""
    case Some(m) => m
  }

  function FolderTag(path: string): Tag {
    ["folder", path]
  }

  function FileTag(sha256: string, path: string, size: U64, mime: Option<string>): Tag {
    ["x", sha256, path, Text.Decimal(size), MimeText(mime)]
  }

  /** The tags of the subtree at `ino`, in preorder. Children come after their directory, so the recursion ends. */
  function Collect(nodes: Nodes, ino: nat, path: string): seq<Tag>
    requires Wf(nodes)
    decreases |nodes| - Min(ino, |nodes|), 1 + |Children(nodes, ino)|
  {
    match Get(nodes, ino)
    case None => []
    case Some(Directory(_, _, children, _, _)) =>
      ChildrenExist(nodes, ino);
      (if ino != ROOT && !(PUBLIC <= path) then [FolderTag(path)] else [])
        + CollectChildren(nodes, ino, children, path)
    case Some(File(_, _, _, size, content, _)) =>
      match content
      case Remote(_, sha256, mime, _) => [FileTag(sha256, path, size, mime)]
      case _ => []
  }

  function CollectChildren(nodes: Nodes, ino: nat, children: seq<nat>, path: string): seq<Tag>
    requires Wf(nodes) && Exists(nodes, ino) && forall c <- children :: ino < c <= |nodes|
    decreases |nodes| - ino, |children|
  {
    if children == [] then []
    else
      assert children[0] in children && forall c <- children[1..] :: c in children;
      var below := path + "/" + nodes[children[0] - 1].name;
      (if PUBLIC <= below then [] else Collect(nodes, children[0], below))
        + CollectChildren(nodes, ino, children[1..], path)
  }

  lemma CollectChildrenStep(nodes: Nodes, ino: nat, children: seq<nat>, path: string)
    requires Wf(nodes) && Exists(nodes, ino) && children != [] && forall c <- children :: ino < c <= |nodes|
    ensures children[0] in children && forall c <- children[1..] :: c in children
    ensures
      var below := path + "/" + nodes[children[0] - 1].name;
      CollectChildren(nodes, ino, children, path)
        == (if PUBLIC <= below then [] else Collect(nodes, children[0], below)) + CollectChildren(nodes, ino, children[1..], path)
  {
    assert children[0] in children && forall c <- children[1..] :: c in children;
  }

  /** What a walk that has printed `tags` so far prints for one node. */
  lemma CollectPrints(nodes: Nodes, ino: nat, path: string, tags: seq<Tag>)
    requires Wf(nodes)
    ensures !Exists(nodes, ino) ==> tags + Collect(nodes, ino, path) == tags
    ensures Exists(nodes, ino) && nodes[ino - 1].File? ==>
      var file := nodes[ino - 1];
      tags + Collect(nodes, ino, path) ==
        if file.content.Remote? then tags + [FileTag(file.content.sha256, path, file.size, file.content.mimeType)] else tags
    ensures Exists(nodes, ino) && nodes[ino - 1].Directory? ==>
      var children := nodes[ino - 1].children;
      && (forall c <- children :: ino < c <= |nodes|)
      && tags + Collect(nodes, ino, path)
           == (if ino != ROOT && !(PUBLIC <= path) then tags + [FolderTag(path)] else tags) + CollectChildren(nodes, ino, children, path)
  {
    if Exists(nodes, ino) && nodes[ino - 1].Directory? { ChildrenExist(nodes, ino); }
  }

  lemma CollectNothing(nodes: Nodes, ino: nat, path: string)
    requires Wf(nodes) && Exists(nodes, ino)
    ensures CollectChildren(nodes, ino, [], path) == []
  {
  }

  lemma Regrouped(a: seq<Tag>, b: seq<Tag>, c: seq<Tag>)
    ensures a + b + c == a + (b + c)
  {
  }

  function PersistTags(nodes: Nodes): seq<Tag>
    requires Wf(nodes)
  {
    Collect(nodes, ROOT, "")
  }

  // ---------- The wire ----------

  const LABEL := "blossomfs"

  predicate NonEmpty(tags: seq<Tag>) {
    forall i :: 0 <= i < |tags| ==> |tags[i]| > 0
  }

  function PublishedTag(tag: Tag): seq<Tag>
    requires |tag| > 0
  {
    if tag[0] == "folder" && |tag| >= 2 then [["folder", tag[1]]]
    else if tag[0] == "x" && |tag| >= 5 then [["x", tag[1], tag[2], tag[3], tag[4]]]
    else []
  }

  function PublishedTags(tags: seq<Tag>): seq<Tag>
    requires NonEmpty(tags)
  {
    if tags == [] then [] else PublishedTags(tags[..|tags| - 1]) + PublishedTag(tags[|tags| - 1])
  }

  /** The event's tags: two metadata tags, then the content tags. */
  function Publish(drive: string, tags: seq<Tag>): seq<Tag>
    requires NonEmpty(tags)
  {
    [["d", drive], ["l", LABEL]] + PublishedTags(tags)
  }

  /** The tag loop of `publish_persist_event`; an empty tag makes it panic. */
  method PublishEventTags(drive: string, tags: seq<Tag>) returns (eventTags: seq<Tag>)
    requires NonEmpty(tags)
    ensures eventTags == Publish(drive, tags)
  {
    eventTags := [["d", drive], ["l", LABEL]];
    for i := 0 to |tags|
      invariant eventTags == Publish(drive, tags[..i])
    {
      var tag := tags[i];
      if tag[0] == "folder" && |tag| >= 2 {
        eventTags := eventTags + [["folder", tag[1]]];
      } else if tag[0] == "x" && |tag| >= 5 {
        eventTags := eventTags + [["x", tag[1], tag[2], tag[3], tag[4]]];
      }
      assert tags[..i + 1][..i] == tags[..i];
    }
    assert tags[..|tags|] == tags;
  }

  predicate IsContentTag(tag: Tag) {
    tag != [] && (tag[0] == "folder" || tag[0] == "x")
  }

  /** `event_to_tags`. */
  function Extract(tags: seq<Tag>): seq<Tag> {
    if tags == [] then []
    else Extract(tags[..|tags| - 1]) + (if IsContentTag(tags[|tags| - 1]) then [tags[|tags| - 1]] else [])
  }

  ghost predicate WireShape(tag: Tag) {
    && (|tag| == 2 || |tag| == 5)
    && tag[0] == if |tag| == 2 then "folder" else "x"
  }

  lemma {:induction false} ExtractConcat(a: seq<Tag>, b: seq<Tag>)
    ensures Extract(a + b) == Extract(a) + Extract(b)
  {
    if b == [] {
      assert a + b == a;
    } else {
      assert (a + b)[..|a + b| - 1] == a + b[..|b| - 1];
      ExtractConcat(a, b[..|b| - 1]);
    }
  }

  lemma ShapedTagKept(tag: Tag)
    requires WireShape(tag)
    ensures PublishedTag(tag) == [tag] && IsContentTag(tag)
  {
    if |tag| == 2 { assert tag == ["folder", tag[1]]; }
    else { assert tag == ["x", tag[1], tag[2], tag[3], tag[4]]; }
  }

  lemma ShapedNonEmpty(tags: seq<Tag>)
    requires forall i :: 0 <= i < |tags| ==> WireShape(tags[i])
    ensures NonEmpty(tags)
  {
  }

  lemma LastTag(tags: seq<Tag>)
    requires tags != [] && NonEmpty(tags)
    ensures NonEmpty(tags[..|tags| - 1])
    ensures PublishedTags(tags) == PublishedTags(tags[..|tags| - 1]) + PublishedTag(tags[|tags| - 1])
    ensures IsContentTag(tags[|tags| - 1]) ==> Extract(tags) == Extract(tags[..|tags| - 1]) + [tags[|tags| - 1]]
  {
  }

  lemma {:induction false} PublishedKeepsShaped(tags: seq<Tag>)
    requires forall i :: 0 <= i < |tags| ==> WireShape(tags[i])
    ensures NonEmpty(tags) && PublishedTags(tags) == tags && Extract(tags) == tags
  {
    ShapedNonEmpty(tags);
    if tags != [] {
      var init, last := tags[..|tags| - 1], tags[|tags| - 1];
      assert WireShape(last);
      ShapedTagKept(last);
      LastTag(tags);
      hide WireShape, PublishedTag, IsContentTag, PublishedTags, Extract, NonEmpty;
      PublishedKeepsShaped(init);
      assert init + [last] == tags;
    }
  }

  /** Tags of the two persisted shapes come back from an event unchanged and in order, without the metadata. */
  lemma WireRoundTrip(drive: string, tags: seq<Tag>)
    requires forall i :: 0 <= i < |tags| ==> WireShape(tags[i])
    ensures NonEmpty(tags) && Extract(Publish(drive, tags)) == tags
  {
    var meta := [["d", drive], ["l", LABEL]];
    PublishedKeepsShaped(tags);
    ExtractConcat(meta, tags);
    MetadataIsDropped(drive);
    hide Extract, PublishedTags;
    assert [] + tags == tags;
  }

  lemma MetadataIsDropped(drive: string)
    ensures Extract([["d", drive], ["l", LABEL]]) == []
  {
    var meta := [["d", drive], ["l", LABEL]];
    assert meta[..1] == [["d", drive]];
    assert Extract([["d", drive]]) == [];
  }

  /** Whatever is published, the event says whose drive it is and what wrote it, and then holds shaped tags only. */
  lemma {:induction false} PublishedIsShaped(drive: string, tags: seq<Tag>)
    requires NonEmpty(tags)
    ensures
      var event := Publish(drive, tags);
      && |event| >= 2 && event[0] == ["d", drive] && event[1] == ["l", "blossomfs"]
      && forall i :: 2 <= i < |event| ==> WireShape(event[i])
    decreases |tags|
  {
    if tags != [] {
      LastTag(tags);
      PublishedIsShaped(drive, tags[..|tags| - 1]);
      var init := PublishedTags(tags[..|tags| - 1]);
      forall i | 0 <= i < |init| ensures WireShape(init[i]) { assert Publish(drive, tags[..|tags| - 1])[i + 2] == init[i]; }
      hide NonEmpty, PublishedTags;
    }
  }

  /** Fields after the last expected one are cut off; tags that are too short or have another name are left out. */
  lemma PublishedForms(path: string, h: string, size: string, mime: string, extra: Tag)
    ensures PublishedTag(["folder", path] + extra) == [["folder", path]]
    ensures PublishedTag(["x", h, path, size, mime] + extra) == [["x", h, path, size, mime]]
    ensures forall tag: Tag :: |tag| > 0 && (if tag[0] == "folder" then |tag| < 2 else if tag[0] == "x" then |tag| < 5 else true)
              ==> PublishedTag(tag) == []
  {
  }

  /** The tags as written: the path from a leading slash, the size in decimal, an empty text for no MIME type. */
  lemma TagsAsWritten(h: string, mime: string)
    ensures PathText(["a", "b"]) == "/a/b" && FolderTag("/a/b") == ["folder", "/a/b"]
    ensures
      var tag := FileTag(h, "/a/b", 1200, Some(mime));
      |tag| == 5 && tag[0] == "x" && tag[1] == h && tag[2] == "/a/b" && tag[3] == "1200" && tag[4] == mime
    ensures FileTag(h, "/a/b", 1200, None)[4] == ""
  {
    PathTextJoin(["a", "b"]);
    assert ["a", "b"][1..] == ["b"];
    assert Text.Join(["b"], '/') == "b";
    assert Text.Join(["a", "b"], '/') == "a" + ['/'] + "b";
    assert Text.Decimal(1) == "1" && Text.Decimal(12) == "1" + "2" && Text.Decimal(120) == "12" + "0";
    assert Text.Decimal(1200) == "120" + "0";
  }

  // ---------- Rebuilding ----------

  function PathParts(text: string): (parts: Path)
    ensures |parts| >= 1
  {
    Text.Split(Text.TrimStart(text, '/'), '/')
  }

  function ApplyFolder(nodes: Nodes, tag: Tag): Nodes {
    if |tag| >= 2 && tag[0] == "folder" then MkDirs(nodes, ROOT, PathParts(tag[1])).0 else nodes
  }

  function ParsedSize(text: string): U64 {
    match Text.ParseU64(text)
    case Some(n) => n
    case None => 0
  }

  function BlobUrl(serverUrl: string, sha256: string): string {
    Text.TrimEnd(serverUrl, '/') + "/" + sha256
  }

  function ApplyFile(nodes: Nodes, tag: Tag, serverUrl: string): Nodes {
    if |tag| >= 4 && tag[0] == "x" then
      var size := ParsedSize(tag[3]);
      var mime := if |tag| >= 5 && tag[4] != "" then Some(tag[4]) else None;
      var parts := PathParts(tag[2]);
      if parts[0] == "" then nodes
      else
        var (made, parent) := MkDirs(nodes, ROOT, Init(parts));
        var name := Last(parts);
        if name != "" && Lookup(made, parent, name).None? then
          AddFile(made, parent, name, Remote(BlobUrl(serverUrl, tag[1]), tag[1], mime, None), size, 0)
        else made
    else nodes
  }

  function ApplyFolders(nodes: Nodes, tags: seq<Tag>): Nodes
    decreases |tags|
  {
    if tags == [] then nodes else ApplyFolders(ApplyFolder(nodes, tags[0]), tags[1..])
  }

  function ApplyFiles(nodes: Nodes, tags: seq<Tag>, serverUrl: string): Nodes
    decreases |tags|
  {
    if tags == [] then nodes else ApplyFiles(ApplyFile(nodes, tags[0], serverUrl), tags[1..], serverUrl)
  }

  /** `apply_persisted`: first every folder tag, then every file tag. */
  function ApplyPersisted(nodes: Nodes, tags: seq<Tag>, serverUrl: string): Nodes {
    ApplyFiles(ApplyFolders(nodes, tags), tags, serverUrl)
  }

  // ---------- What is persisted, without text ----------

  datatype Entry = Dir | Blob(sha256: string, size: U64, mime: Option<string>) | Opaque

  function NormMime(mime: Option<string>): Option<string> {
    if mime == Some("") then None else mime
  }

  function EntryOf(node: TreeNode): Entry {
    match node
    case Directory(_, _, _, _, _) => Dir
    case File(_, _, _, size, content, _) =>
      match content
      case Remote(_, sha256, mime, _) => Blob(sha256, size, NormMime(mime))
      case _ => Opaque
  }

  ghost predicate HasEntry(nodes: Nodes, path: Path, e: Entry) {
    exists to :: Reaches(nodes, ROOT, path, to) && Exists(nodes, to) && EntryOf(nodes[to - 1]) == e
  }

  /** The entry that name lookups from the root find. */
  function EntryAt(nodes: Nodes, path: Path): Option<Entry>
    requires Wf(nodes)
  {
    match Resolve(nodes, ROOT, path)
    case None => None
    case Some(ino) =>
      ResolvedNode(nodes, ROOT, path);
      Some(EntryOf(nodes[ino - 1]))
  }

  /** Paths under root children whose name starts with "public"; they are generated, not persisted. */
  predicate Public(path: Path) {
    path != [] && "public" <= path[0]
  }

  ghost predicate Persistable(path: Path, e: Entry) {
    path != [] && !Public(path) && e != Opaque
  }

  type Listed = (Path, Entry)

  function PathText(path: Path): string {
    if path == [] then "" else PathText(Init(path)) + "/" + Last(path)
  }

  function Printed(l: Listed): seq<Tag> {
    match l.1
    case Dir => [FolderTag(PathText(l.0))]
    case Blob(sha256, size, mime) => [FileTag(sha256, PathText(l.0), size, mime)]
    case Opaque => []
  }

  function PrintAll(ls: seq<Listed>): seq<Tag> {
    if ls == [] then [] else Printed(ls[0]) + PrintAll(ls[1..])
  }

  /** The persisted entries below `ino`, in the order they are printed. */
  function Listing(nodes: Nodes, ino: nat, path: Path): seq<Listed>
    requires Wf(nodes)
    decreases |nodes| - Min(ino, |nodes|), 1 + |Children(nodes, ino)|
  {
    if !Exists(nodes, ino) then []
    else
      ChildrenExist(nodes, ino);
      (if ino != ROOT then [(path, EntryOf(nodes[ino - 1]))] else [])
        + ListChildren(nodes, ino, Children(nodes, ino), path)
  }

  function ListChildren(nodes: Nodes, ino: nat, children: seq<nat>, path: Path): seq<Listed>
    requires Wf(nodes) && Exists(nodes, ino) && forall c <- children :: ino < c <= |nodes|
    decreases |nodes| - ino, |children|
  {
    if children == [] then []
    else
      assert children[0] in children && forall c <- children[1..] :: c in children;
      var below := path + [nodes[children[0] - 1].name];
      (if Public(below) then [] else Listing(nodes, children[0], below))
        + ListChildren(nodes, ino, children[1..], path)
  }

  // ---------- Text of paths ----------

  lemma {:induction false} PathTextHead(path: Path)
    requires path != []
    ensures PathText(path) == "/" + path[0] + PathText(path[1..])
    decreases |path|
  {
    if |path| == 1 {
      assert Init(path) == [] && path[1..] == [];
      assert PathText(path) == "" + "/" + path[0];
      assert "" + "/" + path[0] == "/" + path[0] + "";
    } else {
      PathTextHead(Init(path));
      assert Init(path)[1..] == Init(path[1..]);
      assert Last(path[1..]) == Last(path);
      Regroup("/" + path[0], PathText(Init(path[1..])), "/", Last(path));
    }
  }

  lemma Regroup(a: string, b: string, c: string, d: string)
    ensures a + b + c + d == a + (b + c + d)
  {
  }

  lemma PathTextStarts(path: Path)
    ensures path != [] ==> PathText(path) != "" && PathText(path)[0] == '/'
  {
    if path != [] { PathTextHead(path); }
  }

  /** The textual test for the generated subtree looks at the first component only. */
  lemma PublicIsTextual(path: Path)
    requires CleanPath(path)
    ensures PUBLIC <= PathText(path) <==> Public(path)
  {
    if path != [] {
      PathTextHead(path);
      PathTextStarts(path[1..]);
      assert Sanitize.Clean(path[0]);
      PublicHead(path[0], PathText(path[1..]));
    }
  }

  lemma PublicHead(head: string, rest: string)
    requires rest != "" ==> rest[0] == '/'
    ensures PUBLIC <= "/" + head + rest <==> "public" <= head
  {
    PrefixOfHead("public", head, rest);
    PrefixAfterSlash("public", head + rest);
    assert "/" + head + rest == "/" + (head + rest);
    assert PUBLIC == "/" + "public";
  }

  lemma PrefixAfterSlash(prefix: string, s: string)
    ensures "/" + prefix <= "/" + s <==> prefix <= s
  {
    assert ("/" + s)[1..] == s && ("/" + prefix)[1..] == prefix;
    if "/" + prefix <= "/" + s { assert ("/" + s)[..1 + |prefix|][1..] == s[..|prefix|]; }
    if prefix <= s { assert ("/" + s)[..1 + |prefix|] == "/" + s[..|prefix|]; }
  }

  lemma PrefixOfHead(prefix: string, head: string, rest: string)
    requires '/' !in prefix && (rest != "" ==> rest[0] == '/')
    ensures prefix <= head + rest <==> prefix <= head
  {
    var s := head + rest;
    if prefix <= s {
      assert forall i :: 0 <= i < |prefix| ==> s[i] == prefix[i] && prefix[i] != '/';
      assert |head| < |s| ==> s[|head|] == '/';
      assert s[..|prefix|] == head[..|prefix|];
    }
  }

  lemma {:induction false} PathTextJoin(path: Path)
    requires path != []
    ensures PathText(path) == "/" + Text.Join(path, '/')
    decreases |path|
  {
    PathTextHead(path);
    if |path| > 1 {
      PathTextJoin(path[1..]);
    }
  }

  /** Splitting the text of a path of clean names gives back the path. */
  lemma PathTextParts(path: Path)
    requires path != [] && CleanPath(path)
    ensures PathParts(PathText(path)) == path
  {
    PathTextJoin(path);
    var joined := Text.Join(path, '/');
    assert Sanitize.Clean(path[0]);
    assert joined[0] == path[0][0];
    assert ("/" + joined)[1..] == joined;
    assert Text.TrimStart("/" + joined, '/') == joined;
    assert Text.Free(path, '/') by {
      forall i | 0 <= i < |path| ensures '/' !in path[i] { assert Sanitize.Clean(path[i]); }
    }
    Text.SplitJoin(path, '/');
  }

  // ---------- Printing is the listing ----------

  lemma {:induction false} PrintAllConcat(a: seq<Listed>, b: seq<Listed>)
    ensures PrintAll(a + b) == PrintAll(a) + PrintAll(b)
  {
    if a == [] {
      assert a + b == b;
    } else {
      assert (a + b)[0] == a[0] && (a + b)[1..] == a[1..] + b;
      PrintAllConcat(a[1..], b);
    }
  }

  lemma PathTextSnoc(path: Path, name: string)
    ensures PathText(path + [name]) == PathText(path) + "/" + name
  {
    assert Init(path + [name]) == path;
  }
}

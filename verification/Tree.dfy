/** The inode-arena tree as the source has it: one node vector, updated in place. */
module InodeTree {
  import opened Wrappers
  import M = TreeModel
  import P = Persist
  import D = TreeDirs
  import V = Views
  import VR = ViewsResult
  import R = TreeRemoval
  import F = RestoredFiles
  import TreePaths
  import Sanitize
  import Text

  class Tree {
    var nodes: M.Nodes

    constructor ()
      ensures nodes == M.NewTree && M.Wf(nodes)
    {
      nodes := M.NewTree;
      M.NewTreeIsWf();
    }

    /** Finds the first child of that name. */
    method Lookup(parent: nat, name: string) returns (found: Option<nat>)
      ensures found == M.Lookup(nodes, parent, name)
    {
      if !M.IsDir(nodes, parent) { return None; }
      var children := nodes[parent - 1].children;
      var i := 0;
      while i < |children|
        invariant 0 <= i <= |children|
        invariant M.FirstNamed(nodes, children[i..], name) == M.Lookup(nodes, parent, name)
      {
        assert children[i..][0] == children[i] && children[i..][1..] == children[i + 1..];
        if !M.Exists(nodes, children[i]) { return None; }
        if nodes[children[i] - 1].name == name { return Some(children[i]); }
        i := i + 1;
      }
      return None;
    }

    /** Pushes a node and lists it under its parent. */
    method Push(parent: nat, node: M.TreeNode)
      modifies this
      ensures nodes == M.Attach(old(nodes), parent, node)
    {
      var ino := |nodes| + 1;
      nodes := nodes + [node];
      if M.IsDir(nodes, parent) {
        var dir := nodes[parent - 1];
        nodes := nodes[parent - 1 := dir.(children := dir.children + [ino])];
      }
    }

    /** `add_directory` and, with a pending population, `add_lazy_dir`. */
    method AddDirectory(parent: nat, name: string, lazy: Option<M.LazyDir>) returns (ino: nat)
      modifies this
      ensures nodes == M.AddDir(old(nodes), parent, name, lazy) && ino == M.NextInode(old(nodes)) && |nodes| == ino
      ensures nodes[ino - 1]
        == M.Directory(ino, Sanitize.Component(name), if parent == ino then [ino] else [], parent, lazy)
      ensures old(M.Wf(nodes)) ==> (M.Wf(nodes) <==> parent != ino)
    {
      if M.Wf(nodes) { M.AddDirKeepsWf(nodes, parent, name, lazy); }
      var sanitized := Sanitize.SanitizePathComponent(name);
      ino := |nodes| + 1;
      Push(parent, M.Directory(ino, sanitized, [], parent, lazy));
    }

    /** `add_static_file`, `add_remote_file`, `add_local_file` and `add_file_to_dir`, which differ in content only. */
    method AddFileToDir(parent: nat, name: string, content: M.FileContent, size: U64, uploaded: U64) returns (ino: nat)
      modifies this
      ensures nodes == M.AddFile(old(nodes), parent, name, content, size, uploaded) && ino == M.NextInode(old(nodes))
      ensures |nodes| == ino && nodes[ino - 1] == M.File(ino, Sanitize.Component(name), parent, size, content, uploaded)
      ensures old(M.Wf(nodes)) ==> M.Wf(nodes)
    {
      if M.Wf(nodes) { M.AddFileKeepsWf(nodes, parent, name, content, size, uploaded); }
      var sanitized := Sanitize.SanitizePathComponent(name);
      ino := |nodes| + 1;
      Push(parent, M.File(ino, sanitized, parent, size, content, uploaded));
    }

    method GetOrCreateDir(parent: nat, name: string) returns (ino: nat)
      modifies this
      ensures (nodes, ino) == M.GetOrCreateDir(old(nodes), parent, name)
    {
      var found := Lookup(parent, name);
      if found.Some? { return found.value; }
      ino := AddDirectory(parent, name, None);
    }

    method RemoveFileFromDir(parent: nat, name: string) returns (removed: bool)
      modifies this
      ensures (nodes, removed) == M.RemoveFile(old(nodes), parent, name)
      ensures old(M.Wf(nodes)) ==> M.Wf(nodes) && R.UnlinkMeans(old(nodes), parent, name, nodes, removed)
    {
      hide R.UnlinkMeans;
      if M.Wf(nodes) { R.RemoveFileMeans(nodes, parent, name); }
      var found := Lookup(parent, name);
      if found.None? || M.IsDir(nodes, found.value) { return false; }
      if M.Wf(nodes) { M.UnlistKeepsWf(nodes, parent, found.value); }
      var dir := nodes[parent - 1];
      nodes := nodes[parent - 1 := dir.(children := M.Without(dir.children, found.value))];
      return true;
    }

    /** The tree part of `rmdir`. */
    method RemoveDirFromDir(parent: nat, name: string) returns (result: M.RmdirResult)
      modifies this
      ensures (nodes, result) == M.RemoveDir(old(nodes), parent, name)
      ensures old(M.Wf(nodes)) ==> M.Wf(nodes) && R.RmdirMeans(old(nodes), parent, name, nodes, result)
    {
      hide R.RmdirMeans;
      if M.Wf(nodes) { R.RemoveDirMeans(nodes, parent, name); }
      var found := Lookup(parent, name);
      if found.None? { return M.NoEntry; }
      if !M.IsDir(nodes, found.value) { return M.NotDir; }
      if nodes[found.value - 1].children != [] { return M.NotEmpty; }
      if M.Wf(nodes) { M.UnlistKeepsWf(nodes, parent, found.value); }
      var dir := nodes[parent - 1];
      nodes := nodes[parent - 1 := dir.(children := M.Without(dir.children, found.value))];
      return M.Removed;
    }

    method TakeLazy(ino: nat) returns (lazy: Option<M.LazyDir>)
      modifies this
      ensures (nodes, lazy) == M.TakeLazy(old(nodes), ino)
      ensures M.IsDir(old(nodes), ino) ==> lazy == old(nodes)[ino - 1].lazy && nodes[ino - 1] == old(nodes)[ino - 1].(lazy := None)
      ensures !M.IsDir(old(nodes), ino) ==> lazy == None && nodes == old(nodes)
    {
      if !M.IsDir(nodes, ino) { return None; }
      var dir := nodes[ino - 1];
      nodes := nodes[ino - 1 := dir.(lazy := None)];
      return dir.lazy;
    }

    method UpdateFileNode(ino: nat, content: M.FileContent, size: U64, uploaded: U64) returns (updated: bool)
      modifies this
      ensures (nodes, updated) == M.UpdateFile(old(nodes), ino, content, size, uploaded)
      ensures updated <==> M.Exists(nodes, ino) && nodes[ino - 1].File?
      ensures TreePaths.PayloadOnly(old(nodes), nodes, ino, updated)
      ensures updated ==>
        TreePaths.RecordOf(nodes[ino - 1]) == TreePaths.FileRecord(old(nodes)[ino - 1].name, content, size, uploaded)
    {
      hide TreePaths.PayloadOnly, M.Wf;
      ghost var before := nodes;
      if M.Exists(nodes, ino) && nodes[ino - 1].File? {
        nodes := nodes[ino - 1 := nodes[ino - 1].(content := content, size := size, uploaded := uploaded)];
        TreePaths.UpdatedPayload(before, ino, nodes[ino - 1]);
        return true;
      }
      TreePaths.NoUpdate(before, ino);
      return false;
    }

    method UpdateFileSize(ino: nat, size: U64) returns (updated: bool)
      modifies this
      ensures (nodes, updated) == M.UpdateSize(old(nodes), ino, size)
      ensures updated <==> M.Exists(nodes, ino) && nodes[ino - 1].File?
      ensures TreePaths.PayloadOnly(old(nodes), nodes, ino, updated)
      ensures updated ==>
        TreePaths.RecordOf(nodes[ino - 1]) == TreePaths.RecordOf(old(nodes)[ino - 1]).(size := size)
    {
      hide TreePaths.PayloadOnly, M.Wf;
      ghost var before := nodes;
      if M.Exists(nodes, ino) && nodes[ino - 1].File? {
        nodes := nodes[ino - 1 := nodes[ino - 1].(size := size)];
        TreePaths.UpdatedPayload(before, ino, nodes[ino - 1]);
        return true;
      }
      TreePaths.NoUpdate(before, ino);
      return false;
    }

    method SetExpires(ino: nat, expires: Option<U64>) returns (updated: bool)
      modifies this
      ensures (nodes, updated) == M.SetExpires(old(nodes), ino, expires)
      ensures updated <==> M.Exists(nodes, ino) && nodes[ino - 1].File? && nodes[ino - 1].content.Remote?
      ensures TreePaths.PayloadOnly(old(nodes), nodes, ino, updated)
      ensures updated ==>
        var was := TreePaths.RecordOf(old(nodes)[ino - 1]);
        && nodes[ino - 1].content.expires == expires
        && TreePaths.RecordOf(nodes[ino - 1]) == was.(content := was.content.(expires := expires))
    {
      hide TreePaths.PayloadOnly, M.Wf;
      ghost var before := nodes;
      if M.Exists(nodes, ino) && nodes[ino - 1].File? && nodes[ino - 1].content.Remote? {
        var content := nodes[ino - 1].content.(expires := expires);
        nodes := nodes[ino - 1 := nodes[ino - 1].(content := content)];
        TreePaths.UpdatedPayload(before, ino, nodes[ino - 1]);
        return true;
      }
      TreePaths.NoUpdate(before, ino);
      return false;
    }

    // ---------- Persistence ----------

    /** Appends the tags of a subtree to `tags`; the path grows and shrinks on the way and comes back as it was. */
    method CollectPersist(ino: nat, path0: string, tags0: seq<P.Tag>) returns (path: string, tags: seq<P.Tag>)
      requires M.Wf(nodes)
      ensures path == path0 && tags == tags0 + P.Collect(nodes, ino, path0)
      decreases |nodes| - Min(ino, |nodes|)
    {
      hide P.CollectChildren, P.Collect, P.FileTag, P.FolderTag, M.Wf, M.Children;
      path, tags := path0, tags0;
      P.CollectPrints(nodes, ino, path0, tags0);
      if !M.Exists(nodes, ino) { return; }
      match nodes[ino - 1]
      case File(_, _, _, size, content, _) =>
        if content.Remote? { tags := tags + [P.FileTag(content.sha256, path, size, content.mimeType)]; }
      case Directory(_, _, children, _, _) =>
        if ino != M.ROOT && !(P.PUBLIC <= path) { tags := tags + [P.FolderTag(path)]; }
        ghost var done := tags0 + P.Collect(nodes, ino, path0);
        var left: seq<nat> := children;
        while left != []
          invariant path == path0 && forall c <- left :: ino < c <= |nodes|
          invariant tags + P.CollectChildren(nodes, ino, left, path0) == done
          decreases |left|
        {
          ghost var before := tags;
          P.CollectChildrenStep(nodes, ino, left, path0);
          var prevLen := |path|;
          path := path + "/" + nodes[left[0] - 1].name;
          ghost var child := if P.PUBLIC <= path then [] else P.Collect(nodes, left[0], path);
          if !(P.PUBLIC <= path) {
            path, tags := CollectPersist(left[0], path, tags);
          }
          path := path[..prevLen];
          P.Regrouped(before, child, P.CollectChildren(nodes, ino, left[1..], path0));
          left := left[1..];
        }
        P.CollectNothing(nodes, ino, path0);
    }

    method PersistTags() returns (tags: seq<P.Tag>)
      requires M.Wf(nodes)
      ensures tags == P.PersistTags(nodes)
    {
      var path;
      path, tags := CollectPersist(M.ROOT, "", []);
    }

    /** Walks the parts of a path from the root, creating directories. */
    method MakePath(parts: seq<string>) returns (parent: nat)
      modifies this
      ensures (nodes, parent) == D.MkDirs(old(nodes), M.ROOT, parts)
    {
      parent := M.ROOT;
      for i := 0 to |parts|
        invariant (nodes, parent) == D.MkDirs(old(nodes), M.ROOT, parts[..i])
      {
        D.MkDirsSnoc(old(nodes), M.ROOT, parts[..i], parts[i]);
        assert parts[..i + 1] == parts[..i] + [parts[i]];
        if parts[i] != "" { parent := GetOrCreateDir(parent, parts[i]); }
      }
      assert parts[..|parts|] == parts;
    }

    method ApplyPersisted(tags: seq<P.Tag>, serverUrl: string)
      modifies this
      ensures nodes == P.ApplyPersisted(old(nodes), tags, serverUrl)
      ensures old(M.Wf(nodes)) ==> F.Applied(old(nodes), nodes, serverUrl)
    {
      hide F.Applied, M.Wf;
      if M.Wf(nodes) { F.TagsApplied(nodes, tags, serverUrl); }
      for i := 0 to |tags|
        invariant P.ApplyFolders(nodes, tags[i..]) == P.ApplyFolders(old(nodes), tags)
      {
        var tag := tags[i];
        assert tags[i..][0] == tag && tags[i..][1..] == tags[i + 1..];
        if |tag| >= 2 && tag[0] == "folder" {
          var parts := Text.Split(Text.TrimStart(tag[1], '/'), '/');
          var dir := MakePath(parts);
        }
      }
      assert tags[|tags|..] == [];
      ghost var mid := nodes;
      for i := 0 to |tags|
        invariant P.ApplyFiles(nodes, tags[i..], serverUrl) == P.ApplyFiles(mid, tags, serverUrl)
      {
        assert tags[i..][0] == tags[i] && tags[i..][1..] == tags[i + 1..];
        ApplyFileTag(tags[i], serverUrl);
      }
      assert tags[|tags|..] == [];
    }

    method ApplyFileTag(tag: P.Tag, serverUrl: string)
      modifies this
      ensures nodes == P.ApplyFile(old(nodes), tag, serverUrl)
      ensures old(M.Wf(nodes)) ==> F.Applied(old(nodes), nodes, serverUrl)
    {
      hide F.Applied, D.MkDirs, M.AddFile, M.Lookup, M.Wf, Text.Split, Text.TrimStart, Text.TrimEnd;
      if M.Wf(nodes) { F.FileTagApplied(nodes, tag, serverUrl); }
      if |tag| < 4 || tag[0] != "x" { return; }
      var size := P.ParsedSize(tag[3]);
      var mime := if |tag| >= 5 && tag[4] != "" then Some(tag[4]) else None;
      var parts := Text.Split(Text.TrimStart(tag[2], '/'), '/');
      if parts[0] == "" { return; }
      var parent := MakePath(parts[..|parts| - 1]);
      var fileName := parts[|parts| - 1];
      if fileName != "" {
        var found := Lookup(parent, fileName);
        if found.None? {
          var url := Text.TrimEnd(serverUrl, '/') + "/" + tag[1];
          var ino := AddFileToDir(parent, fileName, M.Remote(url, tag[1], mime, None), size, 0);
        }
      }
    }

    // ---------- Views ----------

    /** Walks `key` from `base` and files the descriptor there. */
    method FileBlob(base: nat, view: V.View, ext: V.Extension, d: V.BlobDescriptor)
      requires V.Valid(d)
      modifies this
      ensures nodes == V.PutIn(old(nodes), base, view, ext, d)
    {
      V.KeyPartsNotEmpty(view, d);
      var dir := base;
      var key := V.Key(view, d);
      for i := 0 to |key|
        invariant (nodes, dir) == D.MkDirs(old(nodes), base, key[..i])
      {
        D.MkDirsSnoc(old(nodes), base, key[..i], key[i]);
        assert key[..i + 1] == key[..i] + [key[i]];
        dir := GetOrCreateDir(dir, key[i]);
      }
      assert key[..|key|] == key;
      var ino := AddFileToDir(dir, V.FileName(ext, d), V.ContentOf(d), d.size, d.uploaded);
    }

    method BuildFromDescriptors(parent: nat, ext: V.Extension, ds: seq<V.BlobDescriptor>)
      modifies this
      ensures nodes == V.Build(old(nodes), parent, ext, ds)
      ensures old(M.Wf(nodes) && M.IsDir(nodes, parent)) ==> VR.ViewsExact(old(nodes), parent, ext, ds, nodes)
    {
      hide M.AddDir, M.Wf, V.BuildStep, V.Build, VR.ViewsExact, M.IsDir, Sanitize.Component;
      var bySha := AddDirectory(parent, "by-sha256", None);
      var byType := AddDirectory(parent, "by-type", None);
      var byDate := AddDirectory(parent, "by-date", None);
      ghost var start := V.Building(nodes, {});
      var seen: set<string> := {};
      for i := 0 to |ds|
        invariant V.Building(nodes, seen) == V.BuildSteps(start, bySha, ext, ds[..i])
      {
        assert ds[..i + 1][..i] == ds[..i];
        seen := FileDescriptor(bySha, byType, byDate, seen, ext, ds[i]);
      }
      assert ds[..|ds|] == ds;
      VR.BuildIsExact(old(nodes), parent, ext, ds, V.Building(nodes, seen));
    }

    /** One round of the loop: nothing for an invalid hash, else one entry per view, once per hash in the first. */
    method FileDescriptor(bySha: nat, byType: nat, byDate: nat, seen0: set<string>, ext: V.Extension, d: V.BlobDescriptor)
      returns (seen: set<string>)
      requires byType == bySha + 1 && byDate == bySha + 2
      modifies this
      ensures V.Building(nodes, seen) == V.BuildStep(V.Building(old(nodes), seen0), bySha, ext, d)
    {
      seen := seen0;
      var sha := Sanitize.Sha256(d.sha256);
      if sha.None? { return; }
      if sha.value !in seen {
        seen := seen + {sha.value};
        FileBlob(bySha, V.BySha, ext, d);
      } else {
        assert seen + {sha.value} == seen;
      }
      FileBlob(byType, V.ByType, ext, d);
      FileBlob(byDate, V.ByDate, ext, d);
    }

    method BuildBySha256Only(parent: nat, ext: V.Extension, ds: seq<V.BlobDescriptor>)
      modifies this
      ensures nodes == V.BuildShaOnly(old(nodes), parent, ext, ds)
    {
      hide M.AddDir, M.Wf, V.PutIn;
      var bySha := AddDirectory(parent, "by-sha256", None);
      ghost var start := V.Building(nodes, {});
      var seen: set<string> := {};
      for i := 0 to |ds|
        invariant V.Building(nodes, seen) == V.ShaSteps(start, bySha, ext, ds[..i])
      {
        assert ds[..i + 1][..i] == ds[..i];
        var sha := Sanitize.Sha256(ds[i].sha256);
        if sha.Some? && sha.value !in seen {
          seen := seen + {sha.value};
          FileBlob(bySha, V.BySha, ext, ds[i]);
        }
      }
      assert ds[..|ds|] == ds;
    }
  }
}

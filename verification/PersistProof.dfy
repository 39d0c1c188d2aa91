/**
 * Printing, without text: the tags the recursion emits are the printed form of a list of paths with what stands at each, and
 * that list is what can be reached outside the generated names.
 */
module PersistProof {
  import opened Wrappers
  import opened TreeModel
  import opened TreePaths
  import opened TreeDirs
  import opened Persist
  import Sanitize

  // ---------- Printing is the listing, entry by entry ----------

  /** The tag a node contributes itself. */
  function OwnTags(nodes: Nodes, ino: nat, path: string): seq<Tag>
    requires Exists(nodes, ino)
  {
    match nodes[ino - 1]
    case Directory(_, _, _, _, _) => if ino != ROOT && !(PUBLIC <= path) then [FolderTag(path)] else []
    case File(_, _, _, size, content, _) =>
      if content.Remote? then [FileTag(content.sha256, path, size, content.mimeType)] else []
  }

  lemma CollectUnfolds(nodes: Nodes, ino: nat, path: string)
    requires Wf(nodes) && Exists(nodes, ino)
    ensures forall c <- Children(nodes, ino) :: ino < c <= |nodes|
    ensures Collect(nodes, ino, path) == OwnTags(nodes, ino, path) + CollectChildren(nodes, ino, Children(nodes, ino), path)
  {
    ChildrenExist(nodes, ino);
  }

  function OwnEntry(nodes: Nodes, ino: nat, path: Path): seq<Listed>
    requires Exists(nodes, ino)
  {
    if ino != ROOT then [(path, EntryOf(nodes[ino - 1]))] else []
  }

  lemma ListingUnfolds(nodes: Nodes, ino: nat, path: Path)
    requires Wf(nodes) && Exists(nodes, ino)
    ensures forall c <- Children(nodes, ino) :: ino < c <= |nodes|
    ensures Listing(nodes, ino, path) == OwnEntry(nodes, ino, path) + ListChildren(nodes, ino, Children(nodes, ino), path)
  {
    ChildrenExist(nodes, ino);
  }

  lemma OwnTagsPrint(nodes: Nodes, ino: nat, path: Path)
    requires Wf(nodes) && Exists(nodes, ino) && CleanPath(path) && !Public(path)
    ensures OwnTags(nodes, ino, PathText(path)) == PrintAll(OwnEntry(nodes, ino, path))
  {
    assert NodeOk(nodes, ino);
    PublicIsTextual(path);
    var own := OwnEntry(nodes, ino, path);
    if ino != ROOT {
      assert own[1..] == [];
      assert PrintAll(own) == Printed(own[0]) + [];
    }
  }

  lemma {:induction false} CollectIsListing(nodes: Nodes, ino: nat, path: Path)
    requires Wf(nodes) && CleanPath(path) && !Public(path) && (ino == ROOT <==> path == [])
    ensures Collect(nodes, ino, PathText(path)) == PrintAll(Listing(nodes, ino, path))
    decreases |nodes| - Min(ino, |nodes|), 1 + |Children(nodes, ino)|
  {
    if Exists(nodes, ino) {
      CollectUnfolds(nodes, ino, PathText(path));
      ListingUnfolds(nodes, ino, path);
      OwnTagsPrint(nodes, ino, path);
      hide Collect, Listing, ListChildren, CollectChildren, PrintAll, Wf, PathText, OwnTags, OwnEntry;
      PrintAllConcat(OwnEntry(nodes, ino, path), ListChildren(nodes, ino, Children(nodes, ino), path));
      CollectIsListChildren(nodes, ino, Children(nodes, ino), path);
    }
  }

  lemma {:induction false} CollectIsListChildren(nodes: Nodes, ino: nat, children: seq<nat>, path: Path)
    requires Wf(nodes) && CleanPath(path) && !Public(path) && (ino == ROOT <==> path == [])
    requires Exists(nodes, ino) && forall c <- children :: ino < c <= |nodes|
    ensures CollectChildren(nodes, ino, children, PathText(path)) == PrintAll(ListChildren(nodes, ino, children, path))
    decreases |nodes| - ino, |children|
  {
    if children != [] {
      var c := children[0];
      assert c in children && forall c' <- children[1..] :: c' in children;
      assert NodeOk(nodes, c);
      var below := path + [nodes[c - 1].name];
      PathTextSnoc(path, nodes[c - 1].name);
      PublicIsTextual(below);
      hide Wf, Public, Collect, Listing, PathText;
      if !Public(below) { CollectIsListing(nodes, c, below); }
      CollectIsListChildren(nodes, ino, children[1..], path);
      PrintAllConcat(if Public(below) then [] else Listing(nodes, c, below), ListChildren(nodes, ino, children[1..], path));
    }
  }

  lemma {:induction false} PrintedShapes(ls: seq<Listed>)
    ensures forall i :: 0 <= i < |PrintAll(ls)| ==> WireShape(PrintAll(ls)[i])
  {
    if ls != [] { PrintedShapes(ls[1..]); }
  }

  // ---------- The listing holds exactly the reachable entries ----------

  /** `to` is reached from `ino`, which has path `path`, and ends up at `full` with entry `e`. */
  ghost predicate ListedAt(nodes: Nodes, ino: nat, path: Path, l: Listed, to: nat) {
    && path <= l.0 && !Public(l.0) && to != ROOT
    && Exists(nodes, to) && Reaches(nodes, ino, l.0[|path|..], to) && EntryOf(nodes[to - 1]) == l.1
  }

  lemma ReachesStep(nodes: Nodes, ino: nat, path: Path, l: Listed, to: nat, c: nat)
    requires Wf(nodes) && c in Children(nodes, ino) && Exists(nodes, c)
    requires ListedAt(nodes, c, path + [nodes[c - 1].name], l, to)
    ensures ListedAt(nodes, ino, path, l, to)
  {
    var below := path + [nodes[c - 1].name];
    var rest := l.0[|path|..];
    assert below <= l.0;
    assert rest[0] == nodes[c - 1].name && rest[1..] == l.0[|below|..];
    assert Named(nodes, c, rest[0]);
  }

  lemma {:induction false} ListingSound(nodes: Nodes, ino: nat, path: Path, l: Listed) returns (to: nat)
    requires Wf(nodes) && !Public(path) && l in Listing(nodes, ino, path)
    ensures ListedAt(nodes, ino, path, l, to)
    decreases |nodes| - Min(ino, |nodes|), 1 + |Children(nodes, ino)|
  {
    ChildrenExist(nodes, ino);
    if ino != ROOT && l == (path, EntryOf(nodes[ino - 1])) {
      assert l.0[|path|..] == [];
      to := ino;
    } else {
      to := ListChildrenSound(nodes, ino, Children(nodes, ino), path, l);
    }
  }

  lemma {:induction false} ListChildrenSound(nodes: Nodes, ino: nat, children: seq<nat>, path: Path, l: Listed) returns (to: nat)
    requires Wf(nodes) && !Public(path) && Exists(nodes, ino)
    requires forall c <- children :: ino < c <= |nodes| && c in Children(nodes, ino)
    requires l in ListChildren(nodes, ino, children, path)
    ensures ListedAt(nodes, ino, path, l, to)
    decreases |nodes| - ino, |children|
  {
    hide ListedAt, EntryOf, Public, Listing, ListChildren, Wf, Reaches;
    InListChildrenSplit(nodes, ino, children, path, l);
    var c := children[0];
    var below := path + [nodes[c - 1].name];
    if !Public(below) && l in Listing(nodes, c, below) {
      to := ListingSound(nodes, c, below, l);
      ReachesStep(nodes, ino, path, l, to, c);
    } else {
      to := ListChildrenSound(nodes, ino, children[1..], path, l);
    }
  }

  lemma InListChildrenSplit(nodes: Nodes, ino: nat, children: seq<nat>, path: Path, l: Listed)
    requires Wf(nodes) && Exists(nodes, ino) && forall c <- children :: ino < c <= |nodes|
    requires l in ListChildren(nodes, ino, children, path)
    ensures
      && children != [] && children[0] in children && (forall c <- children[1..] :: c in children)
      && var below := path + [nodes[children[0] - 1].name];
         (!Public(below) && l in Listing(nodes, children[0], below)) || l in ListChildren(nodes, ino, children[1..], path)
  {
    hide Public, Listing, Wf;
    if children != [] { assert children[0] in children && forall c <- children[1..] :: c in children; }
  }

  lemma {:induction false} ListingComplete(nodes: Nodes, ino: nat, path: Path, l: Listed, to: nat)
    requires Wf(nodes) && ListedAt(nodes, ino, path, l, to)
    ensures l in Listing(nodes, ino, path)
    decreases |l.0| - |path|
  {
    ChildrenExist(nodes, ino);
    var rest := l.0[|path|..];
    if rest == [] {
      assert l.0 == path;
    } else {
      var c :| c in Children(nodes, ino) && Named(nodes, c, rest[0]) && Reaches(nodes, c, rest[1..], to);
      var below := path + [nodes[c - 1].name];
      assert below <= l.0 && l.0[|below|..] == rest[1..];
      assert !Public(below) by { assert below[0] == l.0[0]; }
      ListingComplete(nodes, c, below, l, to);
      InListChildren(nodes, ino, Children(nodes, ino), path, l, c);
    }
  }

  lemma {:induction false} InListChildren(nodes: Nodes, ino: nat, children: seq<nat>, path: Path, l: Listed, c: nat)
    requires Wf(nodes) && Exists(nodes, ino) && forall c' <- children :: ino < c' <= |nodes|
    requires c in children && !Public(path + [nodes[c - 1].name]) && l in Listing(nodes, c, path + [nodes[c - 1].name])
    ensures l in ListChildren(nodes, ino, children, path)
    decreases |children|
  {
    assert children[0] in children && forall c' <- children[1..] :: c' in children;
    if c != children[0] { InListChildren(nodes, ino, children[1..], path, l, c); }
  }

  function WholeListing(nodes: Nodes): seq<Listed>
    requires Wf(nodes)
  {
    Listing(nodes, ROOT, [])
  }

  /** The persisted listing is exactly the reachable entries outside the generated subtree. */
  lemma ListingIsReachable(nodes: Nodes, l: Listed)
    requires Wf(nodes)
    ensures l in WholeListing(nodes) <==> l.0 != [] && !Public(l.0) && HasEntry(nodes, l.0, l.1)
  {
    if l in WholeListing(nodes) {
      var to := ListingSound(nodes, ROOT, [], l);
      assert l.0[0..] == l.0;
    }
    if l.0 != [] && !Public(l.0) && HasEntry(nodes, l.0, l.1) {
      var to :| Reaches(nodes, ROOT, l.0, to) && Exists(nodes, to) && EntryOf(nodes[to - 1]) == l.1;
      ReachedNode(nodes, ROOT, l.0, to);
      assert l.0[0..] == l.0;
      ListingComplete(nodes, ROOT, [], l, to);
    }
  }

  /** A reached node is below the start, its names are clean, and every shorter path reaches a directory. */
  lemma {:induction false} ReachedNode(nodes: Nodes, from: nat, path: Path, to: nat)
    requires Wf(nodes) && Reaches(nodes, from, path, to)
    ensures Exists(nodes, to) && from <= to && (path == [] <==> from == to) && CleanPath(path)
    decreases |path|
  {
    if path != [] {
      var c :| c in Children(nodes, from) && Named(nodes, c, path[0]) && Reaches(nodes, c, path[1..], to);
      ChildrenExist(nodes, from);
      assert NodeOk(nodes, c);
      ReachedNode(nodes, c, path[1..], to);
      forall i | 0 <= i < |path| ensures Sanitize.Clean(path[i]) {
        if i > 0 { assert path[i] == path[1..][i - 1]; }
      }
    }
  }

  lemma {:induction false} ReachedPrefix(nodes: Nodes, from: nat, path: Path, to: nat, p: Path) returns (mid: nat)
    requires Wf(nodes) && Reaches(nodes, from, path, to) && p <= path && p != path
    ensures Reaches(nodes, from, p, mid) && IsDir(nodes, mid)
    decreases |path|
  {
    var c :| c in Children(nodes, from) && Named(nodes, c, path[0]) && Reaches(nodes, c, path[1..], to);
    if p == [] {
      mid := from;
    } else {
      mid := ReachedPrefix(nodes, c, path[1..], to, p[1..]);
      assert Named(nodes, c, p[0]);
    }
  }
}

/** The inode allocator: a node list with a name index beside it, and paths through it. */
module Inodes {
  import opened Wrappers
  import Text

  datatype Kind = Directory | RegularFile

  datatype Info = Info(ino: nat, parent: nat, name: string, kind: Kind)

  type Key = (nat, string)

  const ROOT: nat := 1

  // ---------- What the index and the paths mean ----------

  /** The last node allocated under a key, by scanning; the root has no key. */
  function LastWith(nodes: seq<Info>, key: Key): Option<nat> {
    if |nodes| <= 1 then None
    else
      var last := nodes[|nodes| - 1];
      if (last.parent, last.name) == key then Some(last.ino) else LastWith(nodes[..|nodes| - 1], key)
  }

  function Lookup(byName: map<Key, nat>, key: Key): Option<nat> {
    if key in byName then Some(byName[key]) else None
  }

  /** Inode N sits at index N - 1 and was allocated after its parent. */
  ghost predicate Ordered(nodes: seq<Info>) {
    && |nodes| >= 1 && nodes[0] == Info(ROOT, ROOT, "/", Directory)
    && forall i :: 0 < i < |nodes| ==> nodes[i].ino == i + 1 && 1 <= nodes[i].parent <= i
  }

  predicate InRange(nodes: seq<Info>, ino: nat) {
    1 <= ino <= |nodes|
  }

  /** The names from the root down to a node. */
  function Names(nodes: seq<Info>, ino: nat): seq<string>
    requires Ordered(nodes) && InRange(nodes, ino)
  {
    if ino == ROOT then []
    else Names(nodes, nodes[ino - 1].parent) + [nodes[ino - 1].name]
  }

  function PathOf(nodes: seq<Info>, ino: nat): Option<string>
    requires Ordered(nodes)
  {
    if ino == ROOT then Some("/")
    else if !InRange(nodes, ino) then None
    else Some("/" + Text.Join(Names(nodes, ino), '/'))
  }

  // ---------- The allocator ----------

  class InodeAllocator {
    var nodes: seq<Info>
    var byName: map<Key, nat>

    /** The index agrees with a linear scan for the last node under each key. */
    ghost predicate Valid()
      reads this
    {
      Ordered(nodes) && forall key: Key :: Lookup(byName, key) == LastWith(nodes, key)
    }

    constructor ()
      ensures Valid() && nodes == [Info(ROOT, ROOT, "/", Directory)]
    {
      nodes, byName := [Info(ROOT, ROOT, "/", Directory)], map[];
    }

    /** Panics unless the parent exists. */
    method Alloc(parent: nat, name: string, kind: Kind) returns (newIno: nat)
      requires Valid() && InRange(nodes, parent)
      modifies this
      ensures Valid()
      ensures newIno == |old(nodes)| + 1 && nodes == old(nodes) + [Info(newIno, parent, name, kind)]
    {
      newIno := |nodes| + 1;
      ghost var before := nodes;
      nodes := nodes + [Info(newIno, parent, name, kind)];
      byName := byName[(parent, name) := newIno];
      assert nodes[..|nodes| - 1] == before;
    }

    method Find(parent: nat, name: string) returns (found: Option<nat>)
      requires Valid()
      ensures found == LastWith(nodes, (parent, name))
    {
      found := if (parent, name) in byName then Some(byName[(parent, name)]) else None;
      assert found == Lookup(byName, (parent, name));
    }

    method Get(ino: nat) returns (info: Option<Info>)
      ensures info == if InRange(nodes, ino) then Some(nodes[ino - 1]) else None
    {
      info := if ino == 0 || ino - 1 >= |nodes| then None else Some(nodes[ino - 1]);
    }

    /** `path`: collects names upwards, reverses them, joins them. */
    method Path(ino: nat) returns (path: Option<string>)
      requires Valid()
      ensures path == PathOf(nodes, ino)
      ensures ino == 1 ==> path == Some("/")
      ensures path.Some? <==> 1 <= ino <= |nodes|
    {
      if ino == ROOT { return Some("/"); }
      if ino == 0 || ino - 1 >= |nodes| { return None; }
      var parts: seq<string> := [];
      var current := ino;
      while current != ROOT
        invariant InRange(nodes, current)
        invariant Names(nodes, ino) == Names(nodes, current) + Reversed(parts)
        decreases current
      {
        var node := nodes[current - 1];
        ReversedSnoc(parts, node.name);
        parts := parts + [node.name];
        current := node.parent;
      }
      assert Names(nodes, ROOT) == [] && [] + Reversed(parts) == Reversed(parts);
      return Some("/" + Text.Join(Reversed(parts), '/'));
    }
  }

  function Reversed(s: seq<string>): seq<string> {
    if s == [] then [] else [s[|s| - 1]] + Reversed(s[..|s| - 1])
  }

  lemma ReversedSnoc(s: seq<string>, x: string)
    ensures Reversed(s + [x]) == [x] + Reversed(s)
  {
    assert (s + [x])[..|s|] == s;
  }

  // ---------- Resolving a path again ----------

  /** Following names from an inode with `lookup`. */
  function Resolve(nodes: seq<Info>, from: nat, names: seq<string>): Option<nat> {
    if names == [] then Some(from)
    else
      match Resolve(nodes, from, names[..|names| - 1])
      case None => None
      case Some(dir) => LastWith(nodes, (dir, names[|names| - 1]))
  }

  /** The node and all its ancestors are the latest under their keys. */
  predicate MapsBack(nodes: seq<Info>, ino: nat)
    requires Ordered(nodes) && InRange(nodes, ino)
  {
    ino == ROOT
    || (var node := nodes[ino - 1];
        LastWith(nodes, (node.parent, node.name)) == Some(ino) && MapsBack(nodes, node.parent))
  }

  lemma {:induction false} LastWithIs(nodes: seq<Info>, key: Key)
    requires Ordered(nodes)
    ensures
      match LastWith(nodes, key)
      case None => forall i :: 0 < i < |nodes| ==> (nodes[i].parent, nodes[i].name) != key
      case Some(ino) =>
        && 2 <= ino <= |nodes| && (nodes[ino - 1].parent, nodes[ino - 1].name) == key
        && forall i :: ino <= i < |nodes| ==> (nodes[i].parent, nodes[i].name) != key
    decreases |nodes|
  {
    if |nodes| > 1 {
      var last := nodes[|nodes| - 1];
      if (last.parent, last.name) != key {
        LastWithIs(nodes[..|nodes| - 1], key);
      }
    }
  }

  /** Resolving a node's names leads back to it exactly when it and each ancestor is the latest under its key. */
  lemma {:induction false} ResolvesIff(nodes: seq<Info>, ino: nat)
    requires Ordered(nodes) && InRange(nodes, ino)
    ensures Resolve(nodes, ROOT, Names(nodes, ino)) == Some(ino) <==> MapsBack(nodes, ino)
    decreases ino
  {
    if ino != ROOT {
      var node := nodes[ino - 1];
      ResolvesIff(nodes, node.parent);
      var up := Names(nodes, node.parent);
      assert Names(nodes, ino)[..|up|] == up;
      match Resolve(nodes, ROOT, up)
      case None =>
      case Some(dir) => LastWithIs(nodes, (dir, node.name));
    }
  }

  ghost predicate KeysOnce(nodes: seq<Info>) {
    forall i, j :: 0 < i < j < |nodes| ==> (nodes[i].parent, nodes[i].name) != (nodes[j].parent, nodes[j].name)
  }

  lemma {:induction false} OnceMapsBack(nodes: seq<Info>, ino: nat)
    requires Ordered(nodes) && InRange(nodes, ino) && KeysOnce(nodes)
    ensures MapsBack(nodes, ino)
    decreases ino
  {
    if ino != ROOT {
      var node := nodes[ino - 1];
      LastWithIs(nodes, (node.parent, node.name));
      OnceMapsBack(nodes, node.parent);
    }
  }

  ghost predicate SlashFree(nodes: seq<Info>) {
    forall i :: 0 < i < |nodes| ==> '/' !in nodes[i].name
  }

  lemma {:induction false} NamesAreSlashFree(nodes: seq<Info>, ino: nat)
    requires Ordered(nodes) && InRange(nodes, ino) && SlashFree(nodes)
    ensures Text.Free(Names(nodes, ino), '/') && (ino != ROOT ==> |Names(nodes, ino)| >= 1)
    decreases ino
  {
    if ino != ROOT { NamesAreSlashFree(nodes, nodes[ino - 1].parent); }
  }

  /**
   * Round trip through text: splitting a node's path at the slashes and looking the pieces up from the root returns the
   * node, exactly when it and its ancestors are the latest under their keys; so always when every key is allocated once.
   */
  lemma PathResolvesIff(nodes: seq<Info>, ino: nat)
    requires Ordered(nodes) && 2 <= ino <= |nodes| && SlashFree(nodes)
    ensures PathOf(nodes, ino).Some? && PathOf(nodes, ino).value != "" && PathOf(nodes, ino).value[0] == '/'
    ensures Resolve(nodes, ROOT, Text.Split(PathOf(nodes, ino).value[1..], '/')) == Some(ino) <==> MapsBack(nodes, ino)
    ensures KeysOnce(nodes) ==> MapsBack(nodes, ino)
  {
    NamesAreSlashFree(nodes, ino);
    var names := Names(nodes, ino);
    assert PathOf(nodes, ino).value[1..] == Text.Join(names, '/');
    Text.SplitJoin(names, '/');
    ResolvesIff(nodes, ino);
    if KeysOnce(nodes) { OnceMapsBack(nodes, ino); }
  }

  /** Distinct nodes of a slash-free allocator with keys allocated once have distinct paths. */
  lemma PathsAreDistinct(nodes: seq<Info>, a: nat, b: nat)
    requires Ordered(nodes) && SlashFree(nodes) && KeysOnce(nodes)
    requires 2 <= a <= |nodes| && 2 <= b <= |nodes|
    ensures PathOf(nodes, a) == PathOf(nodes, b) <==> a == b
  {
    PathResolvesIff(nodes, a);
    PathResolvesIff(nodes, b);
  }
}

/**
 * Whole view constructions: over any descriptor list, under any directory of any well-formed tree. The views are built one
 * descriptor after another, and each step keeps what the three hold so far.
 */
module ViewsResult {
  import opened Wrappers
  import opened TreeModel
  import opened TreePaths
  import opened TreeDirs
  import opened Views
  import opened ViewsProof
  import Sanitize
  import Calendar
  import Text

  /** The three views with what they hold; their roots are siblings with consecutive numbers. */
  ghost predicate Three(nodes: Nodes, bySha: nat, ext: Extension,
                        a: seq<BlobDescriptor>, t: seq<BlobDescriptor>, c: seq<BlobDescriptor>)
    requires AllValid(a) && AllValid(t) && AllValid(c)
  {
    && Frame(nodes, bySha)
    && Holds(nodes, bySha, BySha, ext, a)
    && Holds(nodes, bySha + 1, ByType, ext, t)
    && Holds(nodes, bySha + 2, ByDate, ext, c)
  }

  ghost predicate Frame(nodes: Nodes, bySha: nat) {
    && Wf(nodes) && DirsDistinct(nodes, bySha) && RootNames(nodes, bySha)
    && Siblings(nodes, bySha, bySha + 1) && Siblings(nodes, bySha, bySha + 2) && Siblings(nodes, bySha + 1, bySha + 2)
  }

  predicate RootNames(nodes: Nodes, bySha: nat) {
    Named(nodes, bySha, "by-sha256") && Named(nodes, bySha + 1, "by-type") && Named(nodes, bySha + 2, "by-date")
  }

  lemma RootNamesKept(nodes: Nodes, after: Nodes, bySha: nat)
    requires Extends(nodes, after) && RootNames(nodes, bySha)
    ensures RootNames(after, bySha)
  {
    assert SameIdentity(nodes[bySha - 1], after[bySha - 1]);
    assert SameIdentity(nodes[bySha], after[bySha]) && SameIdentity(nodes[bySha + 1], after[bySha + 1]);
  }

  lemma SiblingsKept(nodes: Nodes, after: Nodes, a: nat, b: nat)
    requires Extends(nodes, after) && Siblings(nodes, a, b)
    ensures Siblings(after, a, b) && Siblings(after, b, a)
  {
    assert SameIdentity(nodes[a - 1], after[a - 1]) && SameIdentity(nodes[b - 1], after[b - 1]);
  }

  lemma FramePut(nodes: Nodes, base: nat, view: View, ext: Extension, ds: seq<BlobDescriptor>, d: BlobDescriptor, bySha: nat)
    requires AllValid(ds) && Valid(d) && Frame(nodes, bySha) && Holds(nodes, base, view, ext, ds)
    ensures Frame(PutIn(nodes, base, view, ext, d), bySha)
    ensures AllValid(ds + [d]) && Holds(PutIn(nodes, base, view, ext, d), base, view, ext, ds + [d])
  {
    hide PutIn, Holds, Wf, DirsDistinct, Siblings, Extends, RootNames;
    var after := PutIn(nodes, base, view, ext, d);
    PutInHolds(nodes, base, view, ext, ds, d);
    PutInKeepsDistinct(nodes, base, view, ext, ds, d, bySha);
    SiblingsKept(nodes, after, bySha, bySha + 1);
    SiblingsKept(nodes, after, bySha, bySha + 2);
    SiblingsKept(nodes, after, bySha + 1, bySha + 2);
    RootNamesKept(nodes, after, bySha);
  }

  lemma FrameSiblings(nodes: Nodes, bySha: nat)
    requires Frame(nodes, bySha)
    ensures Wf(nodes)
    ensures Siblings(nodes, bySha, bySha + 1) && Siblings(nodes, bySha, bySha + 2) && Siblings(nodes, bySha + 1, bySha + 2)
    ensures Siblings(nodes, bySha + 1, bySha) && Siblings(nodes, bySha + 2, bySha) && Siblings(nodes, bySha + 2, bySha + 1)
  {
  }

  lemma PutSha(nodes: Nodes, bySha: nat, ext: Extension,
                a: seq<BlobDescriptor>, t: seq<BlobDescriptor>, c: seq<BlobDescriptor>, d: BlobDescriptor)
    requires AllValid(a) && AllValid(t) && AllValid(c) && Valid(d) && Three(nodes, bySha, ext, a, t, c)
    ensures AllValid(a + [d])
    ensures Three(PutIn(nodes, bySha, BySha, ext, d), bySha, ext, a + [d], t, c)
  {
    hide PutIn, Holds, Wf, Frame, Siblings, AllValid, Valid, Key;
    FrameSiblings(nodes, bySha);
    FramePut(nodes, bySha, BySha, ext, a, d, bySha);
    PutInElsewhere(nodes, bySha, BySha, ext, a, d, bySha + 1, ByType, t);
    PutInElsewhere(nodes, bySha, BySha, ext, a, d, bySha + 2, ByDate, c);
  }

  lemma PutType(nodes: Nodes, bySha: nat, ext: Extension,
                a: seq<BlobDescriptor>, t: seq<BlobDescriptor>, c: seq<BlobDescriptor>, d: BlobDescriptor)
    requires AllValid(a) && AllValid(t) && AllValid(c) && Valid(d) && Three(nodes, bySha, ext, a, t, c)
    ensures AllValid(t + [d])
    ensures Three(PutIn(nodes, bySha + 1, ByType, ext, d), bySha, ext, a, t + [d], c)
  {
    hide PutIn, Holds, Wf, Frame, Siblings, AllValid, Valid, Key;
    FrameSiblings(nodes, bySha);
    FramePut(nodes, bySha + 1, ByType, ext, t, d, bySha);
    PutInElsewhere(nodes, bySha + 1, ByType, ext, t, d, bySha, BySha, a);
    PutInElsewhere(nodes, bySha + 1, ByType, ext, t, d, bySha + 2, ByDate, c);
  }

  lemma PutDate(nodes: Nodes, bySha: nat, ext: Extension,
                a: seq<BlobDescriptor>, t: seq<BlobDescriptor>, c: seq<BlobDescriptor>, d: BlobDescriptor)
    requires AllValid(a) && AllValid(t) && AllValid(c) && Valid(d) && Three(nodes, bySha, ext, a, t, c)
    ensures AllValid(c + [d])
    ensures Three(PutIn(nodes, bySha + 2, ByDate, ext, d), bySha, ext, a, t, c + [d])
  {
    hide PutIn, Holds, Wf, Frame, Siblings, AllValid, Valid, Key;
    FrameSiblings(nodes, bySha);
    FramePut(nodes, bySha + 2, ByDate, ext, c, d, bySha);
    PutInElsewhere(nodes, bySha + 2, ByDate, ext, c, d, bySha, BySha, a);
    PutInElsewhere(nodes, bySha + 2, ByDate, ext, c, d, bySha + 1, ByType, t);
  }

  // ---------- Starting empty ----------

  /** A directory without children holds an empty view. */
  lemma EmptyHolds(nodes: Nodes, base: nat, view: View, ext: Extension)
    requires Wf(nodes) && IsDir(nodes, base) && Children(nodes, base) == []
    ensures Holds(nodes, base, view, ext, [])
  {
    forall p ensures Bucket(nodes, base, view, ext, [], p) {
      if p != [] { LookupFinds(nodes, base, p[0]); }
    }
  }

  lemma AddDirFacts(nodes: Nodes, parent: nat, name: string)
    requires Wf(nodes) && IsDir(nodes, parent)
    ensures
      var after := AddDir(nodes, parent, name, None);
      && Wf(after) && |after| == |nodes| + 1 && Extends(nodes, after)
      && IsDir(after, |after|) && Children(after, |after|) == [] && after[|nodes|].parent == parent
      && after[|nodes|].name == Sanitize.Component(name)
      && IsDir(after, parent)
      && forall d :: Exists(nodes, d) && d != parent ==> Children(after, d) == Children(nodes, d)
  {
    Sanitize.ComponentIsClean(name);
    var node := NewDir(nodes, parent, name, None);
    var after := Attach(nodes, parent, node);
    AttachKeepsWf(nodes, parent, node);
    AttachExtends(nodes, parent, node);
    assert SameIdentity(nodes[parent - 1], after[parent - 1]);
    AttachedChildren(nodes, parent, node, NextInode(nodes));
    forall d ensures Exists(nodes, d) && d != parent ==> Children(after, d) == Children(nodes, d) {
      if d >= 0 { AttachedChildren(nodes, parent, node, d); }
    }
  }

  ghost predicate BareRoot(nodes: Nodes, ino: nat, parent: nat, name: string) {
    && IsDir(nodes, ino) && Children(nodes, ino) == [] && nodes[ino - 1].name == name
    && nodes[ino - 1].parent == parent && parent < ino
  }

  /** Adding another directory keeps an earlier bare one bare. */
  lemma BareKept(nodes: Nodes, parent: nat, name: string, ino: nat, own: string)
    requires Wf(nodes) && IsDir(nodes, parent) && BareRoot(nodes, ino, parent, own)
    ensures BareRoot(AddDir(nodes, parent, name, None), ino, parent, own)
  {
    AddDirFacts(nodes, parent, name);
    assert SameIdentity(nodes[ino - 1], AddDir(nodes, parent, name, None)[ino - 1]);
  }

  lemma RootsAreBare(nodes: Nodes, parent: nat)
    requires Wf(nodes) && IsDir(nodes, parent)
    ensures
      var roots, bySha := ViewRoots(nodes, parent), NextInode(nodes);
      && Wf(roots) && |roots| == bySha + 2
      && BareRoot(roots, bySha, parent, "by-sha256")
      && BareRoot(roots, bySha + 1, parent, "by-type")
      && BareRoot(roots, bySha + 2, parent, "by-date")
  {
    var n1 := AddDir(nodes, parent, "by-sha256", None);
    var n2 := AddDir(n1, parent, "by-type", None);
    RootNamesAreClean();
    hide AddDir, Wf, Extends, Children, Sanitize.Component;
    AddDirFacts(nodes, parent, "by-sha256");
    AddDirFacts(n1, parent, "by-type");
    AddDirFacts(n2, parent, "by-date");
    BareKept(n1, parent, "by-type", |n1|, "by-sha256");
    BareKept(n2, parent, "by-date", |n1|, "by-sha256");
    BareKept(n2, parent, "by-date", |n2|, "by-type");
  }

  lemma RootNamesAreClean()
    ensures Sanitize.Component("by-sha256") == "by-sha256"
    ensures Sanitize.Component("by-type") == "by-type" && Sanitize.Component("by-date") == "by-date"
  {
    hide Sanitize.Component, Sanitize.Clean, Sanitize.ByteLen, Sanitize.Truncated, Sanitize.ReplaceDots, Sanitize.SafeChars;
    Sanitize.PlainNameIsClean("by-sha256");
    Sanitize.PlainNameIsClean("by-type");
    Sanitize.PlainNameIsClean("by-date");
  }

  lemma BareSiblings(nodes: Nodes, a: nat, nameA: string, b: nat, nameB: string, parent: nat)
    requires BareRoot(nodes, a, parent, nameA) && BareRoot(nodes, b, parent, nameB) && a != b
    ensures Siblings(nodes, a, b)
  {
  }

  lemma RootsHoldNothing(nodes: Nodes, parent: nat, ext: Extension)
    requires Wf(nodes) && IsDir(nodes, parent)
    ensures Three(ViewRoots(nodes, parent), NextInode(nodes), ext, [], [], [])
  {
    hide ViewRoots, AddDir, Wf, Holds, DirsDistinct, Children, Siblings, BareRoot, IsDir, Named, Sanitize.Component;
    var roots, bySha := ViewRoots(nodes, parent), NextInode(nodes);
    RootsAreBare(nodes, parent);
    BareHolds(roots, bySha, BySha, ext, "by-sha256", parent);
    BareHolds(roots, bySha + 1, ByType, ext, "by-type", parent);
    BareHolds(roots, bySha + 2, ByDate, ext, "by-date", parent);
    BareSiblings(roots, bySha, "by-sha256", bySha + 1, "by-type", parent);
    BareSiblings(roots, bySha, "by-sha256", bySha + 2, "by-date", parent);
    BareSiblings(roots, bySha + 1, "by-type", bySha + 2, "by-date", parent);
    LastThreeEmpty(roots, bySha);
  }

  lemma BareHolds(nodes: Nodes, ino: nat, view: View, ext: Extension, name: string, parent: nat)
    requires Wf(nodes) && BareRoot(nodes, ino, parent, name)
    ensures Holds(nodes, ino, view, ext, []) && Named(nodes, ino, name) && Children(nodes, ino) == []
  {
    EmptyHolds(nodes, ino, view, ext);
  }

  lemma LastThreeEmpty(nodes: Nodes, bySha: nat)
    requires |nodes| == bySha + 2
    requires Children(nodes, bySha) == [] && Children(nodes, bySha + 1) == [] && Children(nodes, bySha + 2) == []
    ensures DirsDistinct(nodes, bySha)
  {
    forall d | d >= bySha ensures Children(nodes, d) == [] {
      assert d == bySha || d == bySha + 1 || d == bySha + 2 || !Exists(nodes, d);
    }
  }

  // ---------- One descriptor after another ----------

  lemma Snocs(ds: seq<BlobDescriptor>, d: BlobDescriptor)
    ensures Valids(ds + [d]) == Valids(ds) + (if Valid(d) then [d] else [])
    ensures Firsts(ds + [d]) == Firsts(ds) + (if Valid(d) && ShaOf(d) !in Shas(ds) then [d] else [])
    ensures Shas(ds + [d]) == Shas(ds) + (if Valid(d) then {ShaOf(d)} else {})
  {
    var longer := ds + [d];
    assert longer[..|ds|] == ds;
    forall s ensures s in Shas(longer) <==> s in Shas(ds) + (if Valid(d) then {ShaOf(d)} else {}) {
      if s in Shas(ds) {
        var i :| 0 <= i < |ds| && Valid(ds[i]) && ShaOf(ds[i]) == s;
        assert longer[i] == ds[i];
      }
      if Valid(d) && s == ShaOf(d) { assert longer[|ds|] == d; }
      if s in Shas(longer) {
        var i :| 0 <= i < |longer| && Valid(longer[i]) && ShaOf(longer[i]) == s;
        if i < |ds| { assert longer[i] == ds[i]; }
      }
    }
  }

  ghost predicate Built(b: Building, bySha: nat, ext: Extension, ds: seq<BlobDescriptor>) {
    FirstsValid(ds);
    b.seen == Shas(ds) && Three(b.nodes, bySha, ext, Firsts(ds), Valids(ds), Valids(ds))
  }

  /** The nodes numbered below `ino` are exactly as they were. */
  ghost predicate SameBefore(nodes: Nodes, after: Nodes, ino: nat) {
    1 <= ino && ino - 1 <= |nodes| && ino - 1 <= |after| && after[..ino - 1] == nodes[..ino - 1]
  }

  lemma SameBeforeRefl(nodes: Nodes, bySha: nat)
    requires Frame(nodes, bySha)
    ensures SameBefore(nodes, nodes, bySha)
  {
    hide Wf, DirsDistinct, RootNames;
  }

  lemma SameBeforeTrans(a: Nodes, b: Nodes, c: Nodes, ino: nat)
    requires SameBefore(a, b, ino) && SameBefore(b, c, ino)
    ensures SameBefore(a, c, ino)
  {
  }

  lemma PutKeepsBefore(nodes: Nodes, bySha: nat, ext: Extension,
                       a: seq<BlobDescriptor>, t: seq<BlobDescriptor>, c: seq<BlobDescriptor>, base: nat, view: View, d: BlobDescriptor)
    requires AllValid(a) && AllValid(t) && AllValid(c) && Valid(d) && Three(nodes, bySha, ext, a, t, c)
    requires bySha <= base <= bySha + 2
    ensures SameBefore(nodes, PutIn(nodes, base, view, ext, d), bySha)
  {
    hide PutIn, Holds, Wf, DirsDistinct, RootNames, AllValid, Valid, Key;
    PutInBelow(nodes, base, view, ext, d, bySha - 1);
  }

  lemma BuildStepKeeps(b: Building, bySha: nat, ext: Extension, ds: seq<BlobDescriptor>, d: BlobDescriptor)
    requires Built(b, bySha, ext, ds)
    ensures Built(BuildStep(b, bySha, ext, d), bySha, ext, ds + [d])
    ensures SameBefore(b.nodes, BuildStep(b, bySha, ext, d).nodes, bySha)
  {
    Snocs(ds, d);
    FirstsValid(ds);
    FirstsValid(ds + [d]);
    var a, t := Firsts(ds), Valids(ds);
    SameBeforeRefl(b.nodes, bySha);
    hide Three, PutIn, Firsts, Valids, Shas, SameBefore;
    if Valid(d) {
      var first := ShaOf(d) !in b.seen;
      PutSha(b.nodes, bySha, ext, a, t, t, d);
      PutKeepsBefore(b.nodes, bySha, ext, a, t, t, bySha, BySha, d);
      var n1 := if first then PutIn(b.nodes, bySha, BySha, ext, d) else b.nodes;
      var a' := if first then a + [d] else a;
      PutType(n1, bySha, ext, a', t, t, d);
      PutKeepsBefore(n1, bySha, ext, a', t, t, bySha + 1, ByType, d);
      var n2 := PutIn(n1, bySha + 1, ByType, ext, d);
      PutDate(n2, bySha, ext, a', t + [d], t, d);
      PutKeepsBefore(n2, bySha, ext, a', t + [d], t, bySha + 2, ByDate, d);
      SameBeforeTrans(b.nodes, n1, n2, bySha);
      SameBeforeTrans(b.nodes, n2, PutIn(n2, bySha + 2, ByDate, ext, d), bySha);
      assert Firsts(ds + [d]) == a';
    } else {
      assert Firsts(ds + [d]) == a && Valids(ds + [d]) == t && Shas(ds + [d]) == Shas(ds);
    }
  }

  lemma {:induction false} BuildStepsKeep(b: Building, bySha: nat, ext: Extension, ds: seq<BlobDescriptor>)
    requires Built(b, bySha, ext, [])
    ensures Built(BuildSteps(b, bySha, ext, ds), bySha, ext, ds)
    ensures SameBefore(b.nodes, BuildSteps(b, bySha, ext, ds).nodes, bySha)
  {
    if ds == [] {
      assert Siblings(b.nodes, bySha, bySha + 1);
    } else {
      hide Built, SameBefore, BuildStep;
      var init, last := ds[..|ds| - 1], ds[|ds| - 1];
      BuildStepsKeep(b, bySha, ext, init);
      BuildStepKeeps(BuildSteps(b, bySha, ext, init), bySha, ext, init, last);
      SameBeforeTrans(b.nodes, BuildSteps(b, bySha, ext, init).nodes, BuildSteps(b, bySha, ext, ds).nodes, bySha);
      assert init + [last] == ds;
    }
  }

  lemma OneRoot(nodes: Nodes, parent: nat, name: string)
    requires IsDir(nodes, parent)
    ensures
      var after := AddDir(nodes, parent, name, None);
      && |after| == |nodes| + 1 && IsDir(after, parent)
      && (forall i :: 0 <= i < |nodes| && i != parent - 1 ==> after[i] == nodes[i])
      && after[parent - 1] == nodes[parent - 1].(children := nodes[parent - 1].children + [NextInode(nodes)])
  {
    hide Sanitize.Component;
  }

  /** The view roots are the parent's three new last children; nothing else changes. */
  lemma RootsOnly(nodes: Nodes, parent: nat)
    requires IsDir(nodes, parent)
    ensures
      var roots := ViewRoots(nodes, parent);
      |roots| == |nodes| + 3 && OnlyParentGrew(nodes, roots, parent)
  {
    hide AddDir, Sanitize.Component;
    OneRoot(nodes, parent, "by-sha256");
    var n1 := AddDir(nodes, parent, "by-sha256", None);
    OneRoot(n1, parent, "by-type");
    var n2 := AddDir(n1, parent, "by-type", None);
    OneRoot(n2, parent, "by-date");
    var before, bySha := nodes[parent - 1].children, NextInode(nodes);
    assert before + [bySha] + [bySha + 1] + [bySha + 2] == before + [bySha, bySha + 1, bySha + 2];
  }

  /** Every old node is as it was, but for the parent's three new last children. */
  ghost predicate OnlyParentGrew(nodes: Nodes, after: Nodes, parent: nat)
    requires IsDir(nodes, parent)
  {
    var bySha := NextInode(nodes);
    && |nodes| <= |after|
    && (forall i :: 0 <= i < |nodes| && i != parent - 1 ==> after[i] == nodes[i])
    && after[parent - 1]
         == nodes[parent - 1].(children := nodes[parent - 1].children + [bySha, bySha + 1, bySha + 2])
  }

  lemma StillOnlyParentGrew(nodes: Nodes, roots: Nodes, after: Nodes, parent: nat)
    requires IsDir(nodes, parent) && OnlyParentGrew(nodes, roots, parent) && SameBefore(roots, after, NextInode(nodes))
    ensures OnlyParentGrew(nodes, after, parent)
  {
    forall i | 0 <= i < |nodes| ensures after[i] == roots[i] {
      assert after[..|nodes|][i] == roots[..|nodes|][i];
    }
  }

  /**
   * View construction. Over any descriptor list, by-sha256 lists exactly one file for every distinct valid hash,
   * carrying the first such descriptor; by-type and by-date have a directory exactly where some valid descriptor
   * is filed at or below it, each listing exactly the descriptors filed there, in order; no view has any other directory,
   * no two sibling directories in the views share a name, and outside the views nothing changes but the parent's list.
   * Keys and records say what the descriptor's fields say.
   */
  lemma {:induction false} ViewsAreExact(nodes: Nodes, parent: nat, ext: Extension, ds: seq<BlobDescriptor>)
    requires Wf(nodes) && IsDir(nodes, parent)
    ensures ViewsExact(nodes, parent, ext, ds, Build(nodes, parent, ext, ds))
  {
    AllFiledAsSaid(ext, ds);
    ThreeViews(nodes, parent, ext, ds);
    hide Build, FiledAsSaid, Holds, Wf, DirsDistinct, RootNames, OnlyParentGrew, Valid, AllValid;
  }

  ghost predicate ViewsExact(nodes: Nodes, parent: nat, ext: Extension, ds: seq<BlobDescriptor>, after: Nodes)
    requires IsDir(nodes, parent)
  {
    FirstsValid(ds);
    var bySha := NextInode(nodes);
    && Wf(after) && DirsDistinct(after, bySha) && RootNames(after, bySha)
    && FilesIn(after, bySha) == Records(ext, Firsts(ds))
    && Holds(after, bySha, BySha, ext, Firsts(ds))
    && Holds(after, bySha + 1, ByType, ext, Valids(ds))
    && Holds(after, bySha + 2, ByDate, ext, Valids(ds))
    && OnlyParentGrew(nodes, after, parent)
    && forall i :: 0 <= i < |ds| && Valid(ds[i]) ==> FiledAsSaid(ext, ds[i])
  }

  lemma ThreeViews(nodes: Nodes, parent: nat, ext: Extension, ds: seq<BlobDescriptor>)
    requires Wf(nodes) && IsDir(nodes, parent)
    ensures AllValid(Firsts(ds)) && AllValid(Valids(ds))
    ensures
      var after := Build(nodes, parent, ext, ds);
      var bySha := NextInode(nodes);
      && Wf(after) && DirsDistinct(after, bySha) && RootNames(after, bySha)
      && FilesIn(after, bySha) == Records(ext, Firsts(ds))
      && Holds(after, bySha, BySha, ext, Firsts(ds))
      && Holds(after, bySha + 1, ByType, ext, Valids(ds))
      && Holds(after, bySha + 2, ByDate, ext, Valids(ds))
      && OnlyParentGrew(nodes, after, parent)
  {
    RootsHoldNothing(nodes, parent, ext);
    var start := Building(ViewRoots(nodes, parent), {});
    var bySha := NextInode(nodes);
    FirstsValid(ds);
    assert Built(start, bySha, ext, []);
    BuildStepsKeep(start, bySha, ext, ds);
    var after := Build(nodes, parent, ext, ds);
    RootsOnly(nodes, parent);
    StillOnlyParentGrew(nodes, ViewRoots(nodes, parent), after, parent);
    RootFiles(after, bySha, ext, Firsts(ds));
  }

  /** What the building loop has made when it is done. */
  lemma BuildIsExact(nodes: Nodes, parent: nat, ext: Extension, ds: seq<BlobDescriptor>, done: Building)
    requires
      var roots := AddDir(AddDir(AddDir(nodes, parent, "by-sha256", None), parent, "by-type", None), parent, "by-date", None);
      done == BuildSteps(Building(roots, {}), NextInode(nodes), ext, ds)
    ensures done.nodes == Build(nodes, parent, ext, ds)
    ensures Wf(nodes) && IsDir(nodes, parent) ==> ViewsExact(nodes, parent, ext, ds, done.nodes)
  {
    hide AddDir, Wf, ViewsExact;
    if Wf(nodes) && IsDir(nodes, parent) { ViewsAreExact(nodes, parent, ext, ds); }
  }

  /** Everything in the hash view is filed at its root. */
  lemma RootFiles(nodes: Nodes, base: nat, ext: Extension, ds: seq<BlobDescriptor>)
    requires AllValid(ds) && Holds(nodes, base, BySha, ext, ds)
    ensures FilesIn(nodes, base) == Records(ext, ds)
  {
    assert Bucket(nodes, base, BySha, ext, ds, []);
    SelectAll(ds);
  }

  lemma {:induction false} SelectAll(ds: seq<BlobDescriptor>)
    ensures Select(BySha, ds, []) == ds
  {
    if ds != [] {
      SelectAll(ds[..|ds| - 1]);
      assert ds[..|ds| - 1] + [ds[|ds| - 1]] == ds;
    }
  }

  // ---------- The hash view ----------

  ghost predicate ShaBuilt(b: Building, bySha: nat, ext: Extension, ds: seq<BlobDescriptor>) {
    FirstsValid(ds);
    b.seen == Shas(ds) && Wf(b.nodes) && Holds(b.nodes, bySha, BySha, ext, Firsts(ds))
  }

  lemma ShaStepKeeps(b: Building, bySha: nat, ext: Extension, ds: seq<BlobDescriptor>, d: BlobDescriptor)
    requires ShaBuilt(b, bySha, ext, ds)
    ensures ShaBuilt(ShaStep(b, bySha, ext, d), bySha, ext, ds + [d])
  {
    Snocs(ds, d);
    FirstsValid(ds);
    FirstsValid(ds + [d]);
    hide Holds, PutIn, Firsts, Valids, Shas, Wf;
    if Valid(d) && ShaOf(d) !in b.seen {
      PutInHolds(b.nodes, bySha, BySha, ext, Firsts(ds), d);
    } else {
      assert Firsts(ds + [d]) == Firsts(ds) && Shas(ds + [d]) == Shas(ds);
    }
  }

  lemma {:induction false} ShaStepsKeep(b: Building, bySha: nat, ext: Extension, ds: seq<BlobDescriptor>)
    requires ShaBuilt(b, bySha, ext, [])
    ensures ShaBuilt(ShaSteps(b, bySha, ext, ds), bySha, ext, ds)
  {
    hide ShaBuilt;
    if ds != [] {
      var init, last := ds[..|ds| - 1], ds[|ds| - 1];
      ShaStepsKeep(b, bySha, ext, init);
      ShaStepKeeps(ShaSteps(b, bySha, ext, init), bySha, ext, init, last);
      assert init + [last] == ds;
    }
  }

  /** The hash-only construction lists the very same files as the hash view of the full one. */
  lemma {:induction false} ShaOnlyAgrees(nodes: Nodes, parent: nat, other: Nodes, parent2: nat, ext: Extension, ds: seq<BlobDescriptor>)
    requires Wf(nodes) && IsDir(nodes, parent) && Wf(other) && IsDir(other, parent2)
    ensures FilesIn(BuildShaOnly(nodes, parent, ext, ds), NextInode(nodes))
         == FilesIn(Build(other, parent2, ext, ds), NextInode(other))
  {
    var start := AddDir(nodes, parent, "by-sha256", None);
    AddDirFacts(nodes, parent, "by-sha256");
    EmptyHolds(start, NextInode(nodes), BySha, ext);
    assert ShaBuilt(Building(start, {}), NextInode(nodes), ext, []);
    ShaStepsKeep(Building(start, {}), NextInode(nodes), ext, ds);
    FirstsValid(ds);
    RootFiles(BuildShaOnly(nodes, parent, ext, ds), NextInode(nodes), ext, Firsts(ds));
    ViewsAreExact(other, parent2, ext, ds);
  }

  lemma {:induction false} FirstsHashes(ds: seq<BlobDescriptor>)
    ensures Shas(Firsts(ds)) == Shas(ds)
  {
    if ds != [] {
      var init, last := ds[..|ds| - 1], ds[|ds| - 1];
      assert init + [last] == ds;
      FirstsHashes(init);
      Snocs(init, last);
      Snocs(Firsts(init), last);
      hide Shas, Firsts;
      assert Firsts(init) + [] == Firsts(init);
    }
  }

  lemma {:induction false} FirstsDistinct(ds: seq<BlobDescriptor>, i: nat, j: nat)
    requires AllValid(Firsts(ds)) && i < j < |Firsts(ds)|
    ensures ShaOf(Firsts(ds)[i]) != ShaOf(Firsts(ds)[j])
  {
    var init, last := ds[..|ds| - 1], ds[|ds| - 1];
    FirstsValid(init);
    FirstsHashes(init);
    if j < |Firsts(init)| {
      FirstsDistinct(init, i, j);
    } else {
      assert ShaOf(Firsts(init)[i]) in Shas(Firsts(init));
    }
  }

  lemma {:induction false} FirstsEarliest(ds: seq<BlobDescriptor>, i: nat)
    requires AllValid(Firsts(ds)) && i < |Firsts(ds)|
    ensures Earliest(ds, Firsts(ds)[i])
  {
    var init, last := ds[..|ds| - 1], ds[|ds| - 1];
    var d := Firsts(ds)[i];
    FirstsValid(init);
    if i < |Firsts(init)| {
      FirstsEarliest(init, i);
      var k :| EarliestAt(init, d, k);
      assert EarliestAt(ds, d, k) by {
        forall j | 0 <= j < k && Valid(ds[j]) ensures ShaOf(ds[j]) != ShaOf(d) { assert init[j] == ds[j]; }
      }
    } else {
      forall j | 0 <= j < |init| && Valid(ds[j]) ensures ShaOf(ds[j]) != ShaOf(d) {
        assert init[j] == ds[j] && ShaOf(init[j]) in Shas(init);
      }
      assert EarliestAt(ds, d, |init|);
    }
  }

  /** `Firsts` is one descriptor per hash: the earliest of that hash, and every valid hash is there. */
  lemma FirstsAreFirst(ds: seq<BlobDescriptor>)
    ensures AllValid(Firsts(ds)) && Shas(Firsts(ds)) == Shas(ds)
    ensures forall i, j :: 0 <= i < j < |Firsts(ds)| ==> ShaOf(Firsts(ds)[i]) != ShaOf(Firsts(ds)[j])
    ensures forall i :: 0 <= i < |Firsts(ds)| ==> Earliest(ds, Firsts(ds)[i])
  {
    FirstsValid(ds);
    FirstsHashes(ds);
    hide Firsts, Shas, Earliest, ShaOf;
    forall i, j | 0 <= i < j < |Firsts(ds)| ensures ShaOf(Firsts(ds)[i]) != ShaOf(Firsts(ds)[j]) { FirstsDistinct(ds, i, j); }
    forall i | 0 <= i < |Firsts(ds)| ensures Earliest(ds, Firsts(ds)[i]) { FirstsEarliest(ds, i); }
  }

  ghost predicate EarliestAt(ds: seq<BlobDescriptor>, d: BlobDescriptor, k: int)
    requires Valid(d)
  {
    0 <= k < |ds| && ds[k] == d && forall j :: 0 <= j < k && Valid(ds[j]) ==> ShaOf(ds[j]) != ShaOf(d)
  }

  ghost predicate Earliest(ds: seq<BlobDescriptor>, d: BlobDescriptor)
    requires Valid(d)
  {
    exists k :: EarliestAt(ds, d, k)
  }

  // ---------- The date view ----------

  /** Two dates share their directories only when they are the same date. */
  lemma DateKeysDistinct(a: Calendar.Date, b: Calendar.Date)
    ensures DateKey(a) == DateKey(b) <==> a == b
  {
    if DateKey(a) == DateKey(b) {
      assert DateKey(a)[0] == DateKey(b)[0] && DateKey(a)[1] == DateKey(b)[1] && DateKey(a)[2] == DateKey(b)[2];
      Text.PaddedInjective(a.year, b.year, 4);
      Text.PaddedInjective(a.month, b.month, 2);
      Text.PaddedInjective(a.day, b.day, 2);
    }
  }

  /** A descriptor's date directories read as its counted calendar date exactly when that date's year fits in a `u32`. */
  lemma {:induction false} FiledUnderItsDate(d: BlobDescriptor)
    ensures ReadsAsDate(Key(ByDate, d), Calendar.Counted(d.uploaded / Calendar.SECONDS_PER_DAY))
       <==> Calendar.Counted(d.uploaded / Calendar.SECONDS_PER_DAY).year < 0x1_0000_0000
  {
    hide Calendar.UnixToYmd, Calendar.Counted, Key;
    Calendar.UnixToYmdIsCounting(d.uploaded);
    DateKeyReads(d);
  }
}

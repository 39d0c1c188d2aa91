/** Evicting the oldest cached objects until the cache fits. */
module Eviction {
  import Sanitize

  /** A file under the objects directory; its name is the normalised hash. */
  datatype CacheFile = CacheFile(name: string, size: nat, mtime: int)

  function Total(files: seq<CacheFile>): nat {
    if files == [] then 0 else files[0].size + Total(files[1..])
  }

  lemma Cons(f: CacheFile, files: seq<CacheFile>)
    ensures Total([f] + files) == f.size + Total(files)
    ensures multiset([f] + files) == multiset{f} + multiset(files)
    ensures forall g :: g in [f] + files <==> g == f || g in files
  {
    assert ([f] + files)[1..] == files;
  }

  // ---------- Sorting by modification time ----------

  ghost predicate ByAge(files: seq<CacheFile>) {
    forall i, j :: 0 <= i < j < |files| ==> files[i].mtime <= files[j].mtime
  }

  function Insert(f: CacheFile, files: seq<CacheFile>): seq<CacheFile> {
    if files == [] || f.mtime < files[0].mtime then [f] + files
    else [files[0]] + Insert(f, files[1..])
  }

  /** `sort_by_key(mtime)`, a stable sort: later files go after equal earlier ones. */
  function Sorted(files: seq<CacheFile>): seq<CacheFile> {
    if files == [] then [] else Insert(files[|files| - 1], Sorted(files[..|files| - 1]))
  }

  lemma {:induction false} InsertKeeps(f: CacheFile, files: seq<CacheFile>)
    ensures multiset(Insert(f, files)) == multiset(files) + multiset{f}
    ensures Total(Insert(f, files)) == Total(files) + f.size
    ensures forall g :: g in Insert(f, files) <==> g == f || g in files
  {
    if files == [] || f.mtime < files[0].mtime {
      Cons(f, files);
    } else {
      InsertKeeps(f, files[1..]);
      Cons(files[0], Insert(f, files[1..]));
      Cons(files[0], files[1..]);
      assert [files[0]] + files[1..] == files;
    }
  }

  lemma {:induction false} InsertSorts(f: CacheFile, files: seq<CacheFile>)
    requires ByAge(files)
    ensures ByAge(Insert(f, files))
  {
    if files != [] && f.mtime >= files[0].mtime {
      InsertSorts(f, files[1..]);
      InsertKeeps(f, files[1..]);
      var rest := Insert(f, files[1..]);
      forall j | 0 <= j < |rest| ensures files[0].mtime <= rest[j].mtime {
        assert rest[j] in rest;
      }
    }
  }

  lemma {:induction false} TotalSnoc(files: seq<CacheFile>, f: CacheFile)
    ensures Total(files + [f]) == Total(files) + f.size
  {
    if files == [] {
      assert (files + [f])[1..] == [];
    } else {
      assert (files + [f])[1..] == files[1..] + [f];
      TotalSnoc(files[1..], f);
    }
  }

  lemma {:induction false} SortedSorts(files: seq<CacheFile>)
    ensures ByAge(Sorted(files)) && multiset(Sorted(files)) == multiset(files) && Total(Sorted(files)) == Total(files)
  {
    if files == [] {
    } else {
      hide Insert, Total, ByAge;
      var init, last := files[..|files| - 1], files[|files| - 1];
      SortedSorts(init);
      InsertSorts(last, Sorted(init));
      InsertKeeps(last, Sorted(init));
      TotalSnoc(init, last);
      assert init + [last] == files;
    }
  }

  /** The files last modified at `t`, in order. */
  function At(files: seq<CacheFile>, t: int): seq<CacheFile> {
    if files == [] then [] else (if files[0].mtime == t then [files[0]] else []) + At(files[1..], t)
  }

  lemma AtHead(f: CacheFile, files: seq<CacheFile>, t: int)
    ensures At([f] + files, t) == (if f.mtime == t then [f] else []) + At(files, t)
    ensures At([], t) == []
  {
    assert ([f] + files)[1..] == files;
  }

  lemma Assoc(a: seq<CacheFile>, b: seq<CacheFile>, c: seq<CacheFile>)
    ensures a + b + c == a + (b + c) && [] + c == c && c + [] == c
  {
  }

  lemma {:induction false} AtSnoc(files: seq<CacheFile>, f: CacheFile, t: int)
    ensures At(files + [f], t) == At(files, t) + (if f.mtime == t then [f] else [])
  {
    hide At;
    var own := if f.mtime == t then [f] else [];
    if files == [] {
      AtHead(f, [], t);
      Assoc([], [], [f]);
      Assoc([], [], own);
    } else {
      var g, rest := files[0], files[1..];
      assert files == [g] + rest && files + [f] == [g] + (rest + [f]);
      AtSnoc(rest, f, t);
      AtHead(g, rest, t);
      AtHead(g, rest + [f], t);
      Assoc(if g.mtime == t then [g] else [], At(rest, t), own);
    }
  }

  lemma {:induction false} InsertLast(f: CacheFile, files: seq<CacheFile>, t: int)
    requires ByAge(files)
    ensures At(Insert(f, files), t) == At(files, t) + (if f.mtime == t then [f] else [])
  {
    hide At;
    var own := if f.mtime == t then [f] else [];
    if files == [] || f.mtime < files[0].mtime {
      AtHead(f, files, t);
      if f.mtime == t { NoneAt(files, t); }
      Assoc([], [], own);
      Assoc([], [], At(files, t));
    } else {
      var g, rest := files[0], files[1..];
      assert files == [g] + rest;
      InsertLast(f, rest, t);
      AtHead(g, rest, t);
      AtHead(g, Insert(f, rest), t);
      Assoc(if g.mtime == t then [g] else [], At(rest, t), own);
    }
  }

  lemma {:induction false} NoneAt(files: seq<CacheFile>, t: int)
    requires forall i :: 0 <= i < |files| ==> files[i].mtime > t
    ensures At(files, t) == []
  {
    if files != [] { NoneAt(files[1..], t); }
  }

  /** The sort is stable: files of one age stay in the order of the walk. */
  lemma {:induction false} SortedIsStable(files: seq<CacheFile>, t: int)
    ensures At(Sorted(files), t) == At(files, t)
  {
    hide Insert, Total, ByAge, At;
    if files != [] {
      var init, last := files[..|files| - 1], files[|files| - 1];
      SortedIsStable(init, t);
      SortedSorts(init);
      InsertLast(last, Sorted(init), t);
      AtSnoc(init, last, t);
      assert init + [last] == files;
    }
  }

  // ---------- The eviction loop ----------

  datatype Evicted = Evicted(removed: seq<CacheFile>, kept: seq<CacheFile>)

  /** Goes through the files oldest first while `total` is over the limit; `stuck` holds the files whose removal fails. */
  function Evict(files: seq<CacheFile>, total: nat, maxBytes: nat, keep: string, stuck: set<CacheFile>): Evicted
    requires Total(files) <= total
  {
    if files == [] || total <= maxBytes then Evicted([], files)
    else
      var f := files[0];
      if Goes(f, keep, stuck) then
        var rest := Evict(files[1..], total - f.size, maxBytes, keep, stuck);
        Evicted([f] + rest.removed, rest.kept)
      else
        var rest := Evict(files[1..], total, maxBytes, keep, stuck);
        Evicted(rest.removed, [f] + rest.kept)
  }

  predicate Goes(f: CacheFile, keep: string, stuck: set<CacheFile>) {
    f.name != keep && f !in stuck
  }

  lemma EvictStep(files: seq<CacheFile>, total: nat, maxBytes: nat, keep: string, stuck: set<CacheFile>)
    requires Total(files) <= total && files != [] && total > maxBytes
    ensures
      var f := files[0];
      var left := if Goes(f, keep, stuck) then total - f.size else total;
      && f.size <= total && Total(files[1..]) <= left
      && var rest := Evict(files[1..], left, maxBytes, keep, stuck);
         Evict(files, total, maxBytes, keep, stuck)
           == if Goes(f, keep, stuck) then Evicted([f] + rest.removed, rest.kept) else Evicted(rest.removed, [f] + rest.kept)
  {
  }

  lemma EvictStop(files: seq<CacheFile>, total: nat, maxBytes: nat, keep: string, stuck: set<CacheFile>)
    requires Total(files) <= total && (files == [] || total <= maxBytes)
    ensures Evict(files, total, maxBytes, keep, stuck) == Evicted([], files)
  {
  }

  function EvictOldest(listing: seq<CacheFile>, maxBytes: nat, keep: string, stuck: set<CacheFile>): Evicted {
    SortedSorts(listing);
    if maxBytes == 0 || Total(listing) <= maxBytes then Evicted([], listing)
    else Evict(Sorted(listing), Total(listing), maxBytes, keep, stuck)
  }

  lemma NothingToEvict(listing: seq<CacheFile>, maxBytes: nat, keep: string, stuck: set<CacheFile>)
    ensures maxBytes == 0 || Total(listing) <= maxBytes ==> EvictOldest(listing, maxBytes, keep, stuck) == Evicted([], listing)
    ensures Total([]) == 0
  {
  }

  lemma SomethingToEvict(listing: seq<CacheFile>, maxBytes: nat, keep: string, stuck: set<CacheFile>)
    requires 0 < maxBytes < Total(listing)
    ensures
      var entries := Sorted(listing);
      && multiset(entries) == multiset(listing) && Total(entries) == Total(listing)
      && EvictOldest(listing, maxBytes, keep, stuck) == Evict(entries, Total(listing), maxBytes, keep, stuck)
  {
    SortedSorts(listing);
  }

  /** Having removed `removed` and passed over `passed`, the loop still has to treat `files`. */
  ghost predicate Pending(result: Evicted, removed: seq<CacheFile>, passed: seq<CacheFile>, files: seq<CacheFile>,
                          total: nat, maxBytes: nat, keep: string, stuck: set<CacheFile>) {
    Total(files) <= total
    && var rest := Evict(files, total, maxBytes, keep, stuck);
       result == Evicted(removed + rest.removed, passed + rest.kept)
  }

  lemma Concat(front: seq<CacheFile>, f: CacheFile, back: seq<CacheFile>)
    ensures front + [f] + back == front + ([f] + back)
  {
  }

  lemma PendingStep(result: Evicted, removed: seq<CacheFile>, passed: seq<CacheFile>, files: seq<CacheFile>,
                    total: nat, maxBytes: nat, keep: string, stuck: set<CacheFile>)
    requires Pending(result, removed, passed, files, total, maxBytes, keep, stuck) && files != [] && total > maxBytes
    ensures
      var f := files[0];
      if Goes(f, keep, stuck)
      then f.size <= total && Pending(result, removed + [f], passed, files[1..], total - f.size, maxBytes, keep, stuck)
      else Pending(result, removed, passed + [f], files[1..], total, maxBytes, keep, stuck)
  {
    hide Evict, Total;
    var f := files[0];
    var left := if Goes(f, keep, stuck) then total - f.size else total;
    EvictStep(files, total, maxBytes, keep, stuck);
    var rest := Evict(files[1..], left, maxBytes, keep, stuck);
    Concat(removed, f, rest.removed);
    Concat(passed, f, rest.kept);
  }

  lemma PendingStart(files: seq<CacheFile>, total: nat, maxBytes: nat, keep: string, stuck: set<CacheFile>)
    requires Total(files) <= total
    ensures Pending(Evict(files, total, maxBytes, keep, stuck), [], [], files, total, maxBytes, keep, stuck)
    ensures OnDisk(multiset(files), multiset(files), 0, 0, [], [], files)
  {
    var result := Evict(files, total, maxBytes, keep, stuck);
    assert [] + result.removed == result.removed && [] + result.kept == result.kept;
  }

  lemma PendingStop(result: Evicted, removed: seq<CacheFile>, passed: seq<CacheFile>, files: seq<CacheFile>,
                    total: nat, maxBytes: nat, keep: string, stuck: set<CacheFile>)
    requires Pending(result, removed, passed, files, total, maxBytes, keep, stuck) && (files == [] || total <= maxBytes)
    ensures result == Evicted(removed, passed + files)
  {
    assert removed + [] == removed;
  }

  /** The files on disk are those passed over and those still to come; the removed ones are counted, with their bytes. */
  ghost predicate OnDisk(files: multiset<CacheFile>, initial: multiset<CacheFile>, bytes: nat, count: nat,
                         removed: seq<CacheFile>, passed: seq<CacheFile>, rest: seq<CacheFile>) {
    && files == multiset(passed) + multiset(rest) && multiset(removed) + files == initial
    && bytes == Total(removed) && count == |removed|
  }

  lemma OnDiskStep(files: multiset<CacheFile>, initial: multiset<CacheFile>, bytes: nat, count: nat,
                   removed: seq<CacheFile>, passed: seq<CacheFile>, rest: seq<CacheFile>)
    requires OnDisk(files, initial, bytes, count, removed, passed, rest) && rest != []
    ensures OnDisk(files - multiset{rest[0]}, initial, bytes + rest[0].size, count + 1, removed + [rest[0]], passed, rest[1..])
    ensures OnDisk(files, initial, bytes, count, removed, passed + [rest[0]], rest[1..])
  {
    assert rest == [rest[0]] + rest[1..];
    TotalSnoc(removed, rest[0]);
  }

  lemma OnDiskStop(files: multiset<CacheFile>, initial: multiset<CacheFile>, bytes: nat, count: nat,
                   removed: seq<CacheFile>, passed: seq<CacheFile>, rest: seq<CacheFile>)
    requires OnDisk(files, initial, bytes, count, removed, passed, rest)
    ensures files == multiset(passed + rest) == initial - multiset(removed)
    ensures bytes == Total(removed) && count == |removed|
  {
  }

  lemma RemoveStep(result: Evicted, files: multiset<CacheFile>, initial: multiset<CacheFile>, bytes: nat, count: nat, total: nat,
                   removed: seq<CacheFile>, passed: seq<CacheFile>, rest: seq<CacheFile>,
                   maxBytes: nat, keep: string, stuck: set<CacheFile>)
    requires Pending(result, removed, passed, rest, total, maxBytes, keep, stuck) && rest != [] && total > maxBytes
    requires OnDisk(files, initial, bytes, count, removed, passed, rest) && Goes(rest[0], keep, stuck)
    ensures rest[0].size <= total
    ensures Pending(result, removed + [rest[0]], passed, rest[1..], total - rest[0].size, maxBytes, keep, stuck)
    ensures OnDisk(files - multiset{rest[0]}, initial, bytes + rest[0].size, count + 1, removed + [rest[0]], passed, rest[1..])
  {
    hide Pending, OnDisk;
    PendingStep(result, removed, passed, rest, total, maxBytes, keep, stuck);
    OnDiskStep(files, initial, bytes, count, removed, passed, rest);
  }

  lemma PassStep(result: Evicted, files: multiset<CacheFile>, initial: multiset<CacheFile>, bytes: nat, count: nat, total: nat,
                 removed: seq<CacheFile>, passed: seq<CacheFile>, rest: seq<CacheFile>,
                 maxBytes: nat, keep: string, stuck: set<CacheFile>)
    requires Pending(result, removed, passed, rest, total, maxBytes, keep, stuck) && rest != [] && total > maxBytes
    requires OnDisk(files, initial, bytes, count, removed, passed, rest) && !Goes(rest[0], keep, stuck)
    ensures Pending(result, removed, passed + [rest[0]], rest[1..], total, maxBytes, keep, stuck)
    ensures OnDisk(files, initial, bytes, count, removed, passed + [rest[0]], rest[1..])
  {
    hide Pending, OnDisk;
    PendingStep(result, removed, passed, rest, total, maxBytes, keep, stuck);
    OnDiskStep(files, initial, bytes, count, removed, passed, rest);
  }

  class CacheDir {
    var files: multiset<CacheFile>

    /** `evict_oldest` over the directory walk `listing`. */
    method EvictOldestFiles(listing: seq<CacheFile>, maxBytes: nat, keep: string, stuck: set<CacheFile>)
      returns (removedBytes: nat, removedCount: nat)
      requires multiset(listing) == files
      modifies this
      ensures
        var result := EvictOldest(listing, maxBytes, keep, stuck);
        && files == multiset(result.kept) == old(files) - multiset(result.removed)
        && removedBytes == Total(result.removed) && removedCount == |result.removed|
    {
      hide Evict, Total, Sorted, EvictOldest;
      removedBytes, removedCount := 0, 0;
      NothingToEvict(listing, maxBytes, keep, stuck);
      if maxBytes == 0 { return; }
      var totalSize: nat := 0;
      assert listing[..0] == [];
      for i := 0 to |listing|
        invariant totalSize == Total(listing[..i])
        invariant files == old(files)
      {
        TotalSnoc(listing[..i], listing[i]);
        assert listing[..i + 1] == listing[..i] + [listing[i]];
        totalSize := totalSize + listing[i].size;
      }
      assert listing[..|listing|] == listing;
      if totalSize <= maxBytes { return; }
      SomethingToEvict(listing, maxBytes, keep, stuck);
      removedBytes, removedCount := RemoveOldest(Sorted(listing), totalSize, maxBytes, keep, stuck);
    }

    /** The removal loop, over the files in age order. */
    method RemoveOldest(entries: seq<CacheFile>, total: nat, maxBytes: nat, keep: string, stuck: set<CacheFile>)
      returns (removedBytes: nat, removedCount: nat)
      requires multiset(entries) == files && Total(entries) == total
      modifies this
      ensures
        var result := Evict(entries, total, maxBytes, keep, stuck);
        && files == multiset(result.kept) == old(files) - multiset(result.removed)
        && removedBytes == Total(result.removed) && removedCount == |result.removed|
    {
      ghost var result := Evict(entries, total, maxBytes, keep, stuck);
      ghost var removed: seq<CacheFile> := [];
      ghost var passed: seq<CacheFile> := [];
      var totalSize: nat := total;
      removedBytes, removedCount := 0, 0;
      PendingStart(entries, totalSize, maxBytes, keep, stuck);
      var left := entries;
      hide Evict, Total, Pending, OnDisk, Goes;
      while left != [] && totalSize > maxBytes
        invariant Pending(result, removed, passed, left, totalSize, maxBytes, keep, stuck)
        invariant OnDisk(files, old(files), removedBytes, removedCount, removed, passed, left)
        decreases |left|
      {
        var f := left[0];
        if Goes(f, keep, stuck) {
          RemoveStep(result, files, old(files), removedBytes, removedCount, totalSize, removed, passed, left, maxBytes, keep, stuck);
          files := files - multiset{f};
          totalSize := totalSize - f.size;
          removedBytes := removedBytes + f.size;
          removedCount := removedCount + 1;
          removed := removed + [f];
        } else {
          PassStep(result, files, old(files), removedBytes, removedCount, totalSize, removed, passed, left, maxBytes, keep, stuck);
          passed := passed + [f];
        }
        left := left[1..];
      }
      PendingStop(result, removed, passed, left, totalSize, maxBytes, keep, stuck);
      OnDiskStop(files, old(files), removedBytes, removedCount, removed, passed, left);
    }
  }

  // ---------- What eviction guarantees ----------

  /** Files and bytes are conserved, and the protected name is never removed. */
  lemma {:induction false} EvictConserves(files: seq<CacheFile>, total: nat, maxBytes: nat, keep: string, stuck: set<CacheFile>)
    requires Total(files) <= total
    ensures
      var r := Evict(files, total, maxBytes, keep, stuck);
      && multiset(r.removed) + multiset(r.kept) == multiset(files)
      && Total(r.removed) + Total(r.kept) == Total(files)
      && forall f :: f in r.removed ==> f.name != keep && f !in stuck
  {
    hide Evict, Total;
    if files == [] || total <= maxBytes {
      EvictStop(files, total, maxBytes, keep, stuck);
      NothingToEvict([], 0, keep, stuck);
    } else {
      var f := files[0];
      assert [f] + files[1..] == files;
      Cons(f, files[1..]);
      EvictStep(files, total, maxBytes, keep, stuck);
      var left := if Goes(f, keep, stuck) then total - f.size else total;
      EvictConserves(files[1..], left, maxBytes, keep, stuck);
      var rest := Evict(files[1..], left, maxBytes, keep, stuck);
      Cons(f, rest.removed);
      Cons(f, rest.kept);
    }
  }

  /** Everything that goes or stays was there. */
  lemma EvictSplits(files: seq<CacheFile>, total: nat, maxBytes: nat, keep: string, stuck: set<CacheFile>, f: CacheFile)
    requires Total(files) <= total
    ensures
      var r := Evict(files, total, maxBytes, keep, stuck);
      f in files <==> f in r.removed || f in r.kept
  {
    EvictConserves(files, total, maxBytes, keep, stuck);
    var r := Evict(files, total, maxBytes, keep, stuck);
    assert f in files <==> f in multiset(files);
    assert f in multiset(files) <==> f in multiset(r.removed) + multiset(r.kept);
  }

  /** The limit is met unless nothing removable is left, and the last removal was still needed. */
  lemma {:induction false} EvictMeetsLimit(files: seq<CacheFile>, total: nat, maxBytes: nat, keep: string, stuck: set<CacheFile>)
    requires Total(files) <= total
    ensures
      var r := Evict(files, total, maxBytes, keep, stuck);
      && Total(r.removed) <= total
      && (total - Total(r.removed) <= maxBytes || forall f :: f in r.kept ==> f.name == keep || f in stuck)
      && (r.removed != [] ==> total - Total(r.removed[..|r.removed| - 1]) > maxBytes)
  {
    if files != [] && total > maxBytes {
      var f := files[0];
      if f.name != keep && f !in stuck {
        EvictMeetsLimit(files[1..], total - f.size, maxBytes, keep, stuck);
        var rest := Evict(files[1..], total - f.size, maxBytes, keep, stuck).removed;
        var all := [f] + rest;
        assert all[1..] == rest;
        if rest != [] {
          assert all[..|all| - 1][1..] == rest[..|rest| - 1];
        } else {
          assert all[..|all| - 1] == [];
        }
      } else {
        EvictMeetsLimit(files[1..], total, maxBytes, keep, stuck);
      }
    }
  }

  /** No removed file is newer than a removable file that stays. */
  lemma {:induction false} EvictOldestFirst(files: seq<CacheFile>, total: nat, maxBytes: nat, keep: string, stuck: set<CacheFile>,
                                            gone: CacheFile, stays: CacheFile)
    requires Total(files) <= total && ByAge(files)
    requires gone in Evict(files, total, maxBytes, keep, stuck).removed
    requires stays in Evict(files, total, maxBytes, keep, stuck).kept && stays.name != keep && stays !in stuck
    ensures gone.mtime <= stays.mtime
  {
    hide Evict, Total;
    if files == [] || total <= maxBytes {
      EvictStop(files, total, maxBytes, keep, stuck);
    } else {
      var f, rest := files[0], files[1..];
      assert [f] + rest == files;
      Cons(f, rest);
      EvictStep(files, total, maxBytes, keep, stuck);
      var left := if Goes(f, keep, stuck) then total - f.size else total;
      var r := Evict(rest, left, maxBytes, keep, stuck);
      EvictSplits(rest, left, maxBytes, keep, stuck, stays);
      if gone == f && stays in rest {
        var j :| 0 <= j < |rest| && rest[j] == stays;
        assert files[j + 1] == stays;
      } else if gone in r.removed && stays in r.kept {
        assert ByAge(rest);
        EvictOldestFirst(rest, left, maxBytes, keep, stuck, gone, stays);
      }
    }
  }

  /**
   * Eviction exactness, for the whole operation: nothing protected or undeletable goes, files and bytes are conserved,
   * it ends within the limit unless only protected and undeletable files remain, it stops as soon as the limit is met,
   * and it is oldest first.
   */
  lemma EvictionIsExact(listing: seq<CacheFile>, maxBytes: nat, keep: string, stuck: set<CacheFile>)
    requires maxBytes > 0
    ensures
      var r := EvictOldest(listing, maxBytes, keep, stuck);
      && multiset(r.removed) + multiset(r.kept) == multiset(listing)
      && Total(r.removed) + Total(r.kept) == Total(listing)
      && (forall f :: f in r.removed ==> f.name != keep && f !in stuck)
      && (Total(r.kept) <= maxBytes || forall f :: f in r.kept ==> f.name == keep || f in stuck)
      && (r.removed != [] ==> Total(listing) - Total(r.removed[..|r.removed| - 1]) > maxBytes)
      && (forall gone, stays :: gone in r.removed && stays in r.kept && stays.name != keep && stays !in stuck
            ==> gone.mtime <= stays.mtime)
  {
    SortedSorts(listing);
    if Total(listing) > maxBytes {
      var files := Sorted(listing);
      EvictConserves(files, Total(listing), maxBytes, keep, stuck);
      EvictMeetsLimit(files, Total(listing), maxBytes, keep, stuck);
      var r := EvictOldest(listing, maxBytes, keep, stuck);
      forall gone, stays | gone in r.removed && stays in r.kept && stays.name != keep && stays !in stuck
        ensures gone.mtime <= stays.mtime
      {
        EvictOldestFirst(files, Total(listing), maxBytes, keep, stuck, gone, stays);
      }
    }
  }

  /** The object a hash text protects is never evicted, whatever else is cached. */
  ghost predicate AlwaysKept(keep: string) {
    forall listing: seq<CacheFile>, maxBytes: nat, stuck: set<CacheFile>, f: CacheFile ::
      f.name == Sanitize.Lower(keep) ==> f !in EvictOldest(listing, maxBytes, keep, stuck).removed
  }

  /** Names on disk are lower case but `keep` is compared as given: it protects its object exactly when it is lower case. */
  lemma KeepsIffNormalised(keep: string)
    ensures AlwaysKept(keep) <==> Sanitize.Lower(keep) == keep
  {
    if Sanitize.Lower(keep) == keep {
      forall listing, maxBytes: nat, stuck: set<CacheFile>, f: CacheFile | f.name == Sanitize.Lower(keep)
        ensures f !in EvictOldest(listing, maxBytes, keep, stuck).removed
      {
        if maxBytes > 0 { EvictionIsExact(listing, maxBytes, keep, stuck); }
      }
    } else {
      var f := CacheFile(Sanitize.Lower(keep), 2, 0);
      SortedSorts([f]);
      assert Sorted([f][..0]) == [];
      assert Sorted([f]) == [f];
      assert Total([f]) == 2 by { assert [f][1..] == []; }
      assert f in EvictOldest([f], 1, keep, {}).removed;
    }
  }
}

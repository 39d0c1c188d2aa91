/** The content-addressed object cache. */
module ObjectCache {
  import opened Wrappers
  import Sanitize

  type Bytes = seq<Byte>

  /** Components of a path below the cache directory. */
  type Path = seq<string>

  function CachePath(sha256: string): Option<Path> {
    match Sanitize.Sha256(sha256)
    case None => None
    case Some(h) =>
      Sanitize.Sha256Normalises(sha256);
      Some(["objects", h[0..2], h[2..4], h])
  }

  /** An object lies under "objects", in a directory of its first two digits and one of its next two, named by its hash. */
  lemma CacheLayout(sha256: string)
    ensures CachePath(sha256).Some? <==> |sha256| == 64 && (forall i :: 0 <= i < 64 ==> Sanitize.IsHex(sha256[i]))
    ensures CachePath(sha256).Some? ==>
      var p := CachePath(sha256).value;
      && |p| == 4 && p[0] == "objects" && Sanitize.Normalised(p[3])
      && |p[1]| == 2 && |p[2]| == 2 && p[1] + p[2] <= p[3]
      && forall i :: 0 <= i < 64 ==> Sanitize.HexValue(p[3][i]) == Sanitize.HexValue(sha256[i])
  {
    Sanitize.Sha256Normalises(sha256);
    if CachePath(sha256).Some? {
      var p := CachePath(sha256).value;
      assert p[1] + p[2] == p[3][..4];
    }
  }

  /** Two hash texts share a cache file exactly when they are the same hash up to case. */
  lemma CachePathIsTheHash(a: string, b: string)
    requires CachePath(a).Some? && CachePath(b).Some?
    ensures CachePath(a) == CachePath(b) <==> Sanitize.Lower(a) == Sanitize.Lower(b)
  {
    if CachePath(a) == CachePath(b) {
      assert CachePath(a).value[3] == CachePath(b).value[3];
    }
  }

  datatype FetchResult = Stored | HashMismatch | InvalidHash | IoError

  class Cache {
    var objects: map<Path, Bytes>

    /** Every object sits at the path of its own hash; hashing yields lower-case hex. */
    ghost predicate Intact(sha256: Bytes -> string)
      reads this
    {
      forall p :: p in objects ==> CachePath(sha256(objects[p])) == Some(p)
    }

    /** `verify_and_cache`: one atomic rename at the end, or no change. */
    method VerifyAndCache(sha256: Bytes -> string, bytes: Bytes, expected: string, diskOk: bool) returns (result: FetchResult)
      requires forall b :: Sanitize.Normalised(sha256(b))
      modifies this
      ensures result == Stored <==> sha256(bytes) == Sanitize.Lower(expected) && diskOk
      ensures result == HashMismatch <==> sha256(bytes) != Sanitize.Lower(expected)
      ensures result == Stored ==>
        CachePath(expected).Some? && objects == old(objects)[CachePath(expected).value := bytes]
      ensures result != Stored ==> objects == old(objects)
      ensures old(Intact(sha256)) ==> Intact(sha256)
    {
      var computed := sha256(bytes);
      if computed != Sanitize.Lower(expected) { return HashMismatch; }
      LowerIsValid(expected);
      Sanitize.Sha256Normalises(computed);
      var path := CachePath(expected);
      if path.None? { return InvalidHash; }
      if !diskOk { return IoError; }
      objects := objects[path.value := bytes];
      return Stored;
    }

    /** `cache_exists`: in an intact cache a hash text is found exactly when some object has that hash, in either case. */
    method Exists(sha256: string, digest: Bytes -> string) returns (found: bool)
      requires forall b :: Sanitize.Normalised(digest(b))
      ensures found <==> CachePath(sha256).Some? && CachePath(sha256).value in objects
      ensures Intact(digest) ==> (found <==> exists p :: p in objects && digest(objects[p]) == Sanitize.Lower(sha256))
    {
      var path := CachePath(sha256);
      if Intact(digest) {
        FoundObject(objects, digest, sha256);
      }
      return path.Some? && path.value in objects;
    }

    /** `unlink`'s removal of a cached object, and the removal of an evicted one. */
    method Remove(sha256: string)
      modifies this
      ensures objects == if CachePath(sha256).Some? then old(objects) - {CachePath(sha256).value} else old(objects)
      ensures forall h :: old(Intact(h)) ==> Intact(h)
    {
      var path := CachePath(sha256);
      if path.Some? { objects := objects - {path.value}; }
    }
  }

  /** In a cache where every object sits at the path of its own hash, a path is taken exactly when its hash is there. */
  lemma FoundObject(objects: map<Path, Bytes>, digest: Bytes -> string, sha256: string)
    requires forall b :: Sanitize.Normalised(digest(b))
    requires forall p :: p in objects ==> CachePath(digest(objects[p])) == Some(p)
    ensures (CachePath(sha256).Some? && CachePath(sha256).value in objects)
      <==> (exists p :: p in objects && digest(objects[p]) == Sanitize.Lower(sha256))
  {
    LowerIsValid(sha256);
    if CachePath(sha256).Some? && CachePath(sha256).value in objects {
      var p := CachePath(sha256).value;
      CachePathIsTheHash(digest(objects[p]), sha256);
      Sanitize.Sha256Normalises(digest(objects[p]));
    }
  }

  /** Text whose lower case is a hash is itself a valid hash text, with the same path. */
  lemma LowerIsValid(s: string)
    ensures Sanitize.Normalised(Sanitize.Lower(s)) ==>
      CachePath(s).Some? && CachePath(s) == CachePath(Sanitize.Lower(s))
  {
    if Sanitize.Normalised(Sanitize.Lower(s)) {
      Sanitize.Sha256Normalises(s);
      Sanitize.Sha256Normalises(Sanitize.Lower(s));
      forall i | 0 <= i < 64 ensures Sanitize.IsHex(s[i]) {
        assert Sanitize.Lower(s)[i] == Sanitize.LowerChar(s[i]);
      }
    }
  }
}

/**
 * Reading a remote blob: readers interleave step by step over a verified cache, a shared set of hashes being
 * fetched, and a condition variable. Every mutex section, file access and server reply is one step.
 */
module SingleFlight {
  import opened Wrappers

  type Bytes = seq<Byte>
  type Hash = string
  type Tid = nat

  /** What the readers run against. Hashes are in normal form. */
  datatype Config = Config(
    sha256: Bytes -> Hash,
    content: Hash -> Bytes,   // the blob each hash stands for
    honestRanges: bool)       // a 206 reply carries the requested slice

  datatype Request = Request(hash: Hash, offset: nat, size: nat)

  datatype Outcome = Data(bytes: Bytes) | FetchError

  datatype PC =
    | Start                       // size test, first cache_exists
    | FirstRead                   // read_cached after the first hit
    | Lock                        // mutex section that tests and inserts
    | Sleeping                    // in cvar.wait
    | Recheck                     // cache_exists while owning the hash
    | HitRelease                  // release site 1
    | HitRead                     // read_cached, no longer owning
    | RangeFetch                  // fetch_range
    | GotPartial(data: Bytes)     // 206: release site 2
    | GotFull(blob: Bytes)        // 200: verify_and_cache
    | BadBlob                     // release site 3
    | FullCheck                   // fetch_and_cache: cache_exists
    | FullRead                    // fetch_and_cache: read_cached
    | FullDownload                // fetch_and_cache: the request
    | FullVerify(blob: Bytes)     // fetch_and_cache: verify_and_cache
    | StaleRead                   // read_cached after a failed fetch
    | FetchFailed                 // release site 4
    | GotAll(blob: Bytes)         // release site 5
    | Evicting(blob: Bytes)       // evict_oldest, then slice
    | Done(outcome: Outcome)

  datatype Thread = Thread(req: Request, pc: PC)

  datatype State = State(
    threads: map<Tid, Thread>,
    inProgress: set<Hash>,
    cache: map<Hash, Bytes>,
    stored: seq<Hash>)            // every successful verify_and_cache, in order

  /** The part of a blob a read asks for: nothing past the end, else as many bytes as there are from the offset on. */
  function Slice(b: Bytes, offset: nat, size: nat): (r: Bytes)
    ensures |r| == if offset >= |b| then 0 else Min(size, |b| - offset)
    ensures forall i :: 0 <= i < |r| ==> r[i] == b[offset + i]
  {
    if offset >= |b| then [] else b[offset..Min(offset + size, |b|)]
  }

  /** Between inserting its hash and releasing it. */
  predicate Owns(pc: PC) {
    pc.Recheck? || pc.HitRelease? || Fetching(pc) || pc.BadBlob? || pc.FullRead? || pc.FetchFailed? || pc.GotAll?
  }

  /** Owning, with the outcome of the fetch still open or partial. */
  predicate Fetching(pc: PC) {
    pc.RangeFetch? || pc.GotPartial? || pc.GotFull? || pc.FullCheck? || pc.FullDownload? || pc.FullVerify? || pc.StaleRead?
  }

  // ---------- Steps; a cached file may be evicted, unlinked, or fail to be read ----------

  function Goto(s: State, t: Tid, pc: PC): State
    requires t in s.threads
  {
    s.(threads := s.threads[t := s.threads[t].(pc := pc)])
  }

  function Woken(th: Thread): Thread {
    if th.pc.Sleeping? then th.(pc := Lock) else th
  }

  /** Removes the hash and notifies everyone asleep, in one mutex section. */
  function Release(s: State, t: Tid, pc: PC): State
    requires t in s.threads
  {
    var moved := s.threads[t := s.threads[t].(pc := pc)];
    s.(threads := map u | u in moved :: Woken(moved[u]), inProgress := s.inProgress - {s.threads[t].req.hash})
  }

  /** verify_and_cache: stores only what hashes to the name; writing may fail. */
  predicate VerifyStep(cfg: Config, s: State, s': State, t: Tid, blob: Bytes, failed: PC)
    requires t in s.threads
  {
    var h := s.threads[t].req.hash;
    || (cfg.sha256(blob) == h
        && s' == Goto(s, t, GotAll(blob)).(cache := s.cache[h := blob], stored := s.stored + [h]))
    || s' == Goto(s, t, failed)
  }

  predicate HonestSlice(cfg: Config, req: Request, data: Bytes) {
    req.offset < |cfg.content(req.hash)| && data == Slice(cfg.content(req.hash), req.offset, req.size)
  }

  ghost predicate ThreadStep(cfg: Config, s: State, s': State, t: Tid) {
    t in s.threads &&
    var req := s.threads[t].req;
    var h := req.hash;
    match s.threads[t].pc
    case Start =>
      s' == Goto(s, t, if req.size == 0 then Done(Data([])) else if h in s.cache then FirstRead else Lock)
    case FirstRead =>
      || (h in s.cache && s' == Goto(s, t, Done(Data(Slice(s.cache[h], req.offset, req.size)))))
      || s' == Goto(s, t, Lock)
    case Lock =>
      if h in s.inProgress then s' == Goto(s, t, Sleeping)
      else s' == Goto(s, t, Recheck).(inProgress := s.inProgress + {h})
    case Sleeping => s' == Goto(s, t, Lock)  // a spurious wake-up
    case Recheck => s' == Goto(s, t, if h in s.cache then HitRelease else RangeFetch)
    case HitRelease => s' == Release(s, t, HitRead)
    case HitRead =>
      || (h in s.cache && s' == Goto(s, t, Done(Data(Slice(s.cache[h], req.offset, req.size)))))
      || s' == Goto(s, t, RangeFetch)
    case RangeFetch =>
      || (exists data :: (cfg.honestRanges ==> HonestSlice(cfg, req, data)) && s' == Goto(s, t, GotPartial(data)))
      || (exists blob :: s' == Goto(s, t, GotFull(blob)))
      || s' == Goto(s, t, FullCheck)
    case GotPartial(data) => s' == Release(s, t, Done(Data(data)))
    case GotFull(blob) => VerifyStep(cfg, s, s', t, blob, BadBlob)
    case BadBlob => s' == Release(s, t, Done(FetchError))
    case FullCheck => s' == Goto(s, t, if h in s.cache then FullRead else FullDownload)
    case FullRead =>
      || (h in s.cache && s' == Goto(s, t, GotAll(s.cache[h])))
      || s' == Goto(s, t, StaleRead)
    case FullDownload => (exists blob :: s' == Goto(s, t, FullVerify(blob))) || s' == Goto(s, t, StaleRead)
    case FullVerify(blob) => VerifyStep(cfg, s, s', t, blob, StaleRead)
    case StaleRead =>
      || (h in s.cache && s' == Goto(s, t, GotAll(s.cache[h])))
      || s' == Goto(s, t, FetchFailed)
    case FetchFailed => s' == Release(s, t, Done(FetchError))
    case GotAll(blob) => s' == Release(s, t, Evicting(blob))
    case Evicting(blob) =>
      exists gone: set<Hash> ::
        s' == Goto(s, t, Done(Data(Slice(blob, req.offset, req.size)))).(cache := s.cache - gone)
    case Done(_) => false
  }

  /** Eviction by others and unlink. */
  ghost predicate EnvStep(s: State, s': State) {
    exists gone: set<Hash> :: s' == s.(cache := s.cache - gone)
  }

  ghost predicate StepBy(cfg: Config, s: State, s': State, who: Option<Tid>) {
    match who
    case Some(t) => ThreadStep(cfg, s, s', t)
    case None => EnvStep(s, s')
  }

  ghost predicate Intact(cfg: Config, cache: map<Hash, Bytes>) {
    forall h :: h in cache ==> cfg.sha256(cache[h]) == h
  }

  /** Any number of readers about to start, nothing in progress, a cache of intact objects. */
  ghost predicate Init(cfg: Config, s: State) {
    && (forall t :: t in s.threads ==> s.threads[t].pc == Start)
    && s.inProgress == {} && s.stored == [] && Intact(cfg, s.cache)
  }

  ghost predicate Run(cfg: Config, states: seq<State>, who: seq<Option<Tid>>) {
    && |states| == |who| + 1
    && Init(cfg, states[0])
    && forall i {:trigger who[i]} :: 0 <= i < |who| ==> StepBy(cfg, states[i], states[i + 1], who[i])
  }

  // ---------- Exclusion ----------

  ghost predicate OwnsHash(s: State, t: Tid, h: Hash) {
    t in s.threads && Owns(s.threads[t].pc) && s.threads[t].req.hash == h
  }

  /** The set holds exactly the hashes owned by some reader, and no hash has two owners. */
  ghost predicate Exclusive(s: State) {
    && (forall h :: h in s.inProgress <==> exists t :: OwnsHash(s, t, h))
    && (forall h, t, u :: OwnsHash(s, t, h) && OwnsHash(s, u, h) ==> t == u)
  }

  /** Nobody sleeps on a hash that nobody owns. */
  ghost predicate NoLostWakeup(s: State) {
    forall t :: t in s.threads && s.threads[t].pc.Sleeping? ==> s.threads[t].req.hash in s.inProgress
  }
}

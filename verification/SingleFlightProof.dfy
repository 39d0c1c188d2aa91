/** Progress and correctness of remote reads, over every interleaving. */
module SingleFlightProof {
  import opened Wrappers
  import opened SingleFlight

  // ---------- Releasing ----------

  predicate ReleaseMove(pc: PC) {
    pc.HitRelease? || pc.GotPartial? || pc.BadBlob? || pc.FetchFailed? || pc.GotAll?
  }

  lemma ReleaseMoveReleases(cfg: Config, s: State, s': State, t: Tid)
    requires ThreadStep(cfg, s, s', t) && ReleaseMove(s.threads[t].pc)
    ensures t in s'.threads && s' == Release(s, t, s'.threads[t].pc)
    ensures
      var pc := s'.threads[t].pc;
      Owns(s.threads[t].pc) && !Owns(pc) && !pc.Sleeping? && (pc.HitRead? <==> s.threads[t].pc.HitRelease?)
  {
  }

  // ---------- Progress ----------

  ghost predicate CanStep(cfg: Config, s: State, t: Tid) {
    exists s' :: ThreadStep(cfg, s, s', t)
  }

  /** An owner can always move: a server or file failure is always a possible reply. */
  lemma OwnerCanStep(cfg: Config, s: State, t: Tid)
    requires t in s.threads && Owns(s.threads[t].pc)
    ensures CanStep(cfg, s, t)
  {
    var h := s.threads[t].req.hash;
    var s' :=
      match s.threads[t].pc
      case Recheck => Goto(s, t, if h in s.cache then HitRelease else RangeFetch)
      case HitRelease => Release(s, t, HitRead)
      case RangeFetch => Goto(s, t, FullCheck)
      case GotPartial(data) => Release(s, t, Done(Data(data)))
      case GotFull(_) => Goto(s, t, BadBlob)
      case BadBlob => Release(s, t, Done(FetchError))
      case FullCheck => Goto(s, t, if h in s.cache then FullRead else FullDownload)
      case FullRead => if h in s.cache then Goto(s, t, GotAll(s.cache[h])) else Goto(s, t, StaleRead)
      case FullDownload => Goto(s, t, StaleRead)
      case FullVerify(_) => Goto(s, t, StaleRead)
      case StaleRead => if h in s.cache then Goto(s, t, GotAll(s.cache[h])) else Goto(s, t, FetchFailed)
      case FetchFailed => Release(s, t, Done(FetchError))
      case GotAll(blob) => Release(s, t, Evicting(blob))
      case _ => s;
    assert ThreadStep(cfg, s, s', t);
  }

  /** Own steps an owner can still take before it must release. */
  function StepsLeft(pc: PC): nat {
    match pc
    case Recheck => 8
    case HitRelease => 1
    case RangeFetch => 7
    case GotPartial(_) => 1
    case GotFull(_) => 2
    case BadBlob => 1
    case FullCheck => 6
    case FullRead => 4
    case FullDownload => 5
    case FullVerify(_) => 4
    case StaleRead => 3
    case FetchFailed => 1
    case GotAll(_) => 1
    case _ => 0
  }

  lemma StepsLeftAtMost(pc: PC)
    ensures StepsLeft(pc) <= 8
  {
  }

  lemma OwnerAwake(pc: PC)
    requires Owns(pc)
    ensures !pc.Sleeping?
  {
  }

  function StepsOf(who: seq<Option<Tid>>, t: Tid): nat {
    if who == [] then 0 else StepsOf(who[..|who| - 1], t) + (if who[|who| - 1] == Some(t) then 1 else 0)
  }

  /** Every own step of an owner brings its release nearer; a step that ends ownership releases the hash. */
  lemma OwnStep(cfg: Config, s: State, s': State, t: Tid)
    requires ThreadStep(cfg, s, s', t) && Owns(s.threads[t].pc)
    ensures t in s'.threads && s'.threads[t].req == s.threads[t].req
    ensures Owns(s'.threads[t].pc) ==> StepsLeft(s'.threads[t].pc) < StepsLeft(s.threads[t].pc)
    ensures !Owns(s'.threads[t].pc) ==> s.threads[t].req.hash !in s'.inProgress
  {
  }

  lemma OthersLeaveAlone(cfg: Config, s: State, s': State, who: Option<Tid>, t: Tid)
    requires StepBy(cfg, s, s', who) && who != Some(t) && t in s.threads
    ensures t in s'.threads && s'.threads[t].req == s.threads[t].req
    ensures !s.threads[t].pc.Sleeping? ==> s'.threads[t].pc == s.threads[t].pc
  {
  }

  /**
   * Every exit path releases: whatever the others, the server and the cache do, a reader that still owns its hash
   * has taken at most eight own steps since it took it. Stated from any moment `i` of ownership to any later `j`.
   */
  lemma {:induction false} OwnershipIsShort(cfg: Config, states: seq<State>, who: seq<Option<Tid>>, i: nat, j: nat, t: Tid)
    requires Run(cfg, states, who) && i <= j < |states|
    requires forall k :: i <= k <= j ==> t in states[k].threads && Owns(states[k].threads[t].pc)
    ensures StepsOf(who[i..j], t) + StepsLeft(states[j].threads[t].pc) <= StepsLeft(states[i].threads[t].pc) <= 8
    decreases j
  {
    hide ThreadStep, EnvStep, Owns, Init, StepsLeft;
    StepsLeftAtMost(states[i].threads[t].pc);
    if i < j {
      OwnershipIsShort(cfg, states, who, i, j - 1, t);
      assert who[i..j][..j - i - 1] == who[i..j - 1];
      assert StepBy(cfg, states[j - 1], states[j], who[j - 1]);
      if who[j - 1] == Some(t) { OwnStep(cfg, states[j - 1], states[j], t); }
      else { OwnerAwake(states[j - 1].threads[t].pc); OthersLeaveAlone(cfg, states[j - 1], states[j], who[j - 1], t); }
    }
  }

  // ---------- What is read ----------

  ghost predicate NoCollision(cfg: Config, h: Hash) {
    forall b :: cfg.sha256(b) == h ==> b == cfg.content(h)
  }

  /** Whole blobs in hand hash to the requested name; partial data is what the server sent for the range. */
  ghost predicate Carries(cfg: Config, th: Thread) {
    match th.pc
    case GotAll(blob) => cfg.sha256(blob) == th.req.hash
    case Evicting(blob) => cfg.sha256(blob) == th.req.hash
    case GotPartial(data) => cfg.honestRanges ==> HonestSlice(cfg, th.req, data)
    case Done(Data(d)) =>
      || (exists b :: cfg.sha256(b) == th.req.hash && d == Slice(b, th.req.offset, th.req.size))
      || (th.req.size == 0 && d == [])
      || (cfg.honestRanges ==> HonestSlice(cfg, th.req, d))
    case _ => true
  }

  ghost predicate Sound(cfg: Config, s: State) {
    Intact(cfg, s.cache) && forall t :: t in s.threads ==> Carries(cfg, s.threads[t])
  }

  lemma SoundWith(cfg: Config, s: State, t: Tid, pc: PC, cache: map<Hash, Bytes>)
    requires Sound(cfg, s) && t in s.threads && Intact(cfg, cache) && Carries(cfg, s.threads[t].(pc := pc))
    ensures Sound(cfg, Release(s, t, pc))
    ensures forall held, stored :: Sound(cfg, Goto(s, t, pc).(cache := cache, inProgress := held, stored := stored))
  {
  }

  /** The next program counter of a sound reader carries sound data, and the cache stays intact. */
  lemma MoveShape(cfg: Config, s: State, s': State, t: Tid)
    requires ThreadStep(cfg, s, s', t)
    ensures t in s'.threads
    ensures s' == Goto(s, t, s'.threads[t].pc).(cache := s'.cache, inProgress := s'.inProgress, stored := s'.stored)
         || (s'.cache == s.cache && s' == Release(s, t, s'.threads[t].pc))
  {
  }

  lemma MoveCarries(cfg: Config, s: State, s': State, t: Tid)
    requires Sound(cfg, s) && ThreadStep(cfg, s, s', t)
    ensures t in s'.threads && Intact(cfg, s'.cache) && Carries(cfg, s.threads[t].(pc := s'.threads[t].pc))
  {
    assert Carries(cfg, s.threads[t]);
  }

  lemma StepKeepsSound(cfg: Config, s: State, s': State, who: Option<Tid>)
    requires Sound(cfg, s) && StepBy(cfg, s, s', who)
    ensures Sound(cfg, s')
  {
    if who.Some? {
      MoveCarries(cfg, s, s', who.value);
      MoveShape(cfg, s, s', who.value);
      hide ThreadStep, Carries, Intact;
      SoundWith(cfg, s, who.value, s'.threads[who.value].pc, s'.cache);
    }
  }

  lemma {:induction false} RunIsSound(cfg: Config, states: seq<State>, who: seq<Option<Tid>>, i: nat)
    requires Run(cfg, states, who) && i < |states|
    ensures Sound(cfg, states[i])
  {
    if i > 0 {
      RunIsSound(cfg, states, who, i - 1);
      StepKeepsSound(cfg, states[i - 1], states[i], who[i - 1]);
    }
  }

  /**
   * Reads refine slicing the blob: against a server whose range replies are honest, and for a hash without collisions,
   * every successful read, by whichever path, from a cache that others evict from or not, returns exactly the
   * requested slice of the blob. Full replies need not be honest: they are verified.
   */
  lemma ReadsAreSlices(cfg: Config, states: seq<State>, who: seq<Option<Tid>>, i: nat, t: Tid)
    requires cfg.honestRanges && Run(cfg, states, who) && i < |states|
    requires t in states[i].threads && NoCollision(cfg, states[i].threads[t].req.hash)
    ensures SliceRead(cfg, states[i].threads[t])
  {
    RunIsSound(cfg, states, who, i);
    var th := states[i].threads[t];
    assert Carries(cfg, th);
    if th.pc.Done? && th.pc.outcome.Data? { SliceIsRange(cfg.content(th.req.hash), th.req, th.pc.outcome.bytes); }
  }

  /** `data` is what a plain file holding `b` answers to the request, byte by byte. */
  ghost predicate IsRange(b: Bytes, req: Request, data: Bytes) {
    && |data| == (if req.offset >= |b| then 0 else Min(req.size, |b| - req.offset))
    && forall i :: 0 <= i < |data| ==> data[i] == b[req.offset + i]
  }

  lemma SliceIsRange(b: Bytes, req: Request, data: Bytes)
    ensures data == Slice(b, req.offset, req.size) <==> IsRange(b, req, data)
  {
    if IsRange(b, req, data) { assert data == Slice(b, req.offset, req.size); }
  }

  ghost predicate SliceRead(cfg: Config, th: Thread) {
    th.pc.Done? && th.pc.outcome.Data? ==> IsRange(cfg.content(th.req.hash), th.req, th.pc.outcome.bytes)
  }

  // ---------- What a read can do ----------

  /** A file that is there can be served at each of the four places that read the cache. */
  lemma CachedIsServed(cfg: Config, s: State, t: Tid, data: Bytes)
    requires t in s.threads && s.threads[t].req.hash in s.cache && IsRange(s.cache[s.threads[t].req.hash], s.threads[t].req, data)
    ensures s.threads[t].pc.FirstRead? || s.threads[t].pc.HitRead? ==> ThreadStep(cfg, s, Goto(s, t, Done(Data(data))), t)
    ensures s.threads[t].pc.FullRead? || s.threads[t].pc.StaleRead? ==>
      ThreadStep(cfg, s, Goto(s, t, GotAll(s.cache[s.threads[t].req.hash])), t)
  {
    SliceIsRange(s.cache[s.threads[t].req.hash], s.threads[t].req, data);
  }

  /** One reader, alone. */
  function Alone(req: Request, pc: PC, held: set<Hash>, cache: map<Hash, Bytes>, stored: seq<Hash>): State {
    State(map[0 := Thread(req, pc)], held, cache, stored)
  }

  /** A reader of something new takes its hash and asks the server for the range. */
  lemma AsksForRange(cfg: Config, req: Request) returns (states: seq<State>, who: seq<Option<Tid>>)
    requires req.size > 0
    ensures Run(cfg, states, who) && |states| == 4 && states[3] == Alone(req, RangeFetch, {req.hash}, map[], [])
  {
    var h := req.hash;
    states := [Alone(req, Start, {}, map[], []), Alone(req, Lock, {}, map[], []),
               Alone(req, Recheck, {h}, map[], []), Alone(req, RangeFetch, {h}, map[], [])];
    who := [Some(0), Some(0), Some(0)];
    assert {} + {h} == {h};
    forall i | 0 <= i < |who| ensures StepBy(cfg, states[i], states[i + 1], who[i]) {
    }
  }

  lemma Extend(cfg: Config, states: seq<State>, who: seq<Option<Tid>>, t: Tid, s': State)
    requires Run(cfg, states, who) && ThreadStep(cfg, states[|states| - 1], s', t)
    ensures Run(cfg, states + [s'], who + [Some(t)])
  {
    hide ThreadStep;
    var longer, movers := states + [s'], who + [Some(t)];
    forall i | 0 <= i < |movers| ensures StepBy(cfg, longer[i], longer[i + 1], movers[i]) {
      if i < |who| { assert StepBy(cfg, states[i], states[i + 1], who[i]); }
    }
  }

  /** With the whole blob verified, the reader releases its hash, evicts and answers the range; the blob is cached and stored once. */
  lemma Finishes(cfg: Config, req: Request, blob: Bytes, states: seq<State>, who: seq<Option<Tid>>)
    returns (longer: seq<State>, movers: seq<Option<Tid>>)
    requires Run(cfg, states, who) && cfg.sha256(blob) == req.hash
    requires states[|states| - 1].threads.Keys == {0} && states[|states| - 1].threads[0].req == req
    requires states[|states| - 1].threads[0].pc == GotFull(blob) || states[|states| - 1].threads[0].pc == FullVerify(blob)
    requires states[|states| - 1] == Alone(req, states[|states| - 1].threads[0].pc, {req.hash}, map[], [])
    ensures Run(cfg, longer, movers) && Served(req, blob, longer[|longer| - 1])
  {
    var h := req.hash;
    var s0 := states[|states| - 1];
    var s1 := Alone(req, GotAll(blob), {h}, map[h := blob], [h]);
    assert s1 == Goto(s0, 0, GotAll(blob)).(cache := s0.cache[h := blob], stored := s0.stored + [h]) by {
      assert [] + [h] == [h];
    }
    Extend(cfg, states, who, 0, s1);
    var s2 := Alone(req, Evicting(blob), {}, map[h := blob], [h]);
    assert s2 == Release(s1, 0, Evicting(blob)) by {
      assert {h} - {h} == {};
      assert s2.threads == Release(s1, 0, Evicting(blob)).threads;
    }
    Extend(cfg, states + [s1], who + [Some(0)], 0, s2);
    var s3 := Alone(req, Done(Data(Slice(blob, req.offset, req.size))), {}, map[h := blob], [h]);
    assert s3 == Goto(s2, 0, s3.threads[0].pc).(cache := s2.cache - {});
    Extend(cfg, states + [s1] + [s2], who + [Some(0)] + [Some(0)], 0, s3);
    longer, movers := states + [s1] + [s2] + [s3], who + [Some(0)] + [Some(0)] + [Some(0)];
  }

  ghost predicate Served(req: Request, blob: Bytes, s: State) {
    && s.threads.Keys == {0} && s.threads[0].req == req && s.threads[0].pc.Done? && s.threads[0].pc.outcome.Data?
    && IsRange(blob, req, s.threads[0].pc.outcome.bytes)
    && s.inProgress == {} && s.cache == map[req.hash := blob] && s.stored == [req.hash]
  }

  /** A server that ignores the range and sends the whole blob: it is verified, cached and answered from. */
  lemma FullReplyServes(cfg: Config, req: Request, blob: Bytes) returns (states: seq<State>, who: seq<Option<Tid>>)
    requires req.size > 0 && cfg.sha256(blob) == req.hash
    ensures Run(cfg, states, who) && Served(req, blob, states[|states| - 1])
  {
    states, who := AsksForRange(cfg, req);
    var s := Alone(req, GotFull(blob), {req.hash}, map[], []);
    assert s == Goto(states[3], 0, GotFull(blob));
    Extend(cfg, states, who, 0, s);
    states, who := Finishes(cfg, req, blob, states + [s], who + [Some(0)]);
  }

  /** A server whose range reply fails: the blob is downloaded whole, verified, cached and answered from. */
  lemma RefetchServes(cfg: Config, req: Request, blob: Bytes) returns (states: seq<State>, who: seq<Option<Tid>>)
    requires req.size > 0 && cfg.sha256(blob) == req.hash
    ensures Run(cfg, states, who) && Served(req, blob, states[|states| - 1])
  {
    states, who := AsksForRange(cfg, req);
    var s1 := Alone(req, FullCheck, {req.hash}, map[], []);
    assert s1 == Goto(states[3], 0, FullCheck);
    Extend(cfg, states, who, 0, s1);
    var s2 := Alone(req, FullDownload, {req.hash}, map[], []);
    assert s2 == Goto(s1, 0, FullDownload);
    Extend(cfg, states + [s1], who + [Some(0)], 0, s2);
    var s3 := Alone(req, FullVerify(blob), {req.hash}, map[], []);
    assert s3 == Goto(s2, 0, FullVerify(blob));
    Extend(cfg, states + [s1] + [s2], who + [Some(0)] + [Some(0)], 0, s3);
    states, who := Finishes(cfg, req, blob, states + [s1] + [s2] + [s3], who + [Some(0)] + [Some(0)] + [Some(0)]);
  }

  function Reader(h: Hash, pc: PC): Thread {
    Thread(Request(h, 0, 1), pc)
  }

  function Solo(h: Hash, pc: PC, held: set<Hash>): State {
    State(map[0 := Reader(h, pc)], held, map[], [])
  }

  /** A server may answer a range request with anything when ranges are not honest: nothing checks a 206 reply. */
  lemma DishonestRange(cfg: Config, h: Hash) returns (states: seq<State>, who: seq<Option<Tid>>)
    requires !cfg.honestRanges
    ensures Run(cfg, states, who) && |states| == 6
    ensures states[5].threads == map[0 := Reader(h, Done(Data([0, 0])))] && !SliceRead(cfg, states[5].threads[0])
  {
    states := [Solo(h, Start, {}), Solo(h, Lock, {}), Solo(h, Recheck, {h}), Solo(h, RangeFetch, {h}),
               Solo(h, GotPartial([0, 0]), {h}), Solo(h, Done(Data([0, 0])), {})];
    who := [Some(0), Some(0), Some(0), Some(0), Some(0)];
    forall i | 0 <= i < |who| ensures StepBy(cfg, states[i], states[i + 1], who[i]) {
      SoloStep(cfg, h, i, states[i], states[i + 1]);
    }
  }

  lemma SoloStep(cfg: Config, h: Hash, i: nat, s: State, s': State)
    requires !cfg.honestRanges && i < 5
    requires i == 0 ==> s == Solo(h, Start, {}) && s' == Solo(h, Lock, {})
    requires i == 1 ==> s == Solo(h, Lock, {}) && s' == Solo(h, Recheck, {h})
    requires i == 2 ==> s == Solo(h, Recheck, {h}) && s' == Solo(h, RangeFetch, {h})
    requires i == 3 ==> s == Solo(h, RangeFetch, {h}) && s' == Solo(h, GotPartial([0, 0]), {h})
    requires i == 4 ==> s == Solo(h, GotPartial([0, 0]), {h}) && s' == Solo(h, Done(Data([0, 0])), {})
    ensures ThreadStep(cfg, s, s', 0)
  {
    if i == 3 {
      assert s' == Goto(s, 0, GotPartial([0, 0]));
    } else if i == 4 {
      assert {h} - {h} == {};
      assert s'.threads == Release(s, 0, Done(Data([0, 0]))).threads;
    } else if i == 1 {
      assert {} + {h} == {h};
    }
  }

  function Pair(h: Hash, a: PC, b: PC, held: set<Hash>): State {
    State(map[0 := Reader(h, a), 1 := Reader(h, b)], held, map[h := []], [])
  }

  lemma PairStep(cfg: Config, h: Hash, i: nat, s: State, s': State)
    requires i < 9
    requires i == 0 ==> s == Pair(h, Start, Start, {}) && s' == Pair(h, FirstRead, Start, {})
    requires i == 1 ==> s == Pair(h, FirstRead, Start, {}) && s' == Pair(h, Lock, Start, {})
    requires i == 2 ==> s == Pair(h, Lock, Start, {}) && s' == Pair(h, Recheck, Start, {h})
    requires i == 3 ==> s == Pair(h, Recheck, Start, {h}) && s' == Pair(h, HitRelease, Start, {h})
    requires i == 4 ==> s == Pair(h, HitRelease, Start, {h}) && s' == Pair(h, HitRead, Start, {})
    requires i == 5 ==> s == Pair(h, HitRead, Start, {}) && s' == Pair(h, RangeFetch, Start, {})
    requires i == 6 ==> s == Pair(h, RangeFetch, Start, {}) && s' == Pair(h, RangeFetch, FirstRead, {})
    requires i == 7 ==> s == Pair(h, RangeFetch, FirstRead, {}) && s' == Pair(h, RangeFetch, Lock, {})
    requires i == 8 ==> s == Pair(h, RangeFetch, Lock, {}) && s' == Pair(h, RangeFetch, Recheck, {h})
    ensures ThreadStep(cfg, s, s', if i < 6 then 0 else 1)
  {
    if i == 2 || i == 8 {
      assert {} + {h} == {h};
    } else if i == 4 {
      assert {h} - {h} == {};
      assert s'.threads == Release(s, 0, HitRead).threads;
    }
  }

  /** Two readers end up fetching the same hash at once: the first released its hit before it could not read it. */
  lemma TwoOwners(cfg: Config) returns (states: seq<State>, who: seq<Option<Tid>>, h: Hash)
    ensures Run(cfg, states, who) && |states| == 10
    ensures OwnsHash(states[9], 0, h) && OwnsHash(states[9], 1, h)
  {
    h := cfg.sha256([]);
    states := [Pair(h, Start, Start, {}), Pair(h, FirstRead, Start, {}), Pair(h, Lock, Start, {}), Pair(h, Recheck, Start, {h}),
               Pair(h, HitRelease, Start, {h}), Pair(h, HitRead, Start, {}), Pair(h, RangeFetch, Start, {}),
               Pair(h, RangeFetch, FirstRead, {}), Pair(h, RangeFetch, Lock, {}), Pair(h, RangeFetch, Recheck, {h})];
    who := [Some(0), Some(0), Some(0), Some(0), Some(0), Some(0), Some(1), Some(1), Some(1)];
    forall i | 0 <= i < |who| ensures StepBy(cfg, states[i], states[i + 1], who[i]) {
      PairStep(cfg, h, i, states[i], states[i + 1]);
    }
  }
}

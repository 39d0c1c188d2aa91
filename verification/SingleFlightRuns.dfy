/** Which runs keep single flight, and which reads are right. */
module SingleFlightRuns {
  import opened Wrappers
  import opened SingleFlight
  import opened SingleFlightProof

  // ---------- Exclusion, run by run ----------

  /**
   * The hit found after locking is lost: the hash was released, the file could not be read, and the reader fetches
   * without owning the hash.
   */
  predicate LostHit(s: State, s': State, who: Option<Tid>) {
    && who.Some? && who.value in s.threads && who.value in s'.threads
    && s.threads[who.value].pc.HitRead? && s'.threads[who.value].pc.RangeFetch?
  }

  lemma LockMoves(cfg: Config, s: State, s': State, t: Tid)
    requires ThreadStep(cfg, s, s', t) && s.threads[t].pc == Lock
    ensures
      var h := s.threads[t].req.hash;
      s' == if h in s.inProgress then Goto(s, t, Sleeping) else Goto(s, t, Recheck).(inProgress := s.inProgress + {h})
  {
  }

  lemma OtherMoves(cfg: Config, s: State, s': State, t: Tid)
    requires ThreadStep(cfg, s, s', t) && s.threads[t].pc != Lock && !ReleaseMove(s.threads[t].pc)
    ensures t in s'.threads
    ensures
      var pc, pc' := s.threads[t].pc, s'.threads[t].pc;
      && s'.threads == Goto(s, t, pc').threads && s'.inProgress == s.inProgress
      && (if pc.HitRead? && pc'.RangeFetch? then !Owns(pc) && Owns(pc') else Owns(pc) == Owns(pc'))
  {
  }

  /** What one step of a reader does to the set: it inserts its own hash, releases it, or leaves the set alone. */
  lemma MoveOnSet(cfg: Config, s: State, s': State, t: Tid)
    requires ThreadStep(cfg, s, s', t)
    ensures t in s'.threads
    ensures
      var pc, pc', h := s.threads[t].pc, s'.threads[t].pc, s.threads[t].req.hash;
      if pc == Lock && h !in s.inProgress then s'.threads == Goto(s, t, Recheck).threads && s'.inProgress == s.inProgress + {h}
      else if ReleaseMove(pc) then
        s'.threads == Release(s, t, pc').threads && s'.inProgress == s.inProgress - {h} && Owns(pc) && !Owns(pc')
      else
        && s'.threads == Goto(s, t, pc').threads && s'.inProgress == s.inProgress
        && (if LostHit(s, s', Some(t)) then !Owns(pc) && Owns(pc') else Owns(pc) == Owns(pc'))
  {
    assert t in s.threads;
    hide ThreadStep;
    if s.threads[t].pc == Lock {
      LockMoves(cfg, s, s', t);
    } else if ReleaseMove(s.threads[t].pc) {
      ReleaseMoveReleases(cfg, s, s', t);
    } else {
      OtherMoves(cfg, s, s', t);
    }
  }

  lemma InitIsExclusive(cfg: Config, s: State)
    requires Init(cfg, s)
    ensures Exclusive(s) && NoLostWakeup(s) && Held(s)
  {
  }

  /** Exclusion depends on the readers and the set only. */
  lemma SameOwners(s: State, s': State)
    requires s'.inProgress == s.inProgress && forall u, h :: OwnsHash(s', u, h) <==> OwnsHash(s, u, h)
    ensures Exclusive(s) ==> Exclusive(s')
  {
    if Exclusive(s) {
      forall h ensures h in s'.inProgress <==> exists u :: OwnsHash(s', u, h) {
        if h in s.inProgress {
          var u :| OwnsHash(s, u, h);
          assert OwnsHash(s', u, h);
        }
      }
    }
  }

  lemma ExclusiveTake(s: State, s': State, t: Tid)
    requires Exclusive(s) && t in s.threads && !Owns(s.threads[t].pc) && s.threads[t].req.hash !in s.inProgress
    requires s'.threads == Goto(s, t, Recheck).threads && s'.inProgress == s.inProgress + {s.threads[t].req.hash}
    ensures Exclusive(s')
  {
    var mine := s.threads[t].req.hash;
    forall u, h ensures OwnsHash(s', u, h) <==> OwnsHash(s, u, h) || (u == t && h == mine) {
    }
    forall h ensures h in s'.inProgress <==> exists u :: OwnsHash(s', u, h) {
      if h in s.inProgress {
        var u :| OwnsHash(s, u, h);
        assert OwnsHash(s', u, h);
      }
      if h == mine { assert OwnsHash(s', t, h); }
    }
  }

  lemma ExclusiveRelease(s: State, s': State, t: Tid, pc: PC)
    requires Exclusive(s) && t in s.threads && Owns(s.threads[t].pc) && !Owns(pc)
    requires s'.threads == Release(s, t, pc).threads && s'.inProgress == s.inProgress - {s.threads[t].req.hash}
    ensures Exclusive(s')
  {
    var mine := s.threads[t].req.hash;
    assert OwnsHash(s, t, mine);
    forall u, h ensures OwnsHash(s', u, h) <==> OwnsHash(s, u, h) && u != t {
    }
    forall h ensures h in s'.inProgress <==> exists u :: OwnsHash(s', u, h) {
      if h in s.inProgress && h != mine {
        var u :| OwnsHash(s, u, h);
        assert OwnsHash(s', u, h);
      }
    }
  }

  /** A lost hit makes an owner the set does not know, or a second one. */
  lemma LostHitBreaks(s: State, s': State, t: Tid)
    requires Exclusive(s) && t in s.threads && t in s'.threads && !Owns(s.threads[t].pc) && Owns(s'.threads[t].pc)
    requires s'.inProgress == s.inProgress && s'.threads == Goto(s, t, s'.threads[t].pc).threads
    ensures !Exclusive(s')
  {
    var h := s.threads[t].req.hash;
    assert OwnsHash(s', t, h);
    if h in s.inProgress {
      var u :| OwnsHash(s, u, h);
      assert u != t && OwnsHash(s', u, h);
    }
  }

  /** One step from a state in which exclusion holds keeps it exactly unless a hit is lost. */
  lemma StepExclusiveIff(cfg: Config, s: State, s': State, who: Option<Tid>)
    requires Exclusive(s) && StepBy(cfg, s, s', who)
    ensures Exclusive(s') <==> !LostHit(s, s', who)
  {
    if who.None? {
      SameOwners(s, s');
    } else {
      var t := who.value;
      MoveOnSet(cfg, s, s', t);
      hide ThreadStep, Exclusive;
      var h := s.threads[t].req.hash;
      if s.threads[t].pc == Lock && h !in s.inProgress {
        ExclusiveTake(s, s', t);
      } else if ReleaseMove(s.threads[t].pc) {
        ExclusiveRelease(s, s', t, s'.threads[t].pc);
      } else if LostHit(s, s', who) {
        LostHitBreaks(s, s', t);
      } else {
        SameOwners(s, s');
      }
    }
  }

  ghost predicate ExclusiveUpTo(states: seq<State>, n: nat)
    requires n < |states|
  {
    forall i :: 0 <= i <= n ==> Exclusive(states[i])
  }

  ghost predicate NoLostHit(states: seq<State>, who: seq<Option<Tid>>, n: nat)
    requires n < |states| && |states| == |who| + 1
  {
    forall i :: 0 <= i < n ==> !LostHit(states[i], states[i + 1], who[i])
  }

  /**
   * Single flight, run by run: whatever is evicted, unlinked or unreadable, the shared set has held exactly the owned
   * hashes, each with one owner, all the way to state `n` if and only if no hit found after locking was lost on the way.
   */
  lemma {:induction false} ExclusionIff(cfg: Config, states: seq<State>, who: seq<Option<Tid>>, n: nat)
    requires Run(cfg, states, who) && n < |states|
    ensures ExclusiveUpTo(states, n) <==> NoLostHit(states, who, n)
    decreases n
  {
    hide ThreadStep, LostHit;
    if n == 0 {
      InitIsExclusive(cfg, states[0]);
      hide Exclusive;
    } else {
      hide Exclusive;
      ExclusionIff(cfg, states, who, n - 1);
      assert StepBy(cfg, states[n - 1], states[n], who[n - 1]);
      if ExclusiveUpTo(states, n - 1) { StepExclusiveIff(cfg, states[n - 1], states[n], who[n - 1]); }
      assert ExclusiveUpTo(states, n) <==> ExclusiveUpTo(states, n - 1) && Exclusive(states[n]);
      assert NoLostHit(states, who, n) <==> NoLostHit(states, who, n - 1) && !LostHit(states[n - 1], states[n], who[n - 1]);
    }
  }

  /** In its post-lock hit. */
  predicate InHit(s: State, t: Tid) {
    t in s.threads && (s.threads[t].pc.HitRelease? || s.threads[t].pc.HitRead?)
  }

  predicate Removed(s: State, s': State, h: Hash) {
    h in s.cache && h !in s'.cache
  }

  /** While reader `t` was in its hit, the file went. */
  ghost predicate WentMeanwhile(states: seq<State>, i: nat, t: Tid)
    requires i < |states|
  {
    exists j :: 0 <= j < i && InHit(states[j], t) && Removed(states[j], states[j + 1], states[j].threads[t].req.hash)
  }

  lemma HitMoves(cfg: Config, s: State, s': State, who: Option<Tid>, t: Tid)
    requires StepBy(cfg, s, s', who) && InHit(s', t)
    ensures t in s.threads && s'.threads[t].req == s.threads[t].req
    ensures InHit(s, t) || (s.threads[t].req.hash in s.cache && s.threads[t].req.hash in s'.cache)
  {
    if who != Some(t) {
      ThreadsStay(cfg, s, s', who, t);
      OthersLeaveAlone(cfg, s, s', who, t);
      if s.threads[t].pc.Sleeping? { WokenIsLock(cfg, s, s', who, t); }
    }
  }

  lemma {:induction false} HitIsThereOrWent(cfg: Config, states: seq<State>, who: seq<Option<Tid>>, i: nat, t: Tid)
    requires Run(cfg, states, who) && i < |states| && InHit(states[i], t)
    ensures states[i].threads[t].req.hash in states[i].cache || WentMeanwhile(states, i, t)
  {
    if i > 0 {
      assert StepBy(cfg, states[i - 1], states[i], who[i - 1]);
      HitMoves(cfg, states[i - 1], states[i], who[i - 1], t);
      hide ThreadStep;
      if InHit(states[i - 1], t) {
        HitIsThereOrWent(cfg, states, who, i - 1, t);
        assert Removed(states[i - 1], states[i], states[i].threads[t].req.hash) ==> WentMeanwhile(states, i, t);
      }
    }
  }

  /** A hit is lost only to a removal between finding the file and reading it, or to a failing read of a file that is there. */
  lemma LostHitCause(cfg: Config, states: seq<State>, who: seq<Option<Tid>>, i: nat, t: Tid)
    requires Run(cfg, states, who) && i < |who| && who[i] == Some(t) && LostHit(states[i], states[i + 1], who[i])
    ensures states[i].threads[t].req.hash in states[i].cache || WentMeanwhile(states, i, t)
  {
    HitIsThereOrWent(cfg, states, who, i, t);
  }

  // ---------- Downloads, run by run ----------

  /** Owning after the file was found missing, on the way to a store or to a failure. */
  predicate Downloading(pc: PC) {
    Fetching(pc) || pc.FullRead?
  }

  ghost predicate DownloadsMissing(s: State) {
    forall t :: t in s.threads && Downloading(s.threads[t].pc) ==> s.threads[t].req.hash !in s.cache
  }

  /** Either nothing is stored and files can only go, or one missing file is stored. */
  ghost predicate StoresMissing(s: State, s': State) {
    || (s'.stored == s.stored && s'.cache.Keys <= s.cache.Keys)
    || (exists h :: h !in s.cache && s'.cache.Keys == s.cache.Keys + {h} && s'.stored == s.stored + [h])
  }

  /** What one step does to the cache, and how a reader starts downloading. */
  lemma MoveOnCache(cfg: Config, s: State, s': State, t: Tid)
    requires ThreadStep(cfg, s, s', t)
    ensures t in s'.threads
    ensures
      var pc, pc', h := s.threads[t].pc, s'.threads[t].pc, s.threads[t].req.hash;
      && ((s'.cache.Keys <= s.cache.Keys && s'.stored == s.stored)
          || (Downloading(pc) && !Downloading(pc') && s'.cache.Keys == s.cache.Keys + {h} && s'.stored == s.stored + [h]))
      && (Downloading(pc') && !LostHit(s, s', Some(t)) ==> Downloading(pc) || h !in s.cache)
      && s'.threads[t].req == s.threads[t].req
  {
  }

  lemma StepDownloads(cfg: Config, s: State, s': State, who: Option<Tid>)
    requires Exclusive(s) && DownloadsMissing(s) && StepBy(cfg, s, s', who) && !LostHit(s, s', who)
    ensures DownloadsMissing(s') && StoresMissing(s, s')
  {
    if who.Some? { MoveOnCache(cfg, s, s', who.value); }
    forall u | u in s'.threads && Downloading(s'.threads[u].pc) ensures s'.threads[u].req.hash !in s'.cache {
      if who != Some(u) {
        ThreadsStay(cfg, s, s', who, u);
        OthersLeaveAlone(cfg, s, s', who, u);
        if s.threads[u].pc.Sleeping? { WokenIsLock(cfg, s, s', who, u); }
        hide ThreadStep;
        if who.Some? {
          assert OwnsHash(s, u, s.threads[u].req.hash);
          if Downloading(s.threads[who.value].pc) { assert OwnsHash(s, who.value, s.threads[who.value].req.hash); }
        }
      }
    }
  }

  /**
   * At most one download at a time is stored, run by run: as long as no hit has been lost, whoever downloads does so while
   * the file is missing, and each step stores at most one blob, whose file was missing.
   */
  lemma {:induction false} StoresOnlyMissing(cfg: Config, states: seq<State>, who: seq<Option<Tid>>, n: nat)
    requires Run(cfg, states, who) && n < |states| && NoLostHit(states, who, n)
    ensures DownloadsMissing(states[n])
    ensures n > 0 ==> StoresMissing(states[n - 1], states[n])
    decreases n
  {
    if n > 0 {
      hide ThreadStep, LostHit, Exclusive, DownloadsMissing, StoresMissing;
      assert NoLostHit(states, who, n - 1);
      StoresOnlyMissing(cfg, states, who, n - 1);
      ExclusionIff(cfg, states, who, n - 1);
      assert StepBy(cfg, states[n - 1], states[n], who[n - 1]);
      assert !LostHit(states[n - 1], states[n], who[n - 1]) && Exclusive(states[n - 1]);
      StepDownloads(cfg, states[n - 1], states[n], who[n - 1]);
    }
  }

  /** How often the file of `h` has come into the cache. */
  function Appearances(states: seq<State>, n: nat, h: Hash): nat
    requires n < |states|
  {
    if n == 0 then 0
    else Appearances(states, n - 1, h) + if h !in states[n - 1].cache && h in states[n].cache then 1 else 0
  }

  /** As long as no hit has been lost, a blob has been stored exactly as often as its file came into the cache: none in vain. */
  lemma {:induction false} StoresAreAppearances(cfg: Config, states: seq<State>, who: seq<Option<Tid>>, n: nat, h: Hash)
    requires Run(cfg, states, who) && n < |states| && NoLostHit(states, who, n)
    ensures multiset(states[n].stored)[h] == Appearances(states, n, h)
  {
    if n > 0 {
      hide ThreadStep, LostHit;
      assert NoLostHit(states, who, n - 1);
      StoresAreAppearances(cfg, states, who, n - 1, h);
      StoresOnlyMissing(cfg, states, who, n);
    }
  }

  /** Cached files stay, and a file that is there can be read after a hit. */
  ghost predicate Undisturbed(states: seq<State>, who: seq<Option<Tid>>, n: nat)
    requires n < |states| && |states| == |who| + 1
  {
    forall i :: 0 <= i < n ==>
      && states[i].cache.Keys <= states[i + 1].cache.Keys
      && (LostHit(states[i], states[i + 1], who[i]) ==> states[i].threads[who[i].value].req.hash !in states[i].cache)
  }

  lemma {:induction false} AppearsOnce(states: seq<State>, n: nat, h: Hash)
    requires n < |states| && forall i :: 0 <= i < n ==> states[i].cache.Keys <= states[i + 1].cache.Keys
    ensures Appearances(states, n, h) == if h !in states[0].cache && h in states[n].cache then 1 else 0
    ensures h in states[0].cache ==> h in states[n].cache
  {
    if n > 0 { AppearsOnce(states, n - 1, h); }
  }

  lemma NothingWent(states: seq<State>, i: nat, t: Tid)
    requires i < |states| && forall j :: 0 <= j < i ==> states[j].cache.Keys <= states[j + 1].cache.Keys
    ensures !WentMeanwhile(states, i, t)
  {
  }

  /** In an undisturbed run exclusion holds throughout, and exactly the files that were not there before were stored, once. */
  lemma UndisturbedStoresOnce(cfg: Config, states: seq<State>, who: seq<Option<Tid>>, n: nat, h: Hash)
    requires Run(cfg, states, who) && n < |states| && Undisturbed(states, who, n)
    ensures ExclusiveUpTo(states, n)
    ensures multiset(states[n].stored)[h] == if h !in states[0].cache && h in states[n].cache then 1 else 0
  {
    hide ThreadStep;
    forall i | 0 <= i < n ensures !LostHit(states[i], states[i + 1], who[i]) {
      if LostHit(states[i], states[i + 1], who[i]) {
        var t := who[i].value;
        LostHitCause(cfg, states, who, i, t);
        NothingWent(states, i, t);
      }
    }
    ExclusionIff(cfg, states, who, n);
    StoresAreAppearances(cfg, states, who, n, h);
    AppearsOnce(states, n, h);
  }

  // ---------- Waiting, run by run ----------

  lemma MoveOnSleepers(cfg: Config, s: State, s': State, t: Tid)
    requires ThreadStep(cfg, s, s', t) && NoLostWakeup(s)
    ensures NoLostWakeup(s')
  {
    MoveOnSet(cfg, s, s', t);
    assert s'.threads[t].pc.Sleeping? ==> s.threads[t].pc == Lock && s.threads[t].req.hash in s.inProgress;
    hide ThreadStep;
  }

  /** Nobody ever sleeps on a hash that is not in the set: every removal wakes all sleepers. */
  lemma {:induction false} NeverLostWakeup(cfg: Config, states: seq<State>, who: seq<Option<Tid>>, i: nat)
    requires Run(cfg, states, who) && i < |states|
    ensures NoLostWakeup(states[i])
  {
    if i == 0 {
      InitIsExclusive(cfg, states[0]);
    } else {
      NeverLostWakeup(cfg, states, who, i - 1);
      assert StepBy(cfg, states[i - 1], states[i], who[i - 1]);
      hide ThreadStep;
      if who[i - 1].Some? { MoveOnSleepers(cfg, states[i - 1], states[i], who[i - 1].value); }
    }
  }

  /** Every hash in the set has an owner, lost hits or not. */
  ghost predicate Held(s: State) {
    forall h :: h in s.inProgress ==> exists t :: OwnsHash(s, t, h)
  }

  lemma StepKeepsHeld(cfg: Config, s: State, s': State, who: Option<Tid>)
    requires Held(s) && StepBy(cfg, s, s', who)
    ensures Held(s')
  {
    if who.Some? { MoveOnSet(cfg, s, s', who.value); }
    hide ThreadStep;
    forall h | h in s'.inProgress ensures exists u :: OwnsHash(s', u, h) {
      if h in s.inProgress {
        var u :| OwnsHash(s, u, h);
        assert OwnsHash(s', u, h);
      } else {
        assert OwnsHash(s', who.value, h);
      }
    }
  }

  lemma {:induction false} AlwaysHeld(cfg: Config, states: seq<State>, who: seq<Option<Tid>>, i: nat)
    requires Run(cfg, states, who) && i < |states|
    ensures Held(states[i])
  {
    if i == 0 {
      InitIsExclusive(cfg, states[0]);
    } else {
      AlwaysHeld(cfg, states, who, i - 1);
      assert StepBy(cfg, states[i - 1], states[i], who[i - 1]);
      hide ThreadStep;
      StepKeepsHeld(cfg, states[i - 1], states[i], who[i - 1]);
    }
  }

  /** In every run, also after a lost hit, whoever sleeps does so on a hash with another, live owner that can move. */
  lemma WaiterHasOwner(cfg: Config, states: seq<State>, who: seq<Option<Tid>>, i: nat, t: Tid)
    requires Run(cfg, states, who) && i < |states|
    requires t in states[i].threads && states[i].threads[t].pc.Sleeping?
    ensures exists u :: u != t && OwnsHash(states[i], u, states[i].threads[t].req.hash) && CanStep(cfg, states[i], u)
  {
    AlwaysHeld(cfg, states, who, i);
    NeverLostWakeup(cfg, states, who, i);
    var u :| OwnsHash(states[i], u, states[i].threads[t].req.hash);
    OwnerCanStep(cfg, states[i], u);
  }

  // ---------- What is read, read by read ----------

  /** Every reader that has set out asked for at least one byte, so the last byte of its range is not before the first. */
  ghost predicate AsksSomething(th: Thread) {
    th.pc.Start? || th.pc == Done(Data([])) || th.req.size > 0
  }

  lemma StepAsksSomething(cfg: Config, s: State, s': State, who: Option<Tid>, t: Tid)
    requires StepBy(cfg, s, s', who) && t in s.threads && AsksSomething(s.threads[t])
    ensures t in s'.threads && AsksSomething(s'.threads[t])
  {
    if who != Some(t) { OthersLeaveAlone(cfg, s, s', who, t); }
  }

  /** An empty request is answered with nothing at once: no reader past the start ever asks the server for an empty range. */
  lemma {:induction false} NoEmptyRange(cfg: Config, states: seq<State>, who: seq<Option<Tid>>, i: nat, t: Tid)
    requires Run(cfg, states, who) && i < |states| && t in states[i].threads
    ensures AsksSomething(states[i].threads[t])
  {
    if i > 0 {
      assert StepBy(cfg, states[i - 1], states[i], who[i - 1]);
      ThreadsStay(cfg, states[i - 1], states[i], who[i - 1], t);
      hide ThreadStep;
      NoEmptyRange(cfg, states, who, i - 1, t);
      StepAsksSomething(cfg, states[i - 1], states[i], who[i - 1], t);
    }
  }

  /** A slice of a blob that hashes to the requested name, or the empty answer to an empty request. */
  ghost predicate Verified(cfg: Config, req: Request, d: Bytes) {
    || (exists b :: cfg.sha256(b) == req.hash && d == Slice(b, req.offset, req.size))
    || (req.size == 0 && d == [])
  }

  /** The ways a read can end with data, one step before. */
  lemma FinishingStep(cfg: Config, s: State, s': State, t: Tid)
    requires Sound(cfg, s) && ThreadStep(cfg, s, s', t)
    ensures t in s'.threads && s'.threads[t].req == s.threads[t].req && !s.threads[t].pc.Done?
    ensures
      var pc, pc' := s.threads[t].pc, s'.threads[t].pc;
      && (pc.GotPartial? ==> pc' == Done(Data(pc.data)))
      && (pc'.Done? && pc'.outcome.Data? && !pc.GotPartial? ==> Verified(cfg, s.threads[t].req, pc'.outcome.bytes))
  {
    assert Carries(cfg, s.threads[t]);
  }

  /** Up to now reader `t` has seen no other partial reply than `data`. */
  ghost predicate OnlyPartial(states: seq<State>, i: nat, t: Tid, data: Bytes)
    requires i <= |states|
  {
    forall j :: 0 <= j < i && t in states[j].threads && states[j].threads[t].pc.GotPartial? ==> states[j].threads[t].pc.data == data
  }

  ghost predicate NoPartial(states: seq<State>, i: nat, t: Tid)
    requires i <= |states|
  {
    forall j :: 0 <= j < i && t in states[j].threads ==> !states[j].threads[t].pc.GotPartial?
  }

  /** What the history of partial replies says about a reader's state. */
  ghost predicate Told(cfg: Config, states: seq<State>, i: nat, t: Tid)
    requires i < |states|
  {
    t in states[i].threads ==>
      var th := states[i].threads[t];
      match th.pc
      case Done(Data(d)) => OnlyPartial(states, i, t, d) && (NoPartial(states, i, t) ==> Verified(cfg, th.req, d))
      case GotPartial(data) => OnlyPartial(states, i, t, data)
      case _ => NoPartial(states, i, t)
  }

  /** One state more of history, for one candidate reply. */
  lemma Extended(states: seq<State>, j: nat, i: nat, t: Tid, d: Bytes)
    requires j < |states| && i == j + 1
    ensures
      var partial := t in states[j].threads && states[j].threads[t].pc.GotPartial?;
      && (NoPartial(states, i, t) <==> NoPartial(states, j, t) && !partial)
      && (OnlyPartial(states, i, t, d) <==> OnlyPartial(states, j, t, d) && (partial ==> states[j].threads[t].pc.data == d))
      && (NoPartial(states, j, t) ==> OnlyPartial(states, j, t, d)) && (NoPartial(states, i, t) ==> OnlyPartial(states, i, t, d))
  {
  }

  lemma ThreadsStay(cfg: Config, s: State, s': State, who: Option<Tid>, t: Tid)
    requires StepBy(cfg, s, s', who)
    ensures t in s.threads <==> t in s'.threads
  {
    if who.Some? { MoveOnSet(cfg, s, s', who.value); }
  }

  function DataOf(pc: PC): Bytes {
    match pc
    case Done(Data(d)) => d
    case GotPartial(data) => data
    case _ => []
  }

  /** How a reader's program counter may change, by its own step or by another's. */
  ghost predicate Moved(cfg: Config, req: Request, pc: PC, pc': PC) {
    if pc.GotPartial? then pc' == pc || pc' == Done(Data(pc.data))
    else if pc.Done? then pc' == pc
    else pc'.Done? && pc'.outcome.Data? ==> Verified(cfg, req, pc'.outcome.bytes)
  }

  lemma Moves(cfg: Config, s: State, s': State, who: Option<Tid>, t: Tid)
    requires Sound(cfg, s) && StepBy(cfg, s, s', who) && t in s.threads
    ensures t in s'.threads && s'.threads[t].req == s.threads[t].req
    ensures Moved(cfg, s.threads[t].req, s.threads[t].pc, s'.threads[t].pc)
  {
    hide Sound, Verified;
    if who == Some(t) {
      FinishingStep(cfg, s, s', t);
    } else {
      OthersLeaveAlone(cfg, s, s', who, t);
      if s.threads[t].pc.Sleeping? { WokenIsLock(cfg, s, s', who, t); }
    }
    hide ThreadStep;
  }

  lemma ToldStep(cfg: Config, states: seq<State>, j: nat, i: nat, t: Tid)
    requires i < |states| && i == j + 1 && Told(cfg, states, j, t)
    requires t in states[i].threads ==>
      && t in states[j].threads && states[i].threads[t].req == states[j].threads[t].req
      && Moved(cfg, states[j].threads[t].req, states[j].threads[t].pc, states[i].threads[t].pc)
    ensures Told(cfg, states, i, t)
  {
    if t in states[i].threads {
      Extended(states, j, i, t, DataOf(states[i].threads[t].pc));
      hide NoPartial, OnlyPartial, Verified;
      var pc, pc' := states[j].threads[t].pc, states[i].threads[t].pc;
      if pc.Done? {
      } else if pc.GotPartial? {
        assert OnlyPartial(states, j, t, pc.data);
      } else {
        assert NoPartial(states, i, t);
      }
    }
  }

  lemma {:induction false} RunTells(cfg: Config, states: seq<State>, who: seq<Option<Tid>>, i: nat, t: Tid)
    requires Run(cfg, states, who) && i < |states|
    ensures Told(cfg, states, i, t)
  {
    if i > 0 {
      RunTells(cfg, states, who, i - 1, t);
      RunIsSound(cfg, states, who, i - 1);
      hide ThreadStep, Told, Moved, Sound;
      assert StepBy(cfg, states[i - 1], states[i], who[i - 1]);
      ThreadsStay(cfg, states[i - 1], states[i], who[i - 1], t);
      if t in states[i].threads { Moves(cfg, states[i - 1], states[i], who[i - 1], t); }
      ToldStep(cfg, states, i - 1, i, t);
    }
  }

  lemma WokenIsLock(cfg: Config, s: State, s': State, who: Option<Tid>, t: Tid)
    requires StepBy(cfg, s, s', who) && who != Some(t) && t in s.threads && s.threads[t].pc.Sleeping?
    ensures t in s'.threads && (s'.threads[t].pc.Sleeping? || s'.threads[t].pc.Lock?)
  {
  }

  /**
   * Reads, one by one: for a hash without collisions a finished read is the requested slice of the blob if and only if
   * every partial reply its reader was given was that slice. A read without one is always right, also against a
   * dishonest server and with a cache that loses files.
   */
  lemma ReadIsSliceIff(cfg: Config, states: seq<State>, who: seq<Option<Tid>>, i: nat, t: Tid)
    requires Run(cfg, states, who) && i < |states| && t in states[i].threads
    requires states[i].threads[t].pc.Done? && states[i].threads[t].pc.outcome.Data?
    requires NoCollision(cfg, states[i].threads[t].req.hash)
    ensures
      var req := states[i].threads[t].req;
      SliceRead(cfg, states[i].threads[t]) <==>
        OnlyPartial(states, i, t, Slice(cfg.content(req.hash), req.offset, req.size))
  {
    RunTells(cfg, states, who, i, t);
    var req, d := states[i].threads[t].req, states[i].threads[t].pc.outcome.bytes;
    SliceIsRange(cfg.content(req.hash), req, d);
    if NoPartial(states, i, t) {
      assert Verified(cfg, req, d);
    }
  }
}

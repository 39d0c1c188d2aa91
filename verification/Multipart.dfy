/** Resumable multipart upload: one content's session across failures, crashes and restarts. */
module Multipart {
  import opened Wrappers

  type Bytes = seq<Byte>

  // ---------- Cutting and joining ----------

  predicate CanCut(data: Bytes, chunkSize: nat, part: nat) {
    part >= 1 && (part - 1) * chunkSize <= |data|
  }

  /** The slice sent as part number `part`, counted from one; the slice expression panics unless `CanCut`. */
  function Chunk(data: Bytes, chunkSize: nat, part: nat): Bytes
    requires CanCut(data, chunkSize, part)
  {
    var offset := (part - 1) * chunkSize;
    data[offset..Min(offset + chunkSize, |data|)]
  }

  /** Parts 1 to `n` in order. */
  function Joined(parts: map<nat, Bytes>, n: nat): Bytes
    requires forall p :: 1 <= p <= n ==> p in parts
  {
    if n == 0 then [] else Joined(parts, n - 1) + parts[n]
  }

  /** Every held part is the chunk of that number. */
  ghost predicate Chunks(data: Bytes, chunkSize: nat, parts: map<nat, Bytes>) {
    forall p :: p in parts ==> CanCut(data, chunkSize, p) && parts[p] == Chunk(data, chunkSize, p)
  }

  lemma Extend(data: Bytes, offset: nat, size: nat)
    requires offset <= |data|
    ensures data[..offset] + data[offset..Min(offset + size, |data|)] == data[..Min(offset + size, |data|)]
  {
  }

  lemma ChunkExtends(data: Bytes, chunkSize: nat, n: nat)
    requires n >= 1 && CanCut(data, chunkSize, n)
    ensures data[..Min((n - 1) * chunkSize, |data|)] + Chunk(data, chunkSize, n) == data[..Min(n * chunkSize, |data|)]
  {
    var offset := (n - 1) * chunkSize;
    assert offset + chunkSize == n * chunkSize;
    Extend(data, offset, chunkSize);
  }

  lemma {:induction false} JoinedIsPrefix(data: Bytes, chunkSize: nat, parts: map<nat, Bytes>, n: nat)
    requires Chunks(data, chunkSize, parts) && forall p :: 1 <= p <= n ==> p in parts
    ensures Joined(parts, n) == data[..Min(n * chunkSize, |data|)]
  {
    if n == 0 {
      assert Min(n * chunkSize, |data|) == 0;
    } else {
      assert n in parts && CanCut(data, chunkSize, n) && parts[n] == Chunk(data, chunkSize, n);
      hide CanCut, Chunk;
      JoinedIsPrefix(data, chunkSize, parts, n - 1);
      ChunkExtends(data, chunkSize, n);
    }
  }

  // ---------- The protocol ----------

  datatype Session = Session(uploadId: nat, chunkSize: nat, totalChunks: U32, uploadedParts: set<nat>) {
    /** The source's test compares counts only. */
    predicate IsComplete() {
      |uploadedParts| % 0x1_0000_0000 == totalChunks
    }
  }

  /** The session file. A write cut short by a crash or a full disk leaves text that does not parse. */
  datatype SessionFile = Missing | Saved(session: Session) | Unreadable

  datatype Client = Idle | Running(session: Session, next: nat) | Panicked

  datatype Upload = Upload(chunkSize: nat, totalChunks: U32, parts: map<nat, Bytes>)

  /** A call of `complete`: what the server assembled, or nothing if it lacks a part. */
  datatype Completion = Completion(uploadId: nat, content: Option<Bytes>)

  /** Upload numbers index `server`. */
  datatype State = State(client: Client, file: SessionFile, server: seq<Upload>, completions: seq<Completion>)

  datatype Init = Init(chunkSize: nat, totalChunks: U32)

  datatype SaveOutcome = SaveOk | SaveFailed | SaveTorn

  datatype PutOutcome = Rejected | AckLost | Acked

  /** A crash between two effects of one step shows as the outcome in which the later effect did not happen. */
  datatype Event =
    | Begin(expired: bool, removed: bool, granted: Option<Init>, firstSave: SaveOutcome)
    | Part(put: PutOutcome, save: SaveOutcome)
    | Complete(reached: bool, acked: bool, deleted: bool)
    | Crash

  const START := State(Idle, Missing, [], [])

  predicate Enabled(s: State, e: Event) {
    match e
    case Begin(_, _, _, _) => s.client.Idle?
    case Part(_, _) => s.client.Running? && s.client.next <= s.client.session.totalChunks
    case Complete(_, _, _) => s.client.Running? && s.client.next > s.client.session.totalChunks
    case Crash => true
  }

  function Write(file: SessionFile, session: Session, outcome: SaveOutcome): SessionFile {
    match outcome
    case SaveOk => Saved(session)
    case SaveFailed => file
    case SaveTorn => Unreadable
  }

  /** Asking for a new upload and saving the fresh session; if that save fails the call returns the error. */
  function Fresh(s: State, granted: Option<Init>, save: SaveOutcome): State {
    match granted
    case None => s
    case Some(init) =>
      var session := Session(|s.server|, init.chunkSize, init.totalChunks, {});
      State(if save == SaveOk then Running(session, 1) else Idle, Write(s.file, session, save),
            s.server + [Upload(init.chunkSize, init.totalChunks, map[])], s.completions)
  }

  function StorePart(server: seq<Upload>, uploadId: nat, part: nat, bytes: Bytes): seq<Upload> {
    if uploadId >= |server| then server
    else server[uploadId := server[uploadId].(parts := server[uploadId].parts[part := bytes])]
  }

  predicate HoldsAll(upload: Upload) {
    forall p :: 1 <= p <= upload.totalChunks ==> p in upload.parts
  }

  function Assemble(server: seq<Upload>, uploadId: nat): Option<Bytes> {
    if uploadId < |server| && HoldsAll(server[uploadId])
    then Some(Joined(server[uploadId].parts, server[uploadId].totalChunks)) else None
  }

  function Step(data: Bytes, s: State, e: Event): State
    requires Enabled(s, e)
  {
    match e
    case Begin(expired, removed, granted, save) => (
      match s.file
      case Unreadable => s
      case Missing => Fresh(s, granted, save)
      case Saved(session) =>
        if expired then Fresh(if removed then s.(file := Missing) else s, granted, save)
        else s.(client := Running(session, 1)))
    case Part(put, save) =>
      var Running(session, part) := s.client;
      if part in session.uploadedParts then s.(client := Running(session, part + 1))
      else if !CanCut(data, session.chunkSize, part) then s.(client := Panicked)
      else if put == Rejected then s.(client := Idle)
      else
        var stored := s.(server := StorePart(s.server, session.uploadId, part, Chunk(data, session.chunkSize, part)));
        if put == AckLost then stored.(client := Idle)
        else
          var grown := session.(uploadedParts := session.uploadedParts + {part});
          stored.(client := Running(grown, part + 1), file := Write(s.file, grown, save))
    case Complete(reached, acked, deleted) =>
      var id := s.client.session.uploadId;
      var completions := if reached then s.completions + [Completion(id, Assemble(s.server, id))] else s.completions;
      var done := reached && acked && Assemble(s.server, id).Some?;
      State(Idle, if done && deleted then Missing else s.file, s.server, completions)
    case Crash => s.(client := Idle)
  }

  function Run(data: Bytes, s: State, events: seq<Event>): State
    requires Legal(data, s, events)
    decreases |events|
  {
    if events == [] then s else Run(data, Step(data, s, events[0]), events[1..])
  }

  predicate Legal(data: Bytes, s: State, events: seq<Event>)
    decreases |events|
  {
    events == [] || (Enabled(s, events[0]) && Legal(data, Step(data, s, events[0]), events[1..]))
  }

  // ---------- The invariant ----------

  /** The session knows its upload, and every part it lists is held by the server. */
  ghost predicate Backed(session: Session, server: seq<Upload>) {
    && session.uploadId < |server|
    && session.chunkSize == server[session.uploadId].chunkSize && session.totalChunks == server[session.uploadId].totalChunks
    && forall p :: p in session.uploadedParts ==> 1 <= p <= session.totalChunks && p in server[session.uploadId].parts
  }

  ghost predicate UploadsHoldChunks(data: Bytes, server: seq<Upload>) {
    forall u :: 0 <= u < |server| ==> Chunks(data, server[u].chunkSize, server[u].parts)
  }

  /** All parts up to `next` are done. */
  ghost predicate Progress(session: Session, next: nat) {
    1 <= next <= session.totalChunks + 1 && forall p :: 1 <= p < next ==> p in session.uploadedParts
  }

  /** A completion happened with every part held, and carries the leading bytes of the data. */
  ghost predicate CompletedWhole(data: Bytes, server: seq<Upload>, c: Completion) {
    && c.uploadId < |server| && HoldsAll(server[c.uploadId])
    && c.content == Some(data[..Min(server[c.uploadId].totalChunks * server[c.uploadId].chunkSize, |data|)])
  }

  ghost predicate Inv(data: Bytes, s: State) {
    && UploadsHoldChunks(data, s.server)
    && (s.file.Saved? ==> Backed(s.file.session, s.server))
    && (s.client.Running? ==> Backed(s.client.session, s.server) && Progress(s.client.session, s.client.next))
    && forall i :: 0 <= i < |s.completions| ==> CompletedWhole(data, s.server, s.completions[i])
  }

  /** The server only gains: uploads are added, parts are added. */
  ghost predicate Gains(before: seq<Upload>, after: seq<Upload>) {
    && |before| <= |after|
    && forall u :: 0 <= u < |before| ==>
         && before[u].chunkSize == after[u].chunkSize && before[u].totalChunks == after[u].totalChunks
         && before[u].parts.Keys <= after[u].parts.Keys
  }

  lemma StepGains(data: Bytes, s: State, e: Event)
    requires Enabled(s, e)
    ensures Gains(s.server, Step(data, s, e).server)
  {
  }

  lemma StepHoldsChunks(data: Bytes, s: State, e: Event)
    requires Enabled(s, e) && Inv(data, s)
    ensures UploadsHoldChunks(data, Step(data, s, e).server)
  {
  }

  lemma AssembledWhole(data: Bytes, s: State)
    requires Inv(data, s) && s.client.Running? && s.client.next > s.client.session.totalChunks
    ensures CompletedWhole(data, s.server, Completion(s.client.session.uploadId, Assemble(s.server, s.client.session.uploadId)))
  {
    var upload := s.server[s.client.session.uploadId];
    assert HoldsAll(upload);
    JoinedIsPrefix(data, upload.chunkSize, upload.parts, upload.totalChunks);
  }

  lemma GainsKeep(data: Bytes, before: seq<Upload>, after: seq<Upload>, session: Session, c: Completion)
    requires Gains(before, after)
    ensures Backed(session, before) ==> Backed(session, after)
    ensures CompletedWhole(data, before, c) ==> CompletedWhole(data, after, c)
  {
  }

  lemma StepKeepsSessions(data: Bytes, s: State, e: Event)
    requires Inv(data, s) && Enabled(s, e)
    ensures
      var after := Step(data, s, e);
      && (after.file.Saved? ==> Backed(after.file.session, after.server))
      && (after.client.Running? ==> Backed(after.client.session, after.server) && Progress(after.client.session, after.client.next))
  {
    StepGains(data, s, e);
    hide UploadsHoldChunks, CompletedWhole, Joined, Chunk;
  }

  lemma StepKeepsInv(data: Bytes, s: State, e: Event)
    requires Inv(data, s) && Enabled(s, e)
    ensures Inv(data, Step(data, s, e))
  {
    StepGains(data, s, e);
    StepHoldsChunks(data, s, e);
    StepKeepsSessions(data, s, e);
    if e.Complete? { AssembledWhole(data, s); }
    var after := Step(data, s, e);
    hide UploadsHoldChunks, CompletedWhole, Gains, Backed, Progress, Assemble;
    forall i | 0 <= i < |after.completions| ensures CompletedWhole(data, after.server, after.completions[i]) {
      if i < |s.completions| {
        GainsKeep(data, s.server, after.server, Session(0, 0, 0, {}), s.completions[i]);
      }
    }
  }

  lemma {:induction false} RunKeepsInv(data: Bytes, s: State, events: seq<Event>)
    requires Inv(data, s) && Legal(data, s, events)
    ensures Inv(data, Run(data, s, events))
    decreases |events|
  {
    if events == [] {
    } else {
      StepKeepsInv(data, s, events[0]);
      RunKeepsInv(data, Step(data, s, events[0]), events[1..]);
    }
  }

  // ---------- Main results ----------

  /** Crash safety: over every run the saved session lists only parts the server holds. */
  lemma SavedPartsAreHeld(data: Bytes, events: seq<Event>)
    requires Legal(data, START, events)
    ensures
      var s := Run(data, START, events);
      s.file.Saved? ==>
        && s.file.session.uploadId < |s.server|
        && s.file.session.uploadedParts <= s.server[s.file.session.uploadId].parts.Keys
  {
    RunKeepsInv(data, START, events);
  }

  /** `complete` is called only with every part held, and yields the data exactly when the chunks cover it. */
  lemma CompletesWithTheData(data: Bytes, events: seq<Event>, i: nat)
    requires Legal(data, START, events) && i < |Run(data, START, events).completions|
    ensures
      var s := Run(data, START, events);
      var c := s.completions[i];
      && c.uploadId < |s.server|
      && var upload := s.server[c.uploadId];
         && HoldsAll(upload)
         && (c.content == Some(data) <==> upload.totalChunks * upload.chunkSize >= |data|)
  {
    RunKeepsInv(data, START, events);
    var s := Run(data, START, events);
    var c := s.completions[i];
    assert CompletedWhole(data, s.server, c);
    var n := s.server[c.uploadId].totalChunks * s.server[c.uploadId].chunkSize;
    if n >= |data| { assert data[..|data|] == data; }
  }

  /** The server's cut: every part starts within the data. */
  predicate CutFits(data: Bytes, init: Init) {
    init.totalChunks == 0 || (init.totalChunks - 1) * init.chunkSize <= |data|
  }

  /** Cutting every part is safe exactly when the last one starts within the data, as with `ceil(len / chunkSize)` parts. */
  lemma CutsAreSafeIff(data: Bytes, init: Init)
    ensures (forall p :: 1 <= p <= init.totalChunks ==> CanCut(data, init.chunkSize, p)) <==> CutFits(data, init)
  {
    if CutFits(data, init) {
      forall p | 1 <= p <= init.totalChunks ensures CanCut(data, init.chunkSize, p) {
        Scaled(p - 1, init.totalChunks - 1, init.chunkSize);
      }
    } else {
      assert !CanCut(data, init.chunkSize, init.totalChunks);
    }
  }

  lemma Scaled(a: nat, b: nat, c: nat)
    requires a <= b
    ensures a * c <= b * c
  {
  }

  /** The usual server's choice, `ceil(len / chunkSize)` parts, is safe and complete. */
  lemma CeilingIsRight(data: Bytes, init: Init)
    requires init.chunkSize > 0 && init.totalChunks == (|data| + init.chunkSize - 1) / init.chunkSize
    ensures CutFits(data, init) && init.totalChunks * init.chunkSize >= |data|
  {
    var n := |data| + init.chunkSize - 1;
    assert n == init.chunkSize * (n / init.chunkSize) + n % init.chunkSize;
  }

  // ---------- Panics ----------

  /** Every upload the server grants during the run is cut as `init` says. */
  predicate Grants(events: seq<Event>, init: Init) {
    forall i :: 0 <= i < |events| ==> events[i].Begin? ==> events[i].granted == None || events[i].granted == Some(init)
  }

  ghost predicate CutAs(s: State, init: Init) {
    && !s.client.Panicked?
    && (s.file.Saved? ==> s.file.session.chunkSize == init.chunkSize && s.file.session.totalChunks == init.totalChunks)
    && (s.client.Running? ==> s.client.session.chunkSize == init.chunkSize && s.client.session.totalChunks == init.totalChunks
                              && s.client.next >= 1)
  }

  lemma {:induction false} SafeCutNeverPanics(data: Bytes, init: Init, s: State, events: seq<Event>)
    requires CutFits(data, init) && CutAs(s, init) && Legal(data, s, events) && Grants(events, init)
    ensures CutAs(Run(data, s, events), init)
    decreases |events|
  {
    if events == [] {
    } else {
      CutsAreSafeIff(data, init);
      var after := Step(data, s, events[0]);
      assert CutAs(after, init);
      SafeCutNeverPanics(data, init, after, events[1..]);
    }
  }

  /** Sending parts `next`, `next + 1`, ... of a bad cut runs into the panic. */
  lemma {:induction false} BadCutPanics(data: Bytes, init: Init, s: State) returns (events: seq<Event>)
    requires s.client.Running? && s.client.session.chunkSize == init.chunkSize && s.client.session.totalChunks == init.totalChunks
    requires 1 <= s.client.next <= init.totalChunks && !CanCut(data, init.chunkSize, init.totalChunks)
    requires forall p :: p in s.client.session.uploadedParts ==> p < s.client.next
    ensures Legal(data, s, events) && Grants(events, init) && Run(data, s, events).client.Panicked?
    decreases init.totalChunks - s.client.next
  {
    var e := Part(Acked, SaveOk);
    var after := Step(data, s, e);
    if after.client.Panicked? {
      events := [e];
      assert events[1..] == [];
    } else {
      var rest := BadCutPanics(data, init, after);
      events := [e] + rest;
      assert events[1..] == rest;
    }
  }

  /** No run panics exactly when the server's cut fits the data. */
  lemma PanicFreeIff(data: Bytes, init: Init)
    ensures (forall events :: Legal(data, START, events) && Grants(events, init) ==> !Run(data, START, events).client.Panicked?)
      <==> CutFits(data, init)
  {
    if CutFits(data, init) {
      forall events | Legal(data, START, events) && Grants(events, init)
        ensures !Run(data, START, events).client.Panicked?
      {
        SafeCutNeverPanics(data, init, START, events);
      }
    } else {
      var e := Begin(false, false, Some(init), SaveOk);
      var rest := BadCutPanics(data, init, Step(data, START, e));
      var events := [e] + rest;
      assert events[1..] == rest;
      assert Legal(data, START, events) && Grants(events, init) && Run(data, START, events).client.Panicked?;
    }
  }

  // ---------- The count test, and the torn file ----------

  lemma {:induction false} CountsUpTo(n: nat, parts: set<nat>)
    requires forall p :: p in parts ==> 1 <= p <= n
    ensures |parts| <= n
    ensures |parts| == n <==> forall p :: 1 <= p <= n ==> p in parts
  {
    if n == 0 {
      assert parts == {};
    } else if n in parts {
      var fewer := parts - {n};
      CountsUpTo(n - 1, fewer);
      assert |parts| == |fewer| + 1;
      assert (forall p :: 1 <= p <= n - 1 ==> p in fewer) <==> forall p :: 1 <= p <= n ==> p in parts by {
        assert forall p :: 1 <= p <= n - 1 ==> (p in fewer <==> p in parts);
      }
    } else {
      CountsUpTo(n - 1, parts);
      assert 1 <= n <= n && n !in parts;
    }
  }

  /** For every session a run can reach, the count test says exactly that all parts are uploaded, and then the server holds them. */
  lemma IsCompleteIff(data: Bytes, events: seq<Event>, session: Session)
    requires Legal(data, START, events)
    requires
      var s := Run(data, START, events);
      s.file == Saved(session) || (s.client.Running? && s.client.session == session)
    ensures session.IsComplete() <==> forall p :: 1 <= p <= session.totalChunks ==> p in session.uploadedParts
    ensures session.IsComplete() ==> Assemble(Run(data, START, events).server, session.uploadId).Some?
  {
    RunKeepsInv(data, START, events);
    CountsUpTo(session.totalChunks, session.uploadedParts);
  }

  /** A torn save is not survived: once idle with an unreadable file, no later call gets past loading it. */
  lemma {:induction false} UnreadableIsForever(data: Bytes, s: State, events: seq<Event>)
    requires s.client.Idle? && s.file.Unreadable? && Legal(data, s, events)
    ensures Run(data, s, events) == s
    decreases |events|
  {
    if events != [] { UnreadableIsForever(data, Step(data, s, events[0]), events[1..]); }
  }

  /** Such a file comes about at the very first save. */
  lemma TornSaveHappens(data: Bytes, init: Init)
    ensures
      var events := [Begin(false, false, Some(init), SaveTorn)];
      && Legal(data, START, events)
      && Run(data, START, events).client.Idle? && Run(data, START, events).file.Unreadable?
  {
    var events := [Begin(false, false, Some(init), SaveTorn)];
    assert events[1..] == [];
  }

  /** Some run from here completes an upload of exactly the data. */
  ghost predicate CanGetThrough(data: Bytes, s: State) {
    exists events :: Legal(data, s, events) && GotThrough(data, s, Run(data, s, events))
  }

  predicate GotThrough(data: Bytes, before: State, after: State) {
    |after.completions| > |before.completions| && after.completions[|after.completions| - 1].content == Some(data)
  }

  /** Between calls an upload can still get through exactly when the session file is readable or absent. */
  lemma GetsThroughIff(data: Bytes, s: State)
    requires s.client.Idle?
    ensures CanGetThrough(data, s) <==> !s.file.Unreadable?
  {
    if s.file.Unreadable? {
      forall events | Legal(data, s, events) ensures !GotThrough(data, s, Run(data, s, events)) {
        UnreadableIsForever(data, s, events);
      }
    } else {
      OnePartUpload(data, s);
    }
  }

  lemma WholeChunk(data: Bytes, size: nat, part: nat)
    requires size == |data| && part == 1
    ensures CanCut(data, size, part) && Chunk(data, size, part) == data
  {
    assert (part - 1) * size == 0;
    assert data[0..|data|] == data;
  }

  lemma RunCons(data: Bytes, s: State, e: Event, rest: seq<Event>)
    requires Enabled(s, e) && Legal(data, Step(data, s, e), rest)
    ensures Legal(data, s, [e] + rest) && Run(data, s, [e] + rest) == Run(data, Step(data, s, e), rest)
  {
    assert ([e] + rest)[1..] == rest;
  }

  lemma JoinedOne(parts: map<nat, Bytes>, data: Bytes, n: nat)
    requires n == 1 && parts == map[n := data]
    ensures (forall p :: 1 <= p <= n ==> p in parts) && Joined(parts, n) == data
  {
    assert Joined(parts, n - 1) == [];
    assert [] + data == data;
  }

  /** A new upload in one part. */
  lemma OnePartUpload(data: Bytes, s: State)
    requires s.client.Idle? && !s.file.Unreadable?
    ensures CanGetThrough(data, s)
  {
    var begin, part, complete := Begin(true, false, Some(Init(|data|, 1)), SaveOk), Part(Acked, SaveOk), Complete(true, true, true);
    var id := |s.server|;
    var s1 := Step(data, s, begin);
    assert s1.client == Running(Session(id, |data|, 1, {}), 1) && s1.server == s.server + [Upload(|data|, 1, map[])];
    WholeChunk(data, |data|, 1);
    var s2 := Step(data, s1, part);
    assert s2.client == Running(Session(id, |data|, 1, {} + {1}), 2) && s2.server == StorePart(s1.server, id, 1, data);
    assert s2.server[id] == Upload(|data|, 1, map[][1 := data]);
    JoinedOne(s2.server[id].parts, data, 1);
    var s3 := Step(data, s2, complete);
    RunCons(data, s2, complete, []);
    RunCons(data, s1, part, [complete] + []);
    RunCons(data, s, begin, [part] + ([complete] + []));
    assert GotThrough(data, s, s3);
  }

  // ---------- The loop ----------

  lemma {:induction false} RunSnoc(data: Bytes, s: State, events: seq<Event>, e: Event)
    requires Legal(data, s, events) && Enabled(Run(data, s, events), e)
    ensures Legal(data, s, events + [e])
    ensures Run(data, s, events + [e]) == Step(data, Run(data, s, events), e)
    decreases |events|
  {
    var all := events + [e];
    if events == [] {
      assert all[1..] == [];
    } else {
      assert all[0] == events[0] && all[1..] == events[1..] + [e];
      hide Step;
      RunSnoc(data, Step(data, s, events[0]), events[1..], e);
    }
  }

  ghost predicate Ascending(s: seq<nat>) {
    forall i, j :: 0 <= i < j < |s| ==> s[i] < s[j]
  }

  datatype Outcome = Uploaded | Refused | Panic

  /** What the clock, the disk and the server do during one call. */
  datatype World = World(expired: bool, removed: bool, granted: Option<Init>, firstSave: SaveOutcome,
                         puts: nat -> PutOutcome, saves: nat -> SaveOutcome, reached: bool, acked: bool, deleted: bool)

  // ---------- What one call does ----------

  function LoadedSession(data: Bytes, before: State, w: World): Option<Session>
    requires before.client.Idle?
  {
    var after := Step(data, before, Begin(w.expired, w.removed, w.granted, w.firstSave));
    if after.client.Running? then Some(after.client.session) else None
  }

  /** The loop goes on after part `p`: it need not be sent, or it can be cut and is acknowledged. */
  predicate Passes(data: Bytes, s: Session, w: World, p: nat) {
    p in s.uploadedParts || (CanCut(data, s.chunkSize, p) && w.puts(p) == Acked)
  }

  ghost predicate AllPass(data: Bytes, s: Session, w: World, end: nat) {
    forall p :: 1 <= p < end ==> Passes(data, s, w, p)
  }

  /** The steps from part `p` on: one for every part up to the first that does not pass, and the completion after the last. */
  function StepsFrom(data: Bytes, s: Session, w: World, p: nat): seq<Event>
    decreases s.totalChunks + 1 - p
  {
    if p > s.totalChunks then [Complete(w.reached, w.acked, w.deleted)]
    else [Part(w.puts(p), w.saves(p))] + (if Passes(data, s, w, p) then StepsFrom(data, s, w, p + 1) else [])
  }

  /** The parts put on the wire from part `p` on. */
  function SentFrom(data: Bytes, s: Session, w: World, p: nat): seq<nat>
    decreases s.totalChunks + 1 - p
  {
    if p > s.totalChunks then []
    else
      (if p !in s.uploadedParts && CanCut(data, s.chunkSize, p) then [p] else [])
        + (if Passes(data, s, w, p) then SentFrom(data, s, w, p + 1) else [])
  }

  function CallEvents(data: Bytes, loaded: Option<Session>, w: World): seq<Event> {
    [Begin(w.expired, w.removed, w.granted, w.firstSave)]
      + match loaded
        case None => []
        case Some(s) => StepsFrom(data, s, w, 1)
  }

  function CallSends(data: Bytes, loaded: Option<Session>, w: World): seq<nat> {
    match loaded
    case None => []
    case Some(s) => SentFrom(data, s, w, 1)
  }

  /** The first part that does not pass is one that cannot be cut. */
  ghost predicate RunsIntoPanic(data: Bytes, s: Session, w: World) {
    exists p :: 1 <= p <= s.totalChunks && p !in s.uploadedParts && !CanCut(data, s.chunkSize, p) && AllPass(data, s, w, p)
  }

  /** What is sent, said without the loop: the missing parts in order, up to the first that does not pass. */
  lemma {:induction false} SendsAreMissing(data: Bytes, s: Session, w: World, k: nat)
    requires k >= 1 && AllPass(data, s, w, k)
    ensures Ascending(SentFrom(data, s, w, k))
    ensures forall p :: p in SentFrom(data, s, w, k) <==>
      k <= p <= s.totalChunks && p !in s.uploadedParts && CanCut(data, s.chunkSize, p) && AllPass(data, s, w, p)
    decreases s.totalChunks + 1 - k
  {
    if k <= s.totalChunks && Passes(data, s, w, k) {
      SendsAreMissing(data, s, w, k + 1);
      hide CanCut;
      if k !in s.uploadedParts { AscendingCons(k, SentFrom(data, s, w, k + 1)); }
      forall p ensures p in SentFrom(data, s, w, k) <==>
        k <= p <= s.totalChunks && p !in s.uploadedParts && CanCut(data, s.chunkSize, p) && AllPass(data, s, w, p)
      {
        assert p in SentFrom(data, s, w, k) <==>
          (p == k && k !in s.uploadedParts && CanCut(data, s.chunkSize, k)) || p in SentFrom(data, s, w, k + 1);
      }
    } else {
      hide CanCut;
      forall p | k < p ensures !AllPass(data, s, w, p) || k > s.totalChunks {
        if k <= s.totalChunks { assert !Passes(data, s, w, k); }
      }
    }
  }

  lemma AscendingCons(n: nat, s: seq<nat>)
    requires Ascending(s) && forall p :: p in s ==> n < p
    ensures Ascending([n] + s)
  {
    forall i, j | 0 <= i < j < |[n] + s| ensures ([n] + s)[i] < ([n] + s)[j] {
      assert ([n] + s)[j] == s[j - 1] && s[j - 1] in s;
      if i > 0 { assert ([n] + s)[i] == s[i - 1]; }
    }
  }

  /** The session of a newly granted upload, if its first save worked. */
  function Granted(w: World, uploadId: nat): Option<Session> {
    if w.granted.Some? && w.firstSave == SaveOk
    then Some(Session(uploadId, w.granted.value.chunkSize, w.granted.value.totalChunks, {})) else None
  }

  // ---------- Saved progress ----------

  /** An acknowledged part whose save succeeds is in the session file, with all the others; nothing else about it changes. */
  lemma PartIsSaved(data: Bytes, s: State)
    requires s.client.Running? && s.client.next <= s.client.session.totalChunks
    requires s.client.next !in s.client.session.uploadedParts && CanCut(data, s.client.session.chunkSize, s.client.next)
    ensures
      var session, after := s.client.session, Step(data, s, Part(Acked, SaveOk));
      && after.file.Saved? && after.client.Running? && after.file.session == after.client.session
      && SameUpload(session, after.file.session)
      && forall p :: p in after.file.session.uploadedParts <==> p in session.uploadedParts || p == s.client.next
  {
    PartStep(data, s, Acked, SaveOk);
  }

  predicate SameUpload(a: Session, b: Session) {
    a.uploadId == b.uploadId && a.chunkSize == b.chunkSize && a.totalChunks == b.totalChunks
  }

  /** A running call is never behind the session file. */
  ghost predicate Ahead(s: State) {
    s.client.Running? && s.file.Saved? ==>
      SameUpload(s.file.session, s.client.session) && s.file.session.uploadedParts <= s.client.session.uploadedParts
  }

  lemma StepKeepsAhead(data: Bytes, s: State, e: Event)
    requires Inv(data, s) && Ahead(s) && Enabled(s, e)
    ensures Ahead(Step(data, s, e))
  {
    hide Inv, CanCut, Chunk, Assemble, StorePart;
  }

  /** The session file still has the upload and all parts it listed. */
  ghost predicate ProgressKept(was: Session, file: SessionFile) {
    file.Saved? && SameUpload(was, file.session) && was.uploadedParts <= file.session.uploadedParts
  }

  /**
   * What loses saved progress: a session taken for expired that is deleted or overwritten, a save cut short, or deleting the
   * session of a completed upload.
   */
  predicate Loses(data: Bytes, s: State, e: Event)
    requires Enabled(s, e)
  {
    match e
    case Begin(expired, removed, granted, save) => expired && (removed || (granted.Some? && save != SaveFailed))
    case Part(put, save) =>
      && put == Acked && save == SaveTorn
      && s.client.next !in s.client.session.uploadedParts && CanCut(data, s.client.session.chunkSize, s.client.next)
    case Complete(reached, acked, deleted) => reached && acked && deleted
    case Crash => false
  }

  /** Saved progress survives a step exactly unless the step is one of those. */
  lemma ProgressKeptIff(data: Bytes, s: State, e: Event)
    requires Inv(data, s) && Ahead(s) && s.file.Saved? && Enabled(s, e)
    ensures ProgressKept(s.file.session, Step(data, s, e).file) <==> !Loses(data, s, e)
  {
    if e.Complete? { CompleteStep(data, s, e); }
    hide UploadsHoldChunks, CanCut, Chunk, StorePart, CompletedWhole;
  }

  ghost predicate NothingLost(data: Bytes, s: State, events: seq<Event>)
    requires Legal(data, s, events)
    decreases |events|
  {
    events == [] || (!Loses(data, s, events[0]) && NothingLost(data, Step(data, s, events[0]), events[1..]))
  }

  /**
   * Over any run, crashes and restarts included, in which nothing loses the session file, it keeps every part it listed; and
   * whatever call is running by then has that part as done, so it is not sent again.
   */
  lemma {:induction false} ListedStaysListed(data: Bytes, s: State, events: seq<Event>, p: nat)
    requires Inv(data, s) && Ahead(s) && s.file.Saved? && p in s.file.session.uploadedParts
    requires Legal(data, s, events) && NothingLost(data, s, events)
    ensures
      var after := Run(data, s, events);
      && after.file.Saved? && SameUpload(s.file.session, after.file.session) && p in after.file.session.uploadedParts
      && (after.client.Running? ==> p in after.client.session.uploadedParts)
    decreases |events|
  {
    if events != [] {
      var mid := Step(data, s, events[0]);
      StepKeepsInv(data, s, events[0]);
      StepKeepsAhead(data, s, events[0]);
      ProgressKeptIff(data, s, events[0]);
      hide Inv, Ahead, Step, Loses;
      ListedStaysListed(data, mid, events[1..], p);
    }
  }

  lemma {:induction false} RunKeepsAhead(data: Bytes, s: State, events: seq<Event>)
    requires Inv(data, s) && Ahead(s) && Legal(data, s, events)
    ensures Ahead(Run(data, s, events))
    decreases |events|
  {
    if events != [] {
      StepKeepsInv(data, s, events[0]);
      StepKeepsAhead(data, s, events[0]);
      hide Inv, Ahead, Step;
      RunKeepsAhead(data, Step(data, s, events[0]), events[1..]);
    }
  }

  /** The same for every state a run from the start can reach. */
  lemma ReachedStaysListed(data: Bytes, before: seq<Event>, events: seq<Event>, p: nat)
    requires Legal(data, START, before) && Run(data, START, before).file.Saved?
    requires p in Run(data, START, before).file.session.uploadedParts
    requires Legal(data, Run(data, START, before), events) && NothingLost(data, Run(data, START, before), events)
    ensures
      var after := Run(data, Run(data, START, before), events);
      && after.file.Saved? && p in after.file.session.uploadedParts
      && (after.client.Running? ==> p in after.client.session.uploadedParts)
  {
    RunKeepsInv(data, START, before);
    RunKeepsAhead(data, START, before);
    ListedStaysListed(data, Run(data, START, before), events, p);
  }

  ghost predicate SavesWork(w: World) {
    forall p :: w.saves(p) == SaveOk
  }

  /** What a call whose saves work leaves in the session file: what it loaded and everything it had acknowledged since. */
  ghost function SavedBy(loaded: Session, w: World, sent: seq<nat>): Session {
    loaded.(uploadedParts := loaded.uploadedParts + set p | p in sent && w.puts(p) == Acked)
  }

  /** The session file after such a call. */
  ghost function FileLeft(loaded: Session, w: World, sent: seq<nat>, uploaded: bool): SessionFile {
    if uploaded && w.deleted then Missing else Saved(SavedBy(loaded, w, sent))
  }

  lemma SavedByCons(session: Session, w: World, p: nat, rest: seq<nat>)
    ensures w.puts(p) == Acked ==>
      SavedBy(session, w, [p] + rest) == SavedBy(session.(uploadedParts := session.uploadedParts + {p}), w, rest)
    ensures w.puts(p) != Acked ==> SavedBy(session, w, [p] + rest) == SavedBy(session, w, rest)
    ensures SavedBy(session, w, []) == session
  {
  }

  lemma {:induction false} StepsSave(data: Bytes, s: State, loaded: Session, w: World, p: nat)
    requires Inv(data, s) && s.client.Running? && s.client.next == p && Underway(loaded, s.client.session, p)
    requires s.file == Saved(s.client.session) && SavesWork(w)
    ensures Legal(data, s, StepsFrom(data, loaded, w, p))
    ensures Run(data, s, StepsFrom(data, loaded, w, p)).file
      == if AllPassFrom(data, loaded, w, p) && w.reached && w.acked && w.deleted then Missing
         else Saved(SavedBy(s.client.session, w, SentFrom(data, loaded, w, p)))
    decreases loaded.totalChunks + 1 - p
  {
    hide Inv, Passes, CanCut, Underway, SavedBy, SavesWork;
    var session := s.client.session;
    if p > loaded.totalChunks {
      LastSaves(data, s, loaded, w, p);
      SavedByCons(session, w, p, []);
    } else {
      OnePart(data, s, loaded, w, p);
      var e := Part(w.puts(p), w.saves(p));
      var after := Step(data, s, e);
      StepKeepsInv(data, s, e);
      PassHead(data, loaded, w, p);
      OneSave(data, s, loaded, w, p);
      if Passes(data, loaded, w, p) {
        StepsSave(data, after, loaded, w, p + 1);
        RunCons(data, s, e, StepsFrom(data, loaded, w, p + 1));
        SavedByCons(session, w, p, SentFrom(data, loaded, w, p + 1));
        assert [] + SentFrom(data, loaded, w, p + 1) == SentFrom(data, loaded, w, p + 1);
      } else {
        RunCons(data, s, e, []);
        assert [e] + [] == StepsFrom(data, loaded, w, p);
        SavedByCons(session, w, p, []);
        assert SentFrom(data, loaded, w, p) == [p] + [] || SentFrom(data, loaded, w, p) == [];
      }
    }
  }

  /** The parts of a whole call whose saves work. */
  lemma CallSaves(data: Bytes, s: State, loaded: Session, w: World)
    requires Inv(data, s) && s.client == Running(loaded, 1) && s.file == Saved(loaded) && SavesWork(w)
    ensures Legal(data, s, StepsFrom(data, loaded, w, 1))
    ensures Run(data, s, StepsFrom(data, loaded, w, 1)).file
      == FileLeft(loaded, w, SentFrom(data, loaded, w, 1), AllPass(data, loaded, w, loaded.totalChunks + 1) && w.reached && w.acked)
  {
    StepsSave(data, s, loaded, w, 1);
    assert AllPassFrom(data, loaded, w, 1) <==> AllPass(data, loaded, w, loaded.totalChunks + 1);
  }

  /** One part of a call whose saves work, and what it leaves in the file. */
  lemma OneSave(data: Bytes, s: State, loaded: Session, w: World, p: nat)
    requires Inv(data, s) && s.client.Running? && s.client.next == p && Underway(loaded, s.client.session, p)
    requires s.file == Saved(s.client.session) && SavesWork(w) && p <= loaded.totalChunks
    ensures Enabled(s, Part(w.puts(p), w.saves(p)))
    ensures
      var session, after := s.client.session, Step(data, s, Part(w.puts(p), w.saves(p)));
      var sent := p !in loaded.uploadedParts && CanCut(data, loaded.chunkSize, p);
      var grown := if sent && w.puts(p) == Acked then session.(uploadedParts := session.uploadedParts + {p}) else session;
      && after.file == Saved(grown)
      && (Passes(data, loaded, w, p) ==> after.client.Running? && after.client.session == grown)
      && (Passes(data, loaded, w, p) <==> p in loaded.uploadedParts || (sent && w.puts(p) == Acked))
  {
    PartStep(data, s, w.puts(p), w.saves(p));
    hide CanCut, Inv;
  }

  lemma LastSaves(data: Bytes, s: State, loaded: Session, w: World, p: nat)
    requires Inv(data, s) && s.client.Running? && s.client.next == p && Underway(loaded, s.client.session, p)
    requires p > loaded.totalChunks
    ensures Legal(data, s, StepsFrom(data, loaded, w, p)) && AllPassFrom(data, loaded, w, p) && SentFrom(data, loaded, w, p) == []
    ensures Run(data, s, StepsFrom(data, loaded, w, p)).file == if w.reached && w.acked && w.deleted then Missing else s.file
  {
    var e := Complete(w.reached, w.acked, w.deleted);
    CompleteStep(data, s, e);
    RunCons(data, s, e, []);
    assert [e] + [] == [e];
  }

  /**
   * Two calls: if the first call's saves worked and its session is not gone, an unexpired second call sends none of the parts
   * the first had acknowledged, nor any that were listed before; it sends only parts the first did not get through.
   */
  lemma SecondCallSkips(data: Bytes, s: State, first: World, second: World)
    requires Inv(data, s) && s.client.Idle? && SavesWork(first) && !second.expired
    requires LoadedSession(data, s, first).Some?
    ensures
      var loaded := LoadedSession(data, s, first);
      var events := CallEvents(data, loaded, first);
      && Legal(data, s, events)
      && var between := Run(data, s, events).(client := Idle);
         between.file.Saved? ==>
           && LoadedSession(data, between, second).Some?
           && forall p :: p in CallSends(data, LoadedSession(data, between, second), second) ==>
                p !in loaded.value.uploadedParts && !(p in CallSends(data, loaded, first) && first.puts(p) == Acked)
  {
    var begin := Begin(first.expired, first.removed, first.granted, first.firstSave);
    var loaded := LoadedSession(data, s, first).value;
    var mid := Step(data, s, begin);
    StepKeepsInv(data, s, begin);
    assert mid.client == Running(loaded, 1) && mid.file == Saved(loaded);
    StepsSave(data, mid, loaded, first, 1);
    RunCons(data, s, begin, StepsFrom(data, loaded, first, 1));
    var between := Run(data, s, CallEvents(data, Some(loaded), first)).(client := Idle);
    if between.file.Saved? {
      var session := between.file.session;
      assert LoadedSession(data, between, second) == Some(session);
      SendsAreMissing(data, session, second, 1);
    }
  }

  // ---------- Resuming a saved session ----------

  predicate Covers(data: Bytes, s: Session) {
    s.totalChunks * s.chunkSize >= |data|
  }

  /** `session`, in the middle of a call that loaded `loaded`: it differs only in the parts done since. */
  ghost predicate Underway(loaded: Session, session: Session, p: nat) {
    && session.(uploadedParts := {}) == loaded.(uploadedParts := {})
    && forall q :: q >= p ==> (q in session.uploadedParts <==> q in loaded.uploadedParts)
  }

  /** What the steps from part `p` on add: one completion if every part passes and the server is reached, else none. */
  lemma {:induction false} StepsComplete(data: Bytes, s: State, loaded: Session, w: World, p: nat)
    requires Inv(data, s) && s.client.Running? && s.client.next == p && Underway(loaded, s.client.session, p)
    ensures Legal(data, s, StepsFrom(data, loaded, w, p))
    ensures
      var after := Run(data, s, StepsFrom(data, loaded, w, p));
      if w.reached && AllPassFrom(data, loaded, w, p) then
        && |after.completions| == |s.completions| + 1
        && (after.completions[|s.completions|].content == Some(data) <==> Covers(data, loaded))
      else after.completions == s.completions
    decreases loaded.totalChunks + 1 - p
  {
    hide Inv, Passes, CanCut, Underway;
    var steps := StepsFrom(data, loaded, w, p);
    if p > loaded.totalChunks {
      LastStep(data, s, loaded, w, p);
    } else {
      OnePart(data, s, loaded, w, p);
      var e := Part(w.puts(p), w.saves(p));
      var after := Step(data, s, e);
      StepKeepsInv(data, s, e);
      PassHead(data, loaded, w, p);
      if Passes(data, loaded, w, p) {
        StepsComplete(data, after, loaded, w, p + 1);
        RunCons(data, s, e, StepsFrom(data, loaded, w, p + 1));
      } else {
        RunCons(data, s, e, []);
        assert [e] + [] == steps;
      }
    }
  }

  ghost predicate AllPassFrom(data: Bytes, s: Session, w: World, p: nat) {
    forall q :: p <= q <= s.totalChunks ==> Passes(data, s, w, q)
  }

  lemma PassHead(data: Bytes, s: Session, w: World, p: nat)
    requires p <= s.totalChunks
    ensures AllPassFrom(data, s, w, p) <==> Passes(data, s, w, p) && AllPassFrom(data, s, w, p + 1)
  {
    hide Passes;
  }

  /** One part of the call: on to the next if it passes, out of the call otherwise; nothing is completed yet. */
  lemma OnePart(data: Bytes, s: State, loaded: Session, w: World, p: nat)
    requires Inv(data, s) && s.client.Running? && s.client.next == p && Underway(loaded, s.client.session, p)
    requires p <= loaded.totalChunks
    ensures Enabled(s, Part(w.puts(p), w.saves(p)))
    ensures
      var after := Step(data, s, Part(w.puts(p), w.saves(p)));
      && after.completions == s.completions
      && (Passes(data, loaded, w, p) ==>
            after.client.Running? && after.client.next == p + 1 && Underway(loaded, after.client.session, p + 1))
  {
    PartStep(data, s, w.puts(p), w.saves(p));
    hide CanCut, Inv;
  }

  lemma LastStep(data: Bytes, s: State, loaded: Session, w: World, p: nat)
    requires Inv(data, s) && s.client.Running? && s.client.next == p && Underway(loaded, s.client.session, p)
    requires p > loaded.totalChunks
    ensures Legal(data, s, StepsFrom(data, loaded, w, p)) && AllPassFrom(data, loaded, w, p)
    ensures
      var after := Run(data, s, StepsFrom(data, loaded, w, p));
      if w.reached then
        && |after.completions| == |s.completions| + 1
        && (after.completions[|s.completions|].content == Some(data) <==> Covers(data, loaded))
      else after.completions == s.completions
  {
    var e := Complete(w.reached, w.acked, w.deleted);
    CompleteStep(data, s, e);
    CompletesWhole(data, s);
    RunCons(data, s, e, []);
    assert [e] + [] == [e];
  }

  /** The call made in this world completes an upload of exactly the data. */
  ghost predicate CallGetsThrough(data: Bytes, s: State, w: World)
    requires s.client.Idle?
  {
    var events := CallEvents(data, LoadedSession(data, s, w), w);
    Legal(data, s, events) && GotThrough(data, s, Run(data, s, events))
  }

  /** Every part the session lacks can be cut. */
  predicate MissingCanBeCut(data: Bytes, s: Session) {
    forall p :: 1 <= p <= s.totalChunks && p !in s.uploadedParts ==> CanCut(data, s.chunkSize, p)
  }

  /** A call that finds its session unexpired resumes it; it gets through exactly when no part fails and the chunks cover the data. */
  lemma ResumedCall(data: Bytes, s: State, w: World)
    requires Inv(data, s) && s.client.Idle? && s.file.Saved? && !w.expired
    ensures
      var session := s.file.session;
      CallGetsThrough(data, s, w) <==>
        w.reached && AllPass(data, session, w, session.totalChunks + 1) && Covers(data, session)
  {
    var begin := Begin(w.expired, w.removed, w.granted, w.firstSave);
    var session := s.file.session;
    var loaded := Step(data, s, begin);
    assert loaded == s.(client := Running(session, 1));
    StepKeepsInv(data, s, begin);
    StepsComplete(data, loaded, session, w, 1);
    RunCons(data, s, begin, StepsFrom(data, session, w, 1));
    assert AllPassFrom(data, session, w, 1) <==> AllPass(data, session, w, session.totalChunks + 1);
  }

  /**
   * In every state reached between calls with a saved session that is not taken for expired, some behaviour of server and
   * disk lets the next call complete exactly the data if and only if every missing part can be cut and the chunks cover
   * the data. A bad cut fails every call until the session expires.
   */
  lemma ResumesIff(data: Bytes, events: seq<Event>)
    requires Legal(data, START, events)
    requires Run(data, START, events).client.Idle? && Run(data, START, events).file.Saved?
    ensures
      var s := Run(data, START, events);
      (exists w: World :: !w.expired && CallGetsThrough(data, s, w))
        <==> MissingCanBeCut(data, s.file.session) && Covers(data, s.file.session)
  {
    RunKeepsInv(data, START, events);
    var s := Run(data, START, events);
    var session := s.file.session;
    if w: World :| !w.expired && CallGetsThrough(data, s, w) {
      ResumedCall(data, s, w);
      forall p | 1 <= p <= session.totalChunks && p !in session.uploadedParts ensures CanCut(data, session.chunkSize, p) {
        assert Passes(data, session, w, p);
      }
    }
    if MissingCanBeCut(data, session) && Covers(data, session) {
      var w := World(false, false, None, SaveOk, p => Acked, p => SaveOk, true, true, true);
      ResumedCall(data, s, w);
      forall p | 1 <= p < session.totalChunks + 1 ensures Passes(data, session, w, p) {
      }
      assert CallGetsThrough(data, s, w);
    }
  }

  class MultipartClient {
    const data: Bytes
    var file: SessionFile
    var server: seq<Upload>
    var completions: seq<Completion>

    constructor (data: Bytes)
      ensures this.data == data && Seen(Idle) == START
    {
      this.data := data;
      file, server, completions := Missing, [], [];
    }

    ghost function Seen(client: Client): State
      reads this
    {
      State(client, file, server, completions)
    }

    /** Loading the session, or opening a new one. */
    method LoadOrInit(w: World) returns (session: Option<Session>)
      modifies this`file, this`server
      ensures
        var before := old(Seen(Idle));
        var begin := Begin(w.expired, w.removed, w.granted, w.firstSave);
        Step(data, before, begin) == Seen(if session.Some? then Running(session.value, 1) else Idle)
      ensures session == match old(file) {
        case Unreadable => None
        case Saved(existing) => if w.expired then Granted(w, |old(server)|) else Some(existing)
        case Missing => Granted(w, |old(server)|)
      }
      ensures session.Some? ==> file == Saved(session.value)
    {
      match file {
        case Unreadable => return None;
        case Saved(existing) =>
          if !w.expired { return Some(existing); }
          if w.removed { file := Missing; }
        case Missing =>
      }
      if w.granted.None? { return None; }
      var init := w.granted.value;
      var created := Session(|server|, init.chunkSize, init.totalChunks, {});
      server := server + [Upload(init.chunkSize, init.totalChunks, map[])];
      file := Write(file, created, w.firstSave);
      return if w.firstSave == SaveOk then Some(created) else None;
    }

    /**
     * `upload_blob_multipart_resumable`: one call, from loading the session to deleting it. It is the run of the protocol
     * that `CallEvents` spells out, it sends exactly the parts the loaded session lacks, in order, up to the first that
     * fails, and it succeeds exactly when none fails and the server completes.
     */
    method UploadResumable(w: World) returns (result: Outcome, sent: seq<nat>, ghost events: seq<Event>)
      requires Inv(data, Seen(Idle))
      modifies this`file, this`server, this`completions
      ensures
        var loaded := LoadedSession(data, old(Seen(Idle)), w);
        && events == CallEvents(data, loaded, w) && sent == CallSends(data, loaded, w)
        && (result == Uploaded <==>
              loaded.Some? && AllPass(data, loaded.value, w, loaded.value.totalChunks + 1) && w.reached && w.acked)
        && (result == Panic <==> loaded.Some? && RunsIntoPanic(data, loaded.value, w))
        && (result == Uploaded ==>
              && |completions| == |old(completions)| + 1 && completions[..|old(completions)|] == old(completions)
              && var c := completions[|old(completions)|];
                 && c.uploadId == loaded.value.uploadId
                 && (c.content == Some(data) <==> loaded.value.totalChunks * loaded.value.chunkSize >= |data|))
        && (loaded.Some? && SavesWork(w) ==>
              file == FileLeft(loaded.value, w, sent, result == Uploaded))
      ensures Legal(data, old(Seen(Idle)), events)
      ensures Run(data, old(Seen(Idle)), events) == Seen(if result == Panic then Panicked else Idle)
      ensures Inv(data, Seen(Idle))
      ensures result == Uploaded <==> w.acked && completions != old(completions)
      ensures old(file).Saved? && !w.expired ==> forall p :: p in sent ==> p !in old(file).session.uploadedParts
      ensures Ascending(sent)
    {
      ghost var start := Seen(Idle);
      var begin := Begin(w.expired, w.removed, w.granted, w.firstSave);
      events, sent := [begin], [];
      assert events[1..] == [];
      StepKeepsInv(data, start, begin);
      var loaded := LoadOrInit(w);
      if loaded.None? {
        QuietInv(data, start, events);
        return Refused, sent, events;
      }
      ghost var tail;
      if SavesWork(w) { CallSaves(data, Seen(Running(loaded.value, 1)), loaded.value, w); }
      result, sent, tail := SendParts(loaded.value, w);
      FirstPart(data, loaded.value, w);
      SendsAreMissing(data, loaded.value, w, 1);
      events := events + tail;
      assert events[1..] == tail;
      QuietInv(data, start, events);
    }

    /** The loop over the parts, and the completion. */
    method SendParts(loaded: Session, w: World)
      returns (result: Outcome, sent: seq<nat>, ghost tail: seq<Event>)
      requires Inv(data, Seen(Running(loaded, 1)))
      modifies this`file, this`server, this`completions
      ensures tail == StepsFrom(data, loaded, w, 1) && sent == SentFrom(data, loaded, w, 1)
      ensures Legal(data, old(Seen(Running(loaded, 1))), tail)
      ensures Run(data, old(Seen(Running(loaded, 1))), tail) == Seen(if result == Panic then Panicked else Idle)
      ensures result == Uploaded <==> AllPass(data, loaded, w, loaded.totalChunks + 1) && w.reached && w.acked
      ensures result == Panic <==> RunsIntoPanic(data, loaded, w)
      ensures result == Uploaded ==>
        && |completions| == |old(completions)| + 1 && completions[..|old(completions)|] == old(completions)
        && var c := completions[|old(completions)|];
           && c.uploadId == loaded.uploadId
           && (c.content == Some(data) <==> loaded.totalChunks * loaded.chunkSize >= |data|)
      ensures completions != old(completions) ==> (w.acked ==> result == Uploaded)
    {
      hide Inv, Step, StepsFrom, SentFrom, Passes, AllPass, RunsIntoPanic, CanCut, Chunk, StorePart, Write, Assemble;
      sent, tail := [], [];
      ghost var start := Seen(Running(loaded, 1));
      ghost var steps, sends := StepsFrom(data, loaded, w, 1), SentFrom(data, loaded, w, 1);
      var session := loaded;
      var part := 1;
      FirstPart(data, loaded, w);
      while part <= session.totalChunks
        invariant part >= 1 && session.(uploadedParts := {}) == loaded.(uploadedParts := {})
        invariant Inv(data, Seen(Running(session, part)))
        invariant Legal(data, start, tail) && Run(data, start, tail) == Seen(Running(session, part))
        invariant forall p :: p >= part ==> (p in session.uploadedParts <==> p in loaded.uploadedParts)
        invariant AllPass(data, loaded, w, part)
        invariant tail + StepsFrom(data, loaded, w, part) == steps
        invariant sent + SentFrom(data, loaded, w, part) == sends
        invariant completions == old(completions)
        decreases session.totalChunks + 1 - part
      {
        var put, save := w.puts(part), w.saves(part);
        RunSnoc(data, start, tail, Part(put, save));
        StepKeepsInv(data, Seen(Running(session, part)), Part(put, save));
        PartStep(data, Seen(Running(session, part)), put, save);
        NextPart(data, loaded, w, part, tail, sent);
        tail := tail + [Part(put, save)];
        if part !in session.uploadedParts {
          if !CanCut(data, session.chunkSize, part) {
            return Panic, sent, tail;
          }
          sent := sent + [part];
          if put == Rejected { return Refused, sent, tail; }
          server := StorePart(server, session.uploadId, part, Chunk(data, session.chunkSize, part));
          if put == AckLost { return Refused, sent, tail; }
          session := session.(uploadedParts := session.uploadedParts + {part});
          file := Write(file, session, save);
        }
        part := part + 1;
      }
      PastLastPart(data, loaded, w, part, tail, sent);
      ghost var last := Complete(w.reached, w.acked, w.deleted);
      RunSnoc(data, start, tail, last);
      CompleteStep(data, Seen(Running(session, part)), last);
      CompletesWhole(data, Seen(Running(session, part)));
      tail := tail + [last];
      if w.reached {
        completions := completions + [Completion(session.uploadId, Assemble(server, session.uploadId))];
        if w.acked {
          if w.deleted { file := Missing; }
          return Uploaded, sent, tail;
        }
      }
      return Refused, sent, tail;
    }
  }

  lemma FirstPart(data: Bytes, s: Session, w: World)
    ensures AllPass(data, s, w, 1)
    ensures [] + StepsFrom(data, s, w, 1) == StepsFrom(data, s, w, 1) && [] + SentFrom(data, s, w, 1) == SentFrom(data, s, w, 1)
  {
  }

  lemma Regroup<T>(a: seq<T>, b: seq<T>, c: seq<T>)
    ensures a + (b + c) == a + b + c && a + [] == a && b + [] == b
  {
  }

  /** The first part that does not pass decides how the loop ends. */
  lemma StuckAt(data: Bytes, s: Session, w: World, p: nat)
    requires 1 <= p <= s.totalChunks && AllPass(data, s, w, p) && !Passes(data, s, w, p)
    ensures !AllPass(data, s, w, s.totalChunks + 1)
    ensures RunsIntoPanic(data, s, w) <==> !CanCut(data, s.chunkSize, p)
  {
    hide CanCut;
    if RunsIntoPanic(data, s, w) {
      var q :| 1 <= q <= s.totalChunks && q !in s.uploadedParts && !CanCut(data, s.chunkSize, q) && AllPass(data, s, w, q);
      assert !Passes(data, s, w, q);
      assert q == p;
    }
    if !CanCut(data, s.chunkSize, p) { assert p !in s.uploadedParts; }
  }

  /** What the loop has still to do, before and after part `p`; a part that does not pass is the end of it. */
  lemma NextPart(data: Bytes, s: Session, w: World, p: nat, tail: seq<Event>, sent: seq<nat>)
    requires 1 <= p <= s.totalChunks && AllPass(data, s, w, p)
    ensures
      var step := [Part(w.puts(p), w.saves(p))];
      var send := if p !in s.uploadedParts && CanCut(data, s.chunkSize, p) then [p] else [];
      if p in s.uploadedParts || (CanCut(data, s.chunkSize, p) && w.puts(p) == Acked) then
        && AllPass(data, s, w, p + 1)
        && tail + StepsFrom(data, s, w, p) == tail + step + StepsFrom(data, s, w, p + 1)
        && sent + SentFrom(data, s, w, p) == sent + send + SentFrom(data, s, w, p + 1)
      else
        && tail + StepsFrom(data, s, w, p) == tail + step && sent + SentFrom(data, s, w, p) == sent + send
        && !AllPass(data, s, w, s.totalChunks + 1)
        && (RunsIntoPanic(data, s, w) <==> !CanCut(data, s.chunkSize, p))
    ensures sent + [] == sent
  {
    hide CanCut, RunsIntoPanic;
    var step := [Part(w.puts(p), w.saves(p))];
    var send := if p !in s.uploadedParts && CanCut(data, s.chunkSize, p) then [p] else [];
    if Passes(data, s, w, p) {
      Regroup(tail, step, StepsFrom(data, s, w, p + 1));
      Regroup(sent, send, SentFrom(data, s, w, p + 1));
    } else {
      Regroup(tail, step, []);
      Regroup(sent, send, []);
      StuckAt(data, s, w, p);
    }
  }

  lemma PastLastPart(data: Bytes, s: Session, w: World, p: nat, tail: seq<Event>, sent: seq<nat>)
    requires p > s.totalChunks && AllPass(data, s, w, p)
    ensures tail + StepsFrom(data, s, w, p) == tail + [Complete(w.reached, w.acked, w.deleted)]
    ensures sent + SentFrom(data, s, w, p) == sent
    ensures AllPass(data, s, w, s.totalChunks + 1) && !RunsIntoPanic(data, s, w)
  {
    hide CanCut;
    Regroup(sent, [], []);
    forall q | 1 <= q <= s.totalChunks ensures q in s.uploadedParts || CanCut(data, s.chunkSize, q) {
      assert Passes(data, s, w, q);
    }
  }

  /** The completion of a finished loop is the data exactly when the chunks cover it. */
  lemma CompletesWhole(data: Bytes, s: State)
    requires Inv(data, s) && s.client.Running? && s.client.next > s.client.session.totalChunks
    ensures
      var session := s.client.session;
      Assemble(s.server, session.uploadId) == Some(data) <==> session.totalChunks * session.chunkSize >= |data|
  {
    AssembledWhole(data, s);
    WholePrefix(data, s.client.session.totalChunks * s.client.session.chunkSize);
    hide Assemble;
  }

  lemma WholePrefix(data: Bytes, n: nat)
    ensures data[..Min(n, |data|)] == data <==> n >= |data|
  {
    if n >= |data| { assert data[..|data|] == data; }
  }

  /** Once a call is over, the invariant holds again between calls. */
  lemma QuietInv(data: Bytes, s: State, events: seq<Event>)
    requires Inv(data, s) && Legal(data, s, events)
    ensures Inv(data, Run(data, s, events).(client := Idle))
  {
    RunKeepsInv(data, s, events);
  }

  lemma PartStep(data: Bytes, s: State, put: PutOutcome, save: SaveOutcome)
    requires s.client.Running? && s.client.next <= s.client.session.totalChunks
    ensures
      var Running(session, part) := s.client;
      var after := Step(data, s, Part(put, save));
      if part in session.uploadedParts then after == s.(client := Running(session, part + 1))
      else if !CanCut(data, session.chunkSize, part) then after == s.(client := Panicked)
      else if put == Rejected then after == s.(client := Idle)
      else
        var server := StorePart(s.server, session.uploadId, part, Chunk(data, session.chunkSize, part));
        var grown := session.(uploadedParts := session.uploadedParts + {part});
        after == if put == AckLost then State(Idle, s.file, server, s.completions)
                 else State(Running(grown, part + 1), Write(s.file, grown, save), server, s.completions)
  {
  }

  lemma CompleteStep(data: Bytes, s: State, e: Event)
    requires Inv(data, s) && e.Complete? && Enabled(s, e)
    ensures
      var id := s.client.session.uploadId;
      Step(data, s, e) == State(Idle, if e.reached && e.acked && e.deleted then Missing else s.file, s.server,
                                if e.reached then s.completions + [Completion(id, Assemble(s.server, id))] else s.completions)
  {
    AssembledWhole(data, s);
  }
}

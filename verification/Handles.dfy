/** Life cycle of writable handles: any interleaving of create, open, write, flush and release. */
module Handles {
  import opened WriteBuffers

  /** One call of `do_upload`: the bytes sent and the bytes the announced hash was computed from. */
  datatype Upload = Upload(fh: nat, ino: nat, bytes: Bytes, hashed: Bytes)

  /** `pending` are handle numbers drawn by a `create` or `open` that has not inserted its buffer yet. */
  datatype State = State(nextFh: nat, pending: set<nat>, buffers: map<nat, Buffer>, uploads: seq<Upload>)

  /** The atomic steps, each under one lock or one atomic counter. */
  datatype Event =
    | Take
    | Insert(fh: nat, buf: Buffer)
    | Abandon(fh: nat)
    | WriteTo(fh: nat, op: WriteOp)
    | Flush(fh: nat)
    | Release(fh: nat)

  function Opening(ino: nat, parent: nat, name: string, initial: Bytes, append: bool): Buffer {
    Buffer(ino, parent, name, Memory(initial), initial, false, append)
  }

  const START := State(1, {}, map[], [])

  /** A thread inserts or abandons only the number it drew, and buffers start unflushed. */
  predicate Enabled(s: State, e: Event) {
    match e
    case Insert(fh, buf) => fh in s.pending && buf == Opening(buf.ino, buf.parent, buf.name, buf.hashed, buf.append)
    case Abandon(fh) => fh in s.pending
    case _ => true
  }

  /** Flush and release upload once: only an unflushed, non-empty buffer. */
  predicate Uploads(buf: Buffer) {
    !buf.flushed && buf.storage.Len() > 0
  }

  function UploadOf(fh: nat, buf: Buffer): Upload {
    Upload(fh, buf.ino, buf.storage.ReadAll(), buf.hashed)
  }

  function Step(limits: Limits, s: State, e: Event): State {
    match e
    case Take => s.(nextFh := s.nextFh + 1, pending := s.pending + {s.nextFh})
    case Insert(fh, buf) => s.(pending := s.pending - {fh}, buffers := s.buffers[fh := buf])
    case Abandon(fh) => s.(pending := s.pending - {fh})
    case WriteTo(fh, op) =>
      if fh !in s.buffers then s
      else s.(buffers := s.buffers[fh := Write(limits, s.buffers[fh], op.offset, op.data)])
    case Flush(fh) =>
      if fh !in s.buffers || !Uploads(s.buffers[fh]) then s
      else s.(buffers := s.buffers[fh := s.buffers[fh].(flushed := true)], uploads := s.uploads + [UploadOf(fh, s.buffers[fh])])
    case Release(fh) =>
      if fh !in s.buffers then s
      else
        s.(buffers := s.buffers - {fh},
           uploads := if Uploads(s.buffers[fh]) then s.uploads + [UploadOf(fh, s.buffers[fh])] else s.uploads)
  }

  function Run(limits: Limits, s: State, events: seq<Event>): State
    decreases |events|
  {
    if events == [] then s else Run(limits, Step(limits, s, events[0]), events[1..])
  }

  predicate Legal(limits: Limits, s: State, events: seq<Event>)
    decreases |events|
  {
    events == [] || (Enabled(s, events[0]) && Legal(limits, Step(limits, s, events[0]), events[1..]))
  }

  // ---------- The reference: what each handle should upload ----------

  function UploadsBy(uploads: seq<Upload>, fh: nat): seq<Upload> {
    if uploads == [] then []
    else
      var last := uploads[|uploads| - 1];
      UploadsBy(uploads[..|uploads| - 1], fh) + (if last.fh == fh then [last] else [])
  }

  /** A flush or the release of a non-empty buffer, whether or not it was flushed before. */
  predicate Closes(s: State, e: Event, fh: nat) {
    (e == Flush(fh) || e == Release(fh)) && fh in s.buffers && s.buffers[fh].storage.Len() > 0
  }

  /** The upload a handle is due: the buffer as it stands at the first closing event, and no other. */
  function Due(limits: Limits, s: State, events: seq<Event>, fh: nat): seq<Upload>
    decreases |events|
  {
    if events == [] then []
    else if Closes(s, events[0], fh) then [UploadOf(fh, s.buffers[fh])]
    else Due(limits, Step(limits, s, events[0]), events[1..], fh)
  }

  // ---------- Invariants ----------

  ghost predicate Inv(s: State) {
    && (forall fh :: fh in s.pending ==> fh < s.nextFh && fh !in s.buffers)
    && (forall fh :: fh in s.buffers ==> fh < s.nextFh)
  }

  lemma StepKeepsInv(limits: Limits, s: State, e: Event)
    requires Inv(s) && Enabled(s, e)
    ensures Inv(Step(limits, s, e))
    ensures Step(limits, s, e).nextFh == s.nextFh + (if e.Take? then 1 else 0)
  {
  }

  /** Nothing more is to come from this handle. */
  predicate Settled(s: State, fh: nat) {
    fh < s.nextFh && fh !in s.pending && (fh in s.buffers ==> s.buffers[fh].flushed)
  }

  /** The number is drawn and gone. */
  predicate Gone(s: State, fh: nat) {
    fh < s.nextFh && fh !in s.pending && fh !in s.buffers
  }

  lemma UploadsBySnoc(uploads: seq<Upload>, u: Upload, fh: nat)
    ensures UploadsBy(uploads + [u], fh) == UploadsBy(uploads, fh) + (if u.fh == fh then [u] else [])
  {
    assert (uploads + [u])[..|uploads|] == uploads;
  }

  /** What one step uploads for one handle. */
  lemma StepUploads(limits: Limits, s: State, e: Event, fh: nat)
    requires Inv(s) && Enabled(s, e)
    ensures UploadsBy(Step(limits, s, e).uploads, fh)
         == UploadsBy(s.uploads, fh) + (if Closes(s, e, fh) && !s.buffers[fh].flushed then [UploadOf(fh, s.buffers[fh])] else [])
    ensures Settled(s, fh) ==> Settled(Step(limits, s, e), fh)
    ensures Gone(s, fh) ==> Gone(Step(limits, s, e), fh) && !Closes(s, e, fh)
    ensures Closes(s, e, fh) ==> Settled(Step(limits, s, e), fh)
    ensures !Settled(s, fh) && !Closes(s, e, fh) && Settled(Step(limits, s, e), fh) ==> Gone(Step(limits, s, e), fh)
  {
    assert UploadsBy(s.uploads, fh) + [] == UploadsBy(s.uploads, fh);
    if (e.Flush? || e.Release?) && e.fh in s.buffers {
      UploadsBySnoc(s.uploads, UploadOf(e.fh, s.buffers[e.fh]), fh);
    }
  }

  lemma {:induction false} SettledStays(limits: Limits, s: State, events: seq<Event>, fh: nat)
    requires Inv(s) && Legal(limits, s, events) && Settled(s, fh)
    ensures UploadsBy(Run(limits, s, events).uploads, fh) == UploadsBy(s.uploads, fh)
    ensures Gone(s, fh) ==> Gone(Run(limits, s, events), fh) && Due(limits, s, events, fh) == []
    decreases |events|
  {
    if events == [] {
    } else {
      hide Step, UploadsBy, Settled, Gone, Closes;
      StepKeepsInv(limits, s, events[0]);
      StepUploads(limits, s, events[0], fh);
      SettledMeans(s, events[0], fh);
      SettledStays(limits, Step(limits, s, events[0]), events[1..], fh);
    }
  }

  lemma SettledMeans(s: State, e: Event, fh: nat)
    requires Settled(s, fh)
    ensures Closes(s, e, fh) ==> s.buffers[fh].flushed
  {
  }

  /**
   * Exactly the due upload: over every interleaving, a handle that is not settled yet uploads its buffer at its first
   * closing event and never again.
   */
  lemma {:induction false} UploadsAreDue(limits: Limits, s: State, events: seq<Event>, fh: nat)
    requires Inv(s) && Legal(limits, s, events) && !Settled(s, fh)
    ensures UploadsBy(Run(limits, s, events).uploads, fh) == UploadsBy(s.uploads, fh) + Due(limits, s, events, fh)
    decreases |events|
  {
    if events == [] {
      assert UploadsBy(s.uploads, fh) + [] == UploadsBy(s.uploads, fh);
    } else {
      var after := Step(limits, s, events[0]);
      StepKeepsInv(limits, s, events[0]);
      StepUploads(limits, s, events[0], fh);
      UnsettledMeans(s, events[0], fh);
      hide Step, UploadsBy, Settled, Gone, Closes;
      if Settled(after, fh) {
        SettledStays(limits, after, events[1..], fh);
      } else {
        UploadsAreDue(limits, after, events[1..], fh);
      }
    }
  }

  lemma UnsettledMeans(s: State, e: Event, fh: nat)
    requires !Settled(s, fh) && Inv(s)
    ensures Closes(s, e, fh) ==> !s.buffers[fh].flushed
  {
  }

  lemma {:induction false} DueAtMostOne(limits: Limits, s: State, events: seq<Event>, fh: nat)
    ensures |Due(limits, s, events, fh)| <= 1
    decreases |events|
  {
    if events != [] { DueAtMostOne(limits, Step(limits, s, events[0]), events[1..], fh); }
  }

  /** From the start: each handle's uploads are exactly its due one, so at most one. */
  lemma EachHandleUploadsOnce(limits: Limits, events: seq<Event>, fh: nat)
    requires Legal(limits, START, events)
    ensures UploadsBy(Run(limits, START, events).uploads, fh) == Due(limits, START, events, fh)
    ensures |UploadsBy(Run(limits, START, events).uploads, fh)| <= 1
  {
    if Settled(START, fh) {
      SettledStays(limits, START, events, fh);
    } else {
      UploadsAreDue(limits, START, events, fh);
      assert [] + Due(limits, START, events, fh) == Due(limits, START, events, fh);
    }
    DueAtMostOne(limits, START, events, fh);
  }

  // ---------- Released handles, and numbers ----------

  lemma {:induction false} RunKeepsInv(limits: Limits, s: State, events: seq<Event>)
    requires Inv(s) && Legal(limits, s, events)
    ensures Inv(Run(limits, s, events)) && Run(limits, s, events).nextFh >= s.nextFh
    decreases |events|
  {
    if events != [] {
      StepKeepsInv(limits, s, events[0]);
      RunKeepsInv(limits, Step(limits, s, events[0]), events[1..]);
    }
  }

  lemma {:induction false} RunAppend(limits: Limits, s: State, before: seq<Event>, after: seq<Event>)
    ensures Run(limits, s, before + after) == Run(limits, Run(limits, s, before), after)
    ensures Legal(limits, s, before + after) <==> Legal(limits, s, before) && Legal(limits, Run(limits, s, before), after)
    decreases |before|
  {
    if before == [] {
      assert [] + after == after;
    } else {
      assert (before + after)[0] == before[0] && (before + after)[1..] == before[1..] + after;
      hide Step;
      RunAppend(limits, Step(limits, s, before[0]), before[1..], after);
    }
  }

  /** A buffer's `flushed` flag says whether its upload has been started. */
  ghost predicate FlagTellsUpload(s: State, fh: nat) {
    && (fh in s.buffers ==> |UploadsBy(s.uploads, fh)| == if s.buffers[fh].flushed then 1 else 0)
    && (fh in s.pending || fh >= s.nextFh ==> UploadsBy(s.uploads, fh) == [])
  }

  lemma StepKeepsFlag(limits: Limits, s: State, e: Event, fh: nat)
    requires Inv(s) && FlagTellsUpload(s, fh) && Enabled(s, e)
    ensures FlagTellsUpload(Step(limits, s, e), fh)
  {
    StepUploads(limits, s, e, fh);
    hide UploadsBy;
  }

  lemma {:induction false} RunKeepsFlag(limits: Limits, s: State, events: seq<Event>, fh: nat)
    requires Inv(s) && FlagTellsUpload(s, fh) && Legal(limits, s, events)
    ensures FlagTellsUpload(Run(limits, s, events), fh)
    decreases |events|
  {
    if events != [] {
      StepKeepsInv(limits, s, events[0]);
      StepKeepsFlag(limits, s, events[0], fh);
      RunKeepsFlag(limits, Step(limits, s, events[0]), events[1..], fh);
    }
  }

  /**
   * Whatever happens before and after, a handle that has been released has started exactly one upload when its buffer was
   * non-empty or had been flushed non-empty, none otherwise; and its number never comes back.
   */
  lemma ReleasedHandle(limits: Limits, before: seq<Event>, fh: nat, after: seq<Event>)
    requires Legal(limits, START, before + [Release(fh)] + after)
    requires fh in Run(limits, START, before).buffers
    ensures
      var buf := Run(limits, START, before).buffers[fh];
      var end := Run(limits, START, before + [Release(fh)] + after);
      && |UploadsBy(end.uploads, fh)| == (if buf.flushed || buf.storage.Len() > 0 then 1 else 0)
      && Gone(end, fh)
  {
    RunAppend(limits, START, before + [Release(fh)], after);
    RunAppend(limits, START, before, [Release(fh)]);
    RunKeepsInv(limits, START, before);
    RunKeepsFlag(limits, START, before, fh);
    var s := Run(limits, START, before);
    var released := Step(limits, s, Release(fh));
    assert [Release(fh)][1..] == [];
    assert Run(limits, s, [Release(fh)]) == released;
    StepKeepsInv(limits, s, Release(fh));
    StepUploads(limits, s, Release(fh), fh);
    SettledStays(limits, released, after, fh);
  }

  /** Handle numbers are never drawn twice, even those of a `create` that then fails. */
  lemma NumbersAreDistinct(limits: Limits, before: seq<Event>, between: seq<Event>)
    requires Legal(limits, START, before + [Take] + between)
    ensures Run(limits, START, before).nextFh < Run(limits, START, before + [Take] + between).nextFh
  {
    RunAppend(limits, START, before + [Take], between);
    RunAppend(limits, START, before, [Take]);
    RunKeepsInv(limits, START, before);
    var s := Run(limits, START, before);
    assert [Take][1..] == [];
    assert Run(limits, s, [Take]) == Step(limits, s, Take);
    StepKeepsInv(limits, s, Take);
    RunKeepsInv(limits, Step(limits, s, Take), between);
  }

  /** Handle number 0, the answer to every read-only open, is never a writable handle. */
  lemma {:induction false} NeverZero(limits: Limits, s: State, events: seq<Event>)
    requires s.nextFh >= 1 && 0 !in s.pending && 0 !in s.buffers && Legal(limits, s, events)
    ensures
      var end := Run(limits, s, events);
      end.nextFh >= 1 && 0 !in end.pending && 0 !in end.buffers
    decreases |events|
  {
    if events != [] { NeverZero(limits, Step(limits, s, events[0]), events[1..]); }
  }

  /** From the start on no writable handle is number 0. */
  lemma WritableIsNotZero(limits: Limits, events: seq<Event>)
    requires Legal(limits, START, events)
    ensures 0 !in Run(limits, START, events).buffers && 0 !in Run(limits, START, events).pending
  {
    NeverZero(limits, START, events);
  }

  // ---------- What is uploaded ----------

  /** The writes a handle takes before its first closing event. */
  function WritesBefore(limits: Limits, s: State, events: seq<Event>, fh: nat): seq<WriteOp>
    decreases |events|
  {
    if events == [] || Closes(s, events[0], fh) then []
    else
      (if events[0].WriteTo? && events[0].fh == fh then [events[0].op] else [])
        + WritesBefore(limits, Step(limits, s, events[0]), events[1..], fh)
  }

  /** Other handles do not matter: the upload is the handle's own buffer after its own writes. */
  lemma {:induction false} UploadIsOwnWrites(limits: Limits, s: State, events: seq<Event>, fh: nat)
    requires Inv(s) && Legal(limits, s, events) && fh in s.buffers
    requires Due(limits, s, events, fh) != []
    ensures
      var upload, buf := Due(limits, s, events, fh)[0], WriteAll(limits, s.buffers[fh], WritesBefore(limits, s, events, fh));
      && upload.fh == fh && upload.ino == s.buffers[fh].ino == buf.ino
      && upload.bytes == buf.storage.ReadAll() && upload.hashed == buf.hashed
    decreases |events|
  {
    var e := events[0];
    if Closes(s, e, fh) {
    } else {
      var after := Step(limits, s, e);
      StepKeepsInv(limits, s, e);
      var rest := WritesBefore(limits, after, events[1..], fh);
      if e == Release(fh) {
        SettledStays(limits, after, events[1..], fh);
      } else if e.WriteTo? && e.fh == fh {
        UploadIsOwnWrites(limits, after, events[1..], fh);
        assert ([e.op] + rest)[1..] == rest;
      } else {
        assert after.buffers[fh] == s.buffers[fh];
        UploadIsOwnWrites(limits, after, events[1..], fh);
        assert [] + rest == rest;
      }
    }
  }

  /**
   * End to end: if a handle's writes each land at the end, then in every interleaving the bytes it uploads are its initial
   * contents plus everything it accepted, and the announced hash is the hash of exactly those bytes.
   */
  lemma UploadIsWhatWasWritten(limits: Limits, s: State, events: seq<Event>, fh: nat)
    requires Inv(s) && Legal(limits, s, events) && fh in s.buffers && Sound(s.buffers[fh])
    requires EachAtEnd(limits, s.buffers[fh], WritesBefore(limits, s, events, fh))
    requires Due(limits, s, events, fh) != []
    ensures
      var upload := Due(limits, s, events, fh)[0];
      && upload.bytes == s.buffers[fh].storage.ReadAll() + Accepted(limits, s.buffers[fh], WritesBefore(limits, s, events, fh))
      && upload.hashed == upload.bytes && upload.fh == fh && upload.ino == s.buffers[fh].ino
  {
    UploadIsOwnWrites(limits, s, events, fh);
    SpillIsTransparent(limits, s.buffers[fh], WritesBefore(limits, s, events, fh));
  }

  /** A new buffer starts sound, so the theorem above applies to every handle from its insertion on. */
  lemma OpeningIsSound(ino: nat, parent: nat, name: string, initial: Bytes, append: bool)
    ensures Sound(Opening(ino, parent, name, initial, append)) && !Opening(ino, parent, name, initial, append).flushed
    ensures
      var buf := Opening(ino, parent, name, initial, append);
      && buf.storage.ReadAll() == buf.hashed == initial && buf.storage.Memory?
      && buf.ino == ino && buf.parent == parent && buf.name == name && buf.append == append
  {
  }
}

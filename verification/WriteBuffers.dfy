/** The buffer behind a writable handle: memory that spills to a file, hashed as it grows. */
module WriteBuffers {
  import opened Wrappers

  type Bytes = seq<Byte>

  /** `written` is the length the code keeps beside the spill file; it need not be the file's length. */
  datatype Storage = Memory(v: Bytes) | Disk(file: Bytes, written: nat) {
    function Len(): nat {
      if Memory? then |v| else written
    }

    function ReadAll(): Bytes {
      if Memory? then v else file
    }
  }

  /** `hashed` is everything the running hasher has been fed; `append` is the O_APPEND flag. */
  datatype Buffer = Buffer(ino: nat, parent: nat, name: string, storage: Storage, hashed: Bytes, flushed: bool, append: bool)

  datatype Limits = Limits(maxWriteBytes: nat, spillThreshold: nat)

  function Zeros(n: nat): (z: Bytes)
    ensures |z| == n && forall i :: 0 <= i < n ==> z[i] == 0
  {
    seq(n, _ => 0)
  }

  /** What a write at an offset means for a plain file: pad with zeros up to the end, then overwrite. */
  function Overwrite(base: Bytes, offset: nat, data: Bytes): (r: Bytes)
    ensures var end := offset + |data|;
      && |r| == (if |base| < end then end else |base|)
      && forall i :: 0 <= i < |r| ==>
           r[i] == if offset <= i < end then data[i - offset] else if i < |base| then base[i] else 0
  {
    var end := offset + |data|;
    var padded := if |base| < end then base + Zeros(end - |base|) else base;
    padded[..offset] + data + padded[end..]
  }

  // ---------- The write callback ----------

  function Offset(buf: Buffer, offset: nat): nat {
    if buf.append then buf.storage.Len() else offset
  }

  /** Moving to disk copies the memory, pads a gap, and puts the new data after that. */
  function SpillFile(v: Bytes, offset: nat, data: Bytes): Bytes {
    (if |v| < offset then v + Zeros(offset - |v|) else v) + data
  }

  /** `seek` and `write_all`: writing nothing does not extend the file. */
  function FileWrite(file: Bytes, offset: nat, data: Bytes): Bytes {
    if data == [] then file else Overwrite(file, offset, data)
  }

  function Stored(storage: Storage, offset: nat, data: Bytes, spillThreshold: nat): Storage {
    var end := offset + |data|;
    match storage
    case Memory(v) =>
      if end > spillThreshold then Disk(SpillFile(v, offset, data), end) else Memory(Overwrite(v, offset, data))
    case Disk(file, _) => Disk(FileWrite(file, offset, data), end)
  }

  predicate TooBig(limits: Limits, buf: Buffer, offset: nat, data: Bytes) {
    Offset(buf, offset) + |data| > limits.maxWriteBytes
  }

  function Write(limits: Limits, buf: Buffer, offset: nat, data: Bytes): Buffer {
    if TooBig(limits, buf, offset, data) then buf
    else buf.(storage := Stored(buf.storage, Offset(buf, offset), data, limits.spillThreshold), hashed := buf.hashed + data)
  }

  // ---------- One write ----------

  /** The recorded length is the length of what reads back. */
  predicate LengthIsRight(s: Storage) {
    s.Len() == |s.ReadAll()|
  }

  /** The storage holds exactly `content`. */
  predicate Holds(s: Storage, content: Bytes) {
    s.ReadAll() == content && s.Len() == |content|
  }

  /** When one accepted write behaves like a write to a plain file. */
  predicate LikeAFile(s: Storage, offset: nat, data: Bytes, spillThreshold: nat) {
    var end := offset + |data|;
    match s
    case Memory(v) => end > spillThreshold ==> offset >= |v|
    case Disk(file, _) => end >= |file| && (data == [] ==> offset <= |file|)
  }

  /** A write below the end loses to the copy when it spills, and on disk it cuts the recorded length short; all others are exact. */
  lemma {:induction false} WriteIsOverwriteIff(s: Storage, offset: nat, data: Bytes, spillThreshold: nat)
    ensures Holds(Stored(s, offset, data, spillThreshold), Overwrite(s.ReadAll(), offset, data))
      <==> LikeAFile(s, offset, data, spillThreshold)
  {
    var whole := Overwrite(s.ReadAll(), offset, data);
    match s
    case Memory(v) =>
      if offset + |data| > spillThreshold {
        if |v| <= offset { assert SpillFile(v, offset, data) == whole; }
        else { assert |SpillFile(v, offset, data)| == |v| + |data|; }
      }
    case Disk(file, _) =>
      if data == [] && offset <= |file| { assert whole == file; }
  }

  /**
   * The size limit: a write is refused, and then changes nothing, exactly when the byte after its last would lie past the
   * limit; one that ends at the limit is accepted, and everything accepted is hashed.
   */
  lemma LimitIff(limits: Limits, buf: Buffer, offset: nat, data: Bytes)
    ensures
      var end := (if buf.append then buf.storage.Len() else offset) + |data|;
      if end > limits.maxWriteBytes then TooBig(limits, buf, offset, data) && Write(limits, buf, offset, data) == buf
      else
        var after := Write(limits, buf, offset, data);
        && !TooBig(limits, buf, offset, data) && after.hashed == buf.hashed + data
        && after.storage == Stored(buf.storage, end - |data|, data, limits.spillThreshold)
        && after.(storage := buf.storage, hashed := buf.hashed) == buf
  {
  }

  /** No buffer outgrows the limit. */
  lemma {:induction false} RunWithinLimit(limits: Limits, buf: Buffer, ops: seq<WriteOp>)
    requires buf.storage.Len() <= limits.maxWriteBytes
    ensures WriteAll(limits, buf, ops).storage.Len() <= limits.maxWriteBytes
    decreases |ops|
  {
    if ops != [] {
      LimitIff(limits, buf, ops[0].offset, ops[0].data);
      RunWithinLimit(limits, Write(limits, buf, ops[0].offset, ops[0].data), ops[1..]);
    }
  }

  /** A buffer spills exactly when a write ends past the threshold, and never comes back to memory. */
  lemma SpillsIff(s: Storage, offset: nat, data: Bytes, spillThreshold: nat)
    ensures Stored(s, offset, data, spillThreshold).Disk? <==> s.Disk? || offset + |data| > spillThreshold
    ensures Stored(s, offset, data, spillThreshold).Disk? ==> Stored(s, offset, data, spillThreshold).written == offset + |data|
  {
  }

  /** Two bytes rewritten at the front: a spill appends the byte, and on disk the recorded length shrinks to one. */
  lemma WritesBelowTheEnd(two: Bytes, data: Bytes)
    requires two == [1, 2] && data == [9]
    ensures Overwrite(two, 0, data) == [9, 2]
    ensures Stored(Memory(two), 0, data, 0) == Disk([1, 2, 9], 1)
    ensures Stored(Disk(two, 2), 0, data, 0) == Disk([9, 2], 1)
  {
    assert two + data == [1, 2, 9];
    assert Overwrite(two, 0, data) == [9, 2];
  }

  /** Contents, length and running hash all tell the same story. */
  predicate Sound(buf: Buffer) {
    Holds(buf.storage, buf.hashed)
  }

  predicate AtEnd(buf: Buffer, offset: nat) {
    buf.append || offset == buf.storage.Len()
  }

  /** A zero-length write inside a memory buffer: the one case besides `AtEnd` that keeps the hash true. */
  predicate Harmless(limits: Limits, buf: Buffer, offset: nat, data: Bytes) {
    data == [] && buf.storage.Memory? && !buf.append && offset < buf.storage.Len() && offset <= limits.spillThreshold
  }

  /** The uploaded hash follows write order: an accepted write keeps the buffer sound exactly when it lands at the end. */
  lemma {:induction false} SoundIff(limits: Limits, buf: Buffer, offset: nat, data: Bytes)
    requires Sound(buf) && !TooBig(limits, buf, offset, data)
    ensures
      var after := Write(limits, buf, offset, data);
      (Sound(after) && after.storage.ReadAll() == Overwrite(buf.storage.ReadAll(), Offset(buf, offset), data))
        <==> (AtEnd(buf, offset) || Harmless(limits, buf, offset, data))
  {
    var at, s := Offset(buf, offset), buf.storage;
    WriteIsOverwriteIff(s, at, data, limits.spillThreshold);
    var whole := Overwrite(s.ReadAll(), at, data);
    if at == s.Len() || (data == [] && at < s.Len()) {
      assert whole == buf.hashed + data;
    }
  }

  // ---------- Runs of writes ----------

  datatype WriteOp = WriteOp(offset: nat, data: Bytes)

  function WriteAll(limits: Limits, buf: Buffer, ops: seq<WriteOp>): Buffer
    decreases |ops|
  {
    if ops == [] then buf
    else WriteAll(limits, Write(limits, buf, ops[0].offset, ops[0].data), ops[1..])
  }

  /** The data of the writes that are not refused. */
  function Accepted(limits: Limits, buf: Buffer, ops: seq<WriteOp>): Bytes
    decreases |ops|
  {
    if ops == [] then []
    else
      (if TooBig(limits, buf, ops[0].offset, ops[0].data) then [] else ops[0].data)
        + Accepted(limits, Write(limits, buf, ops[0].offset, ops[0].data), ops[1..])
  }

  /** Every write of the run lands at the end the buffer has by then. */
  predicate EachAtEnd(limits: Limits, buf: Buffer, ops: seq<WriteOp>)
    decreases |ops|
  {
    ops == []
    || (AtEnd(buf, ops[0].offset) && EachAtEnd(limits, Write(limits, buf, ops[0].offset, ops[0].data), ops[1..]))
  }

  lemma AppendsAtEnd(limits: Limits, buf: Buffer, offset: nat, data: Bytes)
    requires Sound(buf) && AtEnd(buf, offset)
    ensures
      var after := Write(limits, buf, offset, data);
      && Sound(after)
      && after.hashed == buf.hashed + (if TooBig(limits, buf, offset, data) then [] else data)
  {
    if !TooBig(limits, buf, offset, data) { SoundIff(limits, buf, offset, data); }
    assert buf.hashed + [] == buf.hashed;
  }

  lemma Assoc(a: Bytes, b: Bytes, c: Bytes)
    ensures a + b + c == a + (b + c)
  {
  }

  /** Spilling is invisible: a run of writes at the end reads back as the start plus every accepted write, hashed as such. */
  lemma {:induction false} SpillIsTransparent(limits: Limits, buf: Buffer, ops: seq<WriteOp>)
    requires Sound(buf) && EachAtEnd(limits, buf, ops)
    ensures
      var end := WriteAll(limits, buf, ops);
      && Sound(end)
      && end.storage.ReadAll() == buf.storage.ReadAll() + Accepted(limits, buf, ops)
    decreases |ops|
  {
    if ops == [] {
      assert buf.hashed + [] == buf.hashed;
    } else {
      var w := ops[0];
      AppendsAtEnd(limits, buf, w.offset, w.data);
      hide Write, TooBig, AtEnd;
      var after := Write(limits, buf, w.offset, w.data);
      SpillIsTransparent(limits, after, ops[1..]);
      var first := if TooBig(limits, buf, w.offset, w.data) then [] else w.data;
      Assoc(buf.hashed, first, Accepted(limits, after, ops[1..]));
    }
  }

  /** Two buffers that look alike from outside, whatever their storage. */
  predicate Alike(a: Buffer, b: Buffer) {
    a.storage.Len() == b.storage.Len() && a.storage.ReadAll() == b.storage.ReadAll() && a.hashed == b.hashed && a.append == b.append
  }

  /** Where the spill happens cannot be observed: runs under different thresholds stay alike. */
  lemma {:induction false} ThresholdDoesNotMatter(maxWriteBytes: nat, t1: nat, t2: nat, a: Buffer, b: Buffer, ops: seq<WriteOp>)
    requires Sound(a) && Alike(a, b) && EachAtEnd(Limits(maxWriteBytes, t1), a, ops)
    ensures EachAtEnd(Limits(maxWriteBytes, t2), b, ops)
    ensures Alike(WriteAll(Limits(maxWriteBytes, t1), a, ops), WriteAll(Limits(maxWriteBytes, t2), b, ops))
    decreases |ops|
  {
    if ops == [] {
    } else {
      var w := ops[0];
      AppendsAtEnd(Limits(maxWriteBytes, t1), a, w.offset, w.data);
      AppendsAtEnd(Limits(maxWriteBytes, t2), b, w.offset, w.data);
      ThresholdDoesNotMatter(maxWriteBytes, t1, t2, Write(Limits(maxWriteBytes, t1), a, w.offset, w.data),
                             Write(Limits(maxWriteBytes, t2), b, w.offset, w.data), ops[1..]);
    }
  }

  /** The same run on a plain file. */
  function FileAfter(limits: Limits, buf: Buffer, content: Bytes, ops: seq<WriteOp>): Bytes
    decreases |ops|
  {
    if ops == [] then content
    else
      var w := ops[0];
      FileAfter(limits, Write(limits, buf, w.offset, w.data),
                if TooBig(limits, buf, w.offset, w.data) then content else Overwrite(content, Offset(buf, w.offset), w.data), ops[1..])
  }

  predicate EachLikeAFile(limits: Limits, buf: Buffer, ops: seq<WriteOp>)
    decreases |ops|
  {
    ops == []
    || (var w := ops[0];
        && (TooBig(limits, buf, w.offset, w.data) || LikeAFile(buf.storage, Offset(buf, w.offset), w.data, limits.spillThreshold))
        && EachLikeAFile(limits, Write(limits, buf, w.offset, w.data), ops[1..]))
  }

  /** Writes at any offset refine a plain file as long as each meets the condition of `WriteIsOverwriteIff`. */
  lemma {:induction false} RunIsAFile(limits: Limits, buf: Buffer, ops: seq<WriteOp>)
    requires LengthIsRight(buf.storage) && EachLikeAFile(limits, buf, ops)
    ensures Holds(WriteAll(limits, buf, ops).storage, FileAfter(limits, buf, buf.storage.ReadAll(), ops))
    decreases |ops|
  {
    if ops == [] {
    } else {
      var w := ops[0];
      WriteIsOverwriteIff(buf.storage, Offset(buf, w.offset), w.data, limits.spillThreshold);
      RunIsAFile(limits, Write(limits, buf, w.offset, w.data), ops[1..]);
    }
  }

  /** As long as a buffer stays in memory it refines a plain file at every offset. */
  lemma {:induction false} MemoryIsAFile(limits: Limits, buf: Buffer, ops: seq<WriteOp>)
    requires buf.storage.Memory? && WriteAll(limits, buf, ops).storage.Memory?
    ensures EachLikeAFile(limits, buf, ops)
    ensures Holds(WriteAll(limits, buf, ops).storage, FileAfter(limits, buf, buf.storage.ReadAll(), ops))
    decreases |ops|
  {
    if ops == [] {
    } else {
      var w := ops[0];
      var after := Write(limits, buf, w.offset, w.data);
      if after.storage.Disk? { DiskStays(limits, after, ops[1..]); }
      MemoryIsAFile(limits, after, ops[1..]);
    }
  }

  lemma {:induction false} DiskStays(limits: Limits, buf: Buffer, ops: seq<WriteOp>)
    requires buf.storage.Disk?
    ensures WriteAll(limits, buf, ops).storage.Disk?
    decreases |ops|
  {
    if ops != [] { DiskStays(limits, Write(limits, buf, ops[0].offset, ops[0].data), ops[1..]); }
  }
}

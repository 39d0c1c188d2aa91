/** The write callbacks of the filesystem, as methods that refine the steps of `Handles`. */
module FileSystem {
  import opened Wrappers
  import opened WriteBuffers
  import opened Handles

  datatype Errno = EROFS | EBADF | EFBIG | ENOENT | EISDIR | EACCES | ENOTDIR | EEXIST | EIO

  datatype Reply = Ok | Opened(handle: nat) | Written(count: U32) | Failed(error: Errno)

  /** What the inode table says about the file being opened. */
  datatype Target = Missing | Directory | Static(data: Bytes) | RemoteOrLocal

  class BlossomFS {
    const limits: Limits
    var frozen: bool
    var nextFh: nat
    var writeState: map<nat, Buffer>
    /** Calls of `do_upload`, in order. */
    var uploads: seq<Upload>
    /** Files removed again after a failed upload, as (parent, name). */
    var cleanups: seq<(nat, string)>

    constructor (limits: Limits)
      ensures Shown() == START && !frozen && cleanups == [] && this.limits == limits
    {
      this.limits := limits;
      frozen, nextFh, writeState, uploads, cleanups := false, 1, map[], [], [];
    }

    /** Between callbacks no handle number is pending. */
    ghost function Shown(): State
      reads this
    {
      State(nextFh, {}, writeState, uploads)
    }

    method Open(ino: nat, target: Target, writable: bool, truncate: bool, append: bool) returns (reply: Reply)
      modifies this`nextFh, this`writeState
      ensures !writable || frozen ==> Shown() == old(Shown()) && reply == (if target.Missing? then Failed(ENOENT) else Opened(0))
      ensures writable && !frozen && !target.Static? ==>
        Shown() == old(Shown()) && reply == Failed(if target.Missing? then ENOENT else if target.Directory? then EISDIR else EACCES)
      ensures writable && !frozen && target.Static? ==>
        var fh := old(nextFh);
        && reply == Opened(fh)
        && Shown() == Run(limits, old(Shown()),
             [Take, Insert(fh, Opening(ino, 0, "", if truncate then [] else target.data, append))])
    {
      if !writable || frozen {
        if target.Missing? { return Failed(ENOENT); }
        return Opened(0);
      }
      var initialData: Bytes := [];
      match target {
        case Missing => return Failed(ENOENT);
        case Directory => return Failed(EISDIR);
        case RemoteOrLocal => return Failed(EACCES);
        case Static(data) => if !truncate { initialData := data; }
      }
      var fh := nextFh;
      nextFh := nextFh + 1;
      writeState := writeState[fh := Buffer(ino, 0, "", Memory(initialData), initialData, false, append)];
      TakeThen(limits, old(Shown()), Insert(fh, Opening(ino, 0, "", initialData, append)));
      return Opened(fh);
    }

    /** `existing` is what `lookup` finds under the name, `added` the inode a new file gets. */
    method Create(parent: nat, parentIsDir: bool, name: string, existing: Option<nat>, added: nat, truncate: bool, append: bool)
      returns (reply: Reply)
      modifies this`nextFh, this`writeState
      ensures frozen ==> Shown() == old(Shown()) && reply == Failed(EROFS)
      ensures !frozen && (!parentIsDir || (existing.Some? && !truncate)) ==>
        && Shown() == Run(limits, old(Shown()), [Take, Abandon(old(nextFh))])
        && reply == Failed(if parentIsDir then EEXIST else ENOTDIR)
      ensures !frozen && parentIsDir && (existing.None? || truncate) ==>
        var ino := if existing.Some? then existing.value else added;
        && Shown() == Run(limits, old(Shown()), [Take, Insert(old(nextFh), Opening(ino, parent, name, [], append))])
        && reply == Opened(old(nextFh))
    {
      if frozen { return Failed(EROFS); }
      var fh := nextFh;
      nextFh := nextFh + 1;
      TakeThen(limits, old(Shown()), Abandon(fh));
      if !parentIsDir { return Failed(ENOTDIR); }
      var ino := added;
      if existing.Some? {
        if !truncate { return Failed(EEXIST); }
        ino := existing.value;
      }
      writeState := writeState[fh := Buffer(ino, parent, name, Memory([]), [], false, append)];
      TakeThen(limits, old(Shown()), Insert(fh, Opening(ino, parent, name, [], append)));
      return Opened(fh);
    }

    /** `newSize` is the file size the inode table is told. */
    method Write(fh: nat, offset: nat, data: Bytes) returns (reply: Reply, newSize: nat)
      modifies this`writeState
      ensures frozen ==> Shown() == old(Shown()) && reply == Failed(EROFS)
      ensures !frozen ==> Shown() == Step(limits, old(Shown()), WriteTo(fh, WriteOp(offset, data)))
      ensures !frozen && fh !in writeState ==> reply == Failed(EBADF)
      ensures !frozen && fh in writeState ==>
        && fh in old(writeState)
        && if TooBig(limits, old(writeState[fh]), offset, data) then reply == Failed(EFBIG) && writeState == old(writeState)
           else reply == Written(|data| % 0x1_0000_0000) && newSize == writeState[fh].storage.Len()
    {
      newSize := 0;
      if frozen { return Failed(EROFS), 0; }
      if fh !in writeState { return Failed(EBADF), 0; }
      var buf := writeState[fh];
      var effectiveOffset := if buf.append then buf.storage.Len() else offset;
      var end := effectiveOffset + |data|;
      if end > limits.maxWriteBytes {
        assert writeState[fh := buf] == writeState;
        return Failed(EFBIG), 0;
      }
      var storage := buf.storage;
      match storage {
        case Memory(v) =>
          if end > limits.spillThreshold {
            var temp := v;
            if |v| < effectiveOffset { temp := temp + Zeros(effectiveOffset - |v|); }
            temp := temp + data;
            storage := Disk(temp, end);
          } else {
            var resized := if |v| < end then v + Zeros(end - |v|) else v;
            resized := resized[..effectiveOffset] + data + resized[end..];
            storage := Memory(resized);
          }
        case Disk(file, _) =>
          if data != [] { file := Overwrite(file, effectiveOffset, data); }
          storage := Disk(file, end);
      }
      writeState := writeState[fh := buf.(hashed := buf.hashed + data, storage := storage)];
      return Written(|data| % 0x1_0000_0000), storage.Len();
    }

    /** `uploadOk` is the outcome of the upload, should one be started. */
    method Flush(fh: nat, uploadOk: bool) returns (reply: Reply)
      modifies this`writeState, this`uploads
      ensures Shown() == Step(limits, old(Shown()), Handles.Flush(fh))
      ensures reply == if uploads != old(uploads) && !uploadOk then Failed(EIO) else Ok
    {
      if fh in writeState {
        var buf := writeState[fh];
        if !buf.flushed && buf.storage.Len() > 0 {
          writeState := writeState[fh := buf.(flushed := true)];
          uploads := uploads + [Upload(fh, buf.ino, buf.storage.ReadAll(), buf.hashed)];
          if !uploadOk { return Failed(EIO); }
        }
      }
      return Ok;
    }

    /** Always answers ok; if the fallback upload fails, a file made by `Create` is removed again. */
    method Release(fh: nat, uploadOk: bool) returns (reply: Reply)
      modifies this`writeState, this`uploads, this`cleanups
      ensures Shown() == Step(limits, old(Shown()), Handles.Release(fh)) && reply == Ok
      ensures fh !in writeState
      ensures cleanups == old(cleanups)
        + (if uploads != old(uploads) && !uploadOk then [(old(writeState)[fh].parent, old(writeState)[fh].name)] else [])
    {
      if fh in writeState {
        var buf := writeState[fh];
        writeState := writeState - {fh};
        if !buf.flushed && buf.storage.Len() > 0 {
          uploads := uploads + [Upload(fh, buf.ino, buf.storage.ReadAll(), buf.hashed)];
          if !uploadOk { cleanups := cleanups + [(buf.parent, buf.name)]; }
        }
      }
      return Ok;
    }
  }

  /** A callback draws a number and uses it before the next callback. */
  lemma TakeThen(limits: Limits, s: State, e: Event)
    requires s.pending == {} && ((e.Insert? || e.Abandon?) && e.fh == s.nextFh)
    ensures
      var after := Run(limits, s, [Take, e]);
      && after.pending == {} && after.nextFh == s.nextFh + 1 && after.uploads == s.uploads
      && after.buffers == if e.Insert? then s.buffers[e.fh := e.buf] else s.buffers
  {
    assert [Take, e][1..] == [e] && [e][1..] == [];
    var taken := Step(limits, s, Take);
    assert taken.pending - {s.nextFh} == {};
    assert Run(limits, taken, [e]) == Step(limits, taken, e);
  }
}

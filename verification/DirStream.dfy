/** Streaming a directory through replies of limited size. */
module DirStream {
  import opened Wrappers
  import Sanitize

  datatype FileType = Directory | RegularFile

  datatype Entry = Entry(ino: nat, kind: FileType, name: string)

  /** A directory record as sent: `offset` is where to continue after it. */
  datatype Dirent = Dirent(entry: Entry, offset: nat)

  /** The whole stream: ".", "..", then the children in order, numbered from one. */
  function Whole(ino: nat, parent: nat, children: seq<Entry>): seq<Dirent> {
    var all := [Entry(ino, Directory, "."), Entry(parent, Directory, "..")] + children;
    seq(|all|, i requires 0 <= i < |all| => Dirent(all[i], i + 1))
  }

  lemma WholeIsNumbered(ino: nat, parent: nat, children: seq<Entry>)
    ensures
      var whole := Whole(ino, parent, children);
      && |whole| == 2 + |children|
      && (forall i :: 0 <= i < |whole| ==> whole[i].offset == i + 1)
      && whole[0].entry == Entry(ino, Directory, ".") && whole[1].entry == Entry(parent, Directory, "..")
      && forall i :: 2 <= i < |whole| ==> whole[i].entry == children[i - 2]
  {
  }

  /** Bytes of a record in the reply: a 24-byte header and the name in UTF-8, padded to eight. */
  function Size(d: Dirent): (n: nat)
    ensures n >= 24
  {
    (24 + Sanitize.ByteLen(d.entry.name) + 7) / 8 * 8
  }

  /** The longest leading run that fits. */
  function Fit(ds: seq<Dirent>, room: nat): (n: nat)
    ensures n <= |ds|
  {
    if ds == [] || Size(ds[0]) > room then 0 else 1 + Fit(ds[1..], room - Size(ds[0]))
  }

  /** A record takes the least multiple of eight that holds its header and its name. */
  lemma SizeIsPadded(d: Dirent)
    ensures Size(d) % 8 == 0 && 24 + Sanitize.ByteLen(d.entry.name) <= Size(d) < 32 + Sanitize.ByteLen(d.entry.name)
  {
  }

  function TotalSize(ds: seq<Dirent>): nat {
    if ds == [] then 0 else Size(ds[0]) + TotalSize(ds[1..])
  }

  /** The run that fits is the longest that does. */
  lemma {:induction false} FitIsLongest(ds: seq<Dirent>, room: nat)
    ensures
      var n := Fit(ds, room);
      TotalSize(ds[..n]) <= room && (n < |ds| ==> TotalSize(ds[..n + 1]) > room)
  {
    if ds != [] {
      var rest := ds[1..];
      if Size(ds[0]) <= room {
        FitIsLongest(rest, room - Size(ds[0]));
        var n := Fit(rest, room - Size(ds[0]));
        assert ds[..n + 1][1..] == rest[..n];
        if n < |rest| { assert ds[..n + 2][1..] == rest[..n + 1]; }
      } else {
        assert ds[..1][1..] == [];
      }
    }
  }

  /** What one call with this much room replies: the records after the offset that fit. */
  function Reply(whole: seq<Dirent>, offset: nat, room: nat): seq<Dirent> {
    var from := Min(offset, |whole|);
    whole[from..from + Fit(whole[from..], room)]
  }

  class ReplyDirectory {
    var room: nat
    var sent: seq<Dirent>

    constructor (room: nat)
      ensures this.room == room && sent == []
    {
      this.room, sent := room, [];
    }

    /** Answers whether the buffer is full; a record that does not fit is not added. */
    method Add(ino: nat, offset: nat, kind: FileType, name: string) returns (full: bool)
      modifies this
      ensures
        var d := Dirent(Entry(ino, kind, name), offset);
        && full == (Size(d) > old(room))
        && if full then room == old(room) && sent == old(sent)
           else room == old(room) - Size(d) && sent == old(sent) + [d]
    {
      var d := Dirent(Entry(ino, kind, name), offset);
      full := Size(d) > room;
      if !full {
        room := room - Size(d);
        sent := sent + [d];
      }
    }
  }

  lemma FitStep(ds: seq<Dirent>, k: nat, room: nat)
    requires k <= |ds|
    ensures k == |ds| ==> Fit(ds[k..], room) == 0
    ensures k < |ds| ==> Fit(ds[k..], room) == if Size(ds[k]) > room then 0 else 1 + Fit(ds[k + 1..], room - Size(ds[k]))
  {
    if k < |ds| { assert ds[k..][1..] == ds[k + 1..]; }
  }

  /** Records up to `next` have been treated; `sent` are those from the offset on, and `room` is left. */
  ghost predicate Filling(whole: seq<Dirent>, offset: nat, initialRoom: nat, next: nat, room: nat, sent: seq<Dirent>) {
    var from := Min(offset, |whole|);
    var k := if next < from then from else next;
    && next <= |whole| && sent == whole[from..k]
    && Fit(whole[from..], initialRoom) == k - from + Fit(whole[k..], room)
  }

  lemma FillingStep(whole: seq<Dirent>, offset: nat, initialRoom: nat, next: nat, room: nat, sent: seq<Dirent>)
    requires Filling(whole, offset, initialRoom, next, room, sent)
    ensures next < |whole| && offset >= next + 1 ==> Filling(whole, offset, initialRoom, next + 1, room, sent)
    ensures next < |whole| && offset < next + 1 && Size(whole[next]) <= room ==>
      Filling(whole, offset, initialRoom, next + 1, room - Size(whole[next]), sent + [whole[next]])
    ensures next == |whole| || (offset < next + 1 && Size(whole[next]) > room) ==>
      sent == Reply(whole, offset, initialRoom)
  {
    var from := Min(offset, |whole|);
    FitStep(whole, if next < from then from else next, room);
  }

  /** `offset < d.offset && reply.add(d)`: answers whether the reply is full. */
  method AddAfter(reply: ReplyDirectory, d: Dirent, offset: nat, ghost whole: seq<Dirent>, ghost initialRoom: nat, ghost next: nat)
    returns (full: bool)
    requires Filling(whole, offset, initialRoom, next, reply.room, reply.sent)
    requires next < |whole| && whole[next] == d && d.offset == next + 1
    modifies reply
    ensures full ==> reply.sent == Reply(whole, offset, initialRoom)
    ensures !full ==> Filling(whole, offset, initialRoom, next + 1, reply.room, reply.sent)
  {
    FillingStep(whole, offset, initialRoom, next, reply.room, reply.sent);
    full := false;
    hide Filling, Fit, Reply;
    if offset < d.offset { full := reply.Add(d.entry.ino, d.offset, d.entry.kind, d.entry.name); }
  }

  /** `readdir` from an offset: the records after it that fit, in order, none skipped. */
  method Readdir(ino: nat, parent: nat, children: seq<Entry>, offset: nat, reply: ReplyDirectory)
    requires reply.sent == []
    modifies reply
    ensures reply.sent == Reply(Whole(ino, parent, children), offset, old(reply.room))
  {
    ghost var whole := Whole(ino, parent, children);
    ghost var initialRoom := reply.room;
    assert Filling(whole, offset, initialRoom, 0, reply.room, reply.sent);
    WholeIsNumbered(ino, parent, children);
    hide Whole, Filling, Fit, Reply, Size;
    var full := AddAfter(reply, Dirent(Entry(ino, Directory, "."), 1), offset, whole, initialRoom, 0);
    if full { return; }
    full := AddAfter(reply, Dirent(Entry(parent, Directory, ".."), 2), offset, whole, initialRoom, 1);
    if full { return; }
    for i := 0 to |children|
      invariant Filling(whole, offset, initialRoom, 2 + i, reply.room, reply.sent)
    {
      assert whole[2 + i] == Dirent(children[i], 3 + i);
      full := AddAfter(reply, Dirent(children[i], 3 + i), offset, whole, initialRoom, 2 + i);
      if full { return; }
    }
    FillingStep(whole, offset, initialRoom, 2 + |children|, reply.room, reply.sent);
  }

  // ---------- Reading a directory call by call ----------

  /** One call's room, and how many of the records sent the kernel takes before it asks again. */
  datatype Call = Call(room: nat, taken: nat)

  /** The records the reader gets: each call continues from the offset of the last record taken; an empty reply ends it. */
  function Stream(whole: seq<Dirent>, offset: nat, calls: seq<Call>): seq<Dirent>
    decreases |calls|
  {
    if calls == [] then []
    else
      var reply := Reply(whole, offset, calls[0].room);
      var taken := reply[..Min(calls[0].taken, |reply|)];
      if reply == [] then []
      else taken + Stream(whole, if taken == [] then offset else taken[|taken| - 1].offset, calls[1..])
  }

  /** Each record's offset is its position, counted from one. */
  ghost predicate Numbered(whole: seq<Dirent>) {
    forall i :: 0 <= i < |whole| ==> whole[i].offset == i + 1
  }

  /** How many records fit, and where the reader continues after one call. */
  function Fits(whole: seq<Dirent>, offset: nat, room: nat): (n: nat)
    requires offset <= |whole|
    ensures offset + n <= |whole|
  {
    Fit(whole[offset..], room)
  }

  function Next(whole: seq<Dirent>, offset: nat, call: Call): (next: nat)
    requires offset <= |whole|
    ensures offset <= next <= |whole|
  {
    offset + Min(call.taken, Fits(whole, offset, call.room))
  }

  /** Where the reader ends up. */
  function End(whole: seq<Dirent>, offset: nat, calls: seq<Call>): (end: nat)
    requires offset <= |whole|
    ensures offset <= end <= |whole|
    decreases |calls|
  {
    if calls == [] || Fits(whole, offset, calls[0].room) == 0 then offset
    else End(whole, Next(whole, offset, calls[0]), calls[1..])
  }

  lemma StreamStep(whole: seq<Dirent>, offset: nat, calls: seq<Call>)
    requires offset <= |whole| && calls != [] && Numbered(whole)
    ensures
      var next := Next(whole, offset, calls[0]);
      Stream(whole, offset, calls) ==
        if Fits(whole, offset, calls[0].room) == 0 then [] else whole[offset..next] + Stream(whole, next, calls[1..])
  {
    var n := Fits(whole, offset, calls[0].room);
    ReplyIsSlice(whole, offset, calls[0].room);
    Prefix(whole, offset, n, calls[0].taken);
    NextIs(whole, offset, calls[0]);
    hide Fit, Fits, Reply, Next, Numbered, Min;
    var next := Next(whole, offset, calls[0]);
    var part := Reply(whole, offset, calls[0].room)[..Min(calls[0].taken, n)];
    assert part == whole[offset..next];
    assert (if part == [] then offset else part[|part| - 1].offset) == next;
  }

  lemma NextIs(whole: seq<Dirent>, offset: nat, call: Call)
    requires offset <= |whole|
    ensures 0 <= Min(call.taken, Fits(whole, offset, call.room)) <= Fits(whole, offset, call.room)
    ensures Next(whole, offset, call) == offset + Min(call.taken, Fits(whole, offset, call.room))
  {
  }

  lemma ReplyIsSlice(whole: seq<Dirent>, offset: nat, room: nat)
    requires offset <= |whole|
    ensures Reply(whole, offset, room) == whole[offset..offset + Fits(whole, offset, room)]
    ensures |Reply(whole, offset, room)| == Fits(whole, offset, room)
  {
  }

  /** The records taken out of a reply, and the offset of the last one. */
  lemma Prefix(whole: seq<Dirent>, offset: nat, n: nat, taken: nat)
    requires offset + n <= |whole| && Numbered(whole)
    ensures
      var part := whole[offset..offset + n][..Min(taken, n)];
      && part == whole[offset..offset + Min(taken, n)]
      && (part != [] ==> part[|part| - 1].offset == offset + Min(taken, n))
  {
  }

  lemma Slices(whole: seq<Dirent>, offset: nat, next: nat, end: nat)
    requires offset <= next <= end <= |whole|
    ensures whole[offset..next] + whole[next..end] == whole[offset..end]
  {
  }

  /** Whatever the sizes, the reader gets a run of the stream: in order, nothing twice, nothing skipped. */
  lemma {:induction false} StreamIsARun(whole: seq<Dirent>, offset: nat, calls: seq<Call>)
    requires offset <= |whole| && Numbered(whole)
    ensures Stream(whole, offset, calls) == whole[offset..End(whole, offset, calls)]
    decreases |calls|
  {
    if calls == [] {
    } else {
      StreamStep(whole, offset, calls);
      hide Stream, Fits, Next, Numbered;
      var next := Next(whole, offset, calls[0]);
      StreamIsARun(whole, next, calls[1..]);
      Slices(whole, offset, next, End(whole, next, calls[1..]));
    }
  }

  /** Room for any one record, and at least one record taken. */
  ghost predicate Roomy(whole: seq<Dirent>, calls: seq<Call>) {
    forall i, j :: 0 <= i < |calls| && 0 <= j < |whole| ==> calls[i].taken >= 1 && Size(whole[j]) <= calls[i].room
  }

  /** A call makes progress exactly when its reply has room for the next record. */
  lemma ProgressIff(whole: seq<Dirent>, offset: nat, room: nat)
    requires offset < |whole|
    ensures Reply(whole, offset, room) != [] <==> Size(whole[offset]) <= room
    ensures Fits(whole, offset, room) > 0 <==> Size(whole[offset]) <= room
  {
    FitStep(whole, offset, room);
  }

  lemma {:induction false} RoomyReachesEnd(whole: seq<Dirent>, offset: nat, calls: seq<Call>)
    requires offset <= |whole| && Roomy(whole, calls) && |calls| >= |whole| - offset
    ensures End(whole, offset, calls) == |whole|
    decreases |calls|
  {
    if calls != [] && offset < |whole| {
      ProgressIff(whole, offset, calls[0].room);
      hide Fits, Size;
      RoomyReachesEnd(whole, Next(whole, offset, calls[0]), calls[1..]);
    }
  }

  /**
   * Every child exactly once: repeating `readdir` from the last record taken yields ".", "..", then each child in order,
   * within as many calls as there are records; the next call is empty.
   */
  lemma {:induction false} StreamIsComplete(ino: nat, parent: nat, children: seq<Entry>, calls: seq<Call>, nextRoom: nat)
    requires Roomy(Whole(ino, parent, children), calls) && |calls| >= 2 + |children|
    ensures Stream(Whole(ino, parent, children), 0, calls) == Whole(ino, parent, children)
    ensures Reply(Whole(ino, parent, children), 2 + |children|, nextRoom) == []
  {
    var whole := Whole(ino, parent, children);
    WholeIsNumbered(ino, parent, children);
    StreamIsARun(whole, 0, calls);
    RoomyReachesEnd(whole, 0, calls);
    assert whole[0..|whole|] == whole;
  }
}

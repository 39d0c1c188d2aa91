/** Listing every blob of a key, page by page, with the last hash of a full page as the cursor. */
module Pagination {
  import opened Wrappers

  datatype Blob = Blob(sha256: string, size: nat)

  const MAX_PAGES: nat := 10_000

  /** A server following BUD-12: its listing in order, and the most it puts on one page. */
  datatype Server = Server(listing: seq<Blob>, cap: nat)

  ghost predicate DistinctHashes(listing: seq<Blob>) {
    forall i, j :: 0 <= i < j < |listing| ==> listing[i].sha256 != listing[j].sha256
  }

  /** The position right after the blob a cursor names, or the start. */
  function After(listing: seq<Blob>, cursor: Option<string>): (i: nat)
    ensures i <= |listing|
  {
    if cursor.None? || listing == [] then 0
    else if listing[0].sha256 == cursor.value then 1
    else
      var rest := After(listing[1..], cursor);
      if rest == 0 then 0 else rest + 1
  }

  function Page(server: Server, cursor: Option<string>, limit: nat): seq<Blob> {
    var start := After(server.listing, cursor);
    server.listing[start..Min(start + Min(limit, server.cap), |server.listing|)]
  }

  lemma {:induction false} AfterFinds(listing: seq<Blob>, i: nat)
    requires DistinctHashes(listing) && i < |listing|
    ensures After(listing, Some(listing[i].sha256)) == i + 1
  {
    if i > 0 {
      assert listing[0].sha256 != listing[i].sha256;
      assert listing[1..][i - 1] == listing[i];
      AfterFinds(listing[1..], i - 1);
    }
  }

  // ---------- The client ----------

  datatype ListResponse = ListResponse(descriptors: seq<Blob>, cursor: Option<string>)

  /** A page at least as long as asked for names its last hash as the next cursor. */
  function ListBlobs(server: Server, cursor: Option<string>, limit: U32): ListResponse {
    var page := Page(server, cursor, limit);
    ListResponse(page, if page != [] && |page| >= limit then Some(page[|page| - 1].sha256) else None)
  }

  /** How much of the listing the client gets to see. */
  function Reach(server: Server, max: nat, pageSize: U32): nat {
    var byPages := if pageSize <= server.cap then MAX_PAGES * pageSize else server.cap;
    var seen := Min(|server.listing|, byPages);
    if max > 0 then Min(seen, max) else seen
  }

  lemma NextPage(server: Server, cursor: Option<string>, start: nat, pageSize: U32)
    requires DistinctHashes(server.listing) && start <= |server.listing|
    requires cursor == if start == 0 then None else Some(server.listing[start - 1].sha256)
    ensures
      var response := ListBlobs(server, cursor, pageSize);
      var end := Min(start + Min(pageSize, server.cap), |server.listing|);
      && server.listing[..start] + response.descriptors == server.listing[..end]
      && response.cursor ==
           if 0 < pageSize <= server.cap && start + pageSize <= |server.listing|
           then Some(server.listing[start + pageSize - 1].sha256) else None
  {
    hide After, DistinctHashes;
    StartsAt(server.listing, cursor, start);
  }

  lemma StartsAt(listing: seq<Blob>, cursor: Option<string>, start: nat)
    requires DistinctHashes(listing) && start <= |listing|
    requires cursor == if start == 0 then None else Some(listing[start - 1].sha256)
    ensures After(listing, cursor) == start
  {
    if start > 0 { AfterFinds(listing, start - 1); }
  }

  lemma Times(a: nat, b: nat, c: nat)
    requires a <= b
    ensures a * c <= b * c && (c == 0 ==> a * c == 0)
  {
  }

  /** Where the pages end: the last allowed page, the end of the listing, or a first page the server cut short. */
  lemma ReachIs(server: Server, max: nat, pageSize: U32, seen: nat, pages: nat)
    requires pages <= MAX_PAGES && seen <= |server.listing|
    requires
      || (pageSize <= server.cap && seen == pages * pageSize && (pages == MAX_PAGES || pageSize == 0))
      || (pageSize <= server.cap && seen == |server.listing| <= pages * pageSize)
      || (pageSize > server.cap && seen == Min(|server.listing|, server.cap))
    ensures Reach(server, max, pageSize) == if max > 0 then Min(seen, max) else seen
  {
    Times(pages, MAX_PAGES, pageSize);
  }

  lemma ReachIsMax(server: Server, max: nat, pageSize: U32, seen: nat, pages: nat)
    requires 0 < max <= seen <= |server.listing| && pages <= MAX_PAGES
    requires seen <= if pageSize <= server.cap then pages * pageSize else server.cap
    ensures Reach(server, max, pageSize) == max
  {
    Times(pages, MAX_PAGES, pageSize);
  }

  /** Page number `i`, counted from zero, is asked for when nothing fails: the pages before it were full and left room. */
  predicate Requested(server: Server, max: nat, pageSize: U32, i: nat) {
    && i < MAX_PAGES
    && (i > 0 ==> 0 < pageSize <= server.cap && i * pageSize <= |server.listing| && (max > 0 ==> i * pageSize < max))
  }

  ghost predicate SomeRequestFails(server: Server, max: nat, pageSize: U32, failing: set<nat>) {
    exists i :: i in failing && Requested(server, max, pageSize, i)
  }

  lemma RequestFails(server: Server, max: nat, pageSize: U32, failing: set<nat>, i: nat)
    requires i in failing && Requested(server, max, pageSize, i)
    ensures SomeRequestFails(server, max, pageSize, failing)
  {
  }

  /** After the page at which the loop stops nothing is asked for. */
  lemma NothingMore(server: Server, max: nat, pageSize: U32, failing: set<nat>, pages: nat)
    requires pages >= 1 && forall i :: i in failing ==> i >= pages
    requires !Requested(server, max, pageSize, pages)
    ensures !SomeRequestFails(server, max, pageSize, failing)
  {
    forall i | i in failing ensures !Requested(server, max, pageSize, i) {
      Times(pages, i, pageSize);
    }
  }

  /** `list_all_blobs`: the answer is a prefix of the server's listing. `failing` holds the page requests that fail. */
  method ListAllBlobs(server: Server, max: nat, pageSize: U32, failing: set<nat>) returns (result: Option<seq<Blob>>)
    requires DistinctHashes(server.listing)
    ensures result.None? <==> SomeRequestFails(server, max, pageSize, failing)
    ensures result.Some? ==> result.value == server.listing[..Reach(server, max, pageSize)]
  {
    var all: seq<Blob> := [];
    var cursor: Option<string> := None;
    var page := 0;
    hide ListBlobs, Reach, DistinctHashes, SomeRequestFails;
    while page < MAX_PAGES
      invariant page <= MAX_PAGES && |all| == page * pageSize
      invariant |all| <= |server.listing| && all == server.listing[..|all|]
      invariant max > 0 ==> |all| < max
      invariant page > 0 ==> 0 < pageSize <= server.cap
      invariant cursor == if |all| == 0 then None else Some(server.listing[|all| - 1].sha256)
      invariant forall i :: i in failing ==> i >= page
    {
      if page in failing {
        RequestFails(server, max, pageSize, failing, page);
        return None;
      }
      var response := ListBlobs(server, cursor, pageSize);
      NextPage(server, cursor, |all|, pageSize);
      assert (page + 1) * pageSize == |all| + pageSize;
      all := all + response.descriptors;
      if max > 0 && |all| >= max {
        ReachIsMax(server, max, pageSize, |all|, page + 1);
        NothingMore(server, max, pageSize, failing, page + 1);
        all := all[..max];
        return Some(all);
      }
      page := page + 1;
      match response.cursor {
        case Some(c) => cursor := Some(c);
        case None =>
          ReachIs(server, max, pageSize, |all|, page);
          NothingMore(server, max, pageSize, failing, page);
          return Some(all);
      }
    }
    if pageSize <= server.cap { ReachIs(server, max, pageSize, |all|, page); }
    NothingMore(server, max, pageSize, failing, page);
    return Some(all);
  }

  /** A server whose pages are as long as asked for is listed completely exactly when the limits leave room. */
  lemma {:induction false} CompleteIff(server: Server, max: nat, pageSize: U32)
    ensures server.listing[..Reach(server, max, pageSize)] == server.listing <==>
      (max == 0 || max >= |server.listing|)
      && |server.listing| <= if pageSize <= server.cap then 10000 * pageSize else server.cap
  {
    assert server.listing[..|server.listing|] == server.listing;
  }
}

# BlossomFS in Dafny

BlossomFS is a FUSE filesystem over content-addressed blobs. This project models the parts of it that hold state, loops
and arithmetic, and proves what those parts promise:

- the inode-arena tree: its operations, the printing of the user part to tags and the rebuilding from them, the three
  views of a descriptor list, and the calendar formula behind the by-date view
  (`TreeModel`, `TreePaths`, `TreeDirs`, `TreeRemoval`, `Tree`, `Persist`, `PersistProof`, `RestoredFiles`, `Restore`,
  `RoundTrip`, `Views*`, `Calendar`, `Sanitize`);
- the read path: readers that interleave step by step over a set of hashes being fetched, a condition variable and a
  verified cache (`SingleFlight`, `SingleFlightProof`, `SingleFlightRuns`, `ObjectCache`, `Eviction`);
- the write path: the buffer that spills to disk under a running hash, the life cycle of handles, the callbacks, and the
  retry loop with payment (`WriteBuffers`, `Handles`, `FileSystem`, `Retry`);
- the client's loops: resumable multipart upload across crashes, and cursor pagination (`Multipart`, `Pagination`);
- the inode allocator, directory streaming and the wallet-URI decoder (`Inodes`, `DirStream`, `Nwc`).

Code that works in place is a class or a method here too (`InodeTree.Tree`, `ObjectCache.Cache`, `Eviction.CacheDir`,
`FileSystem.BlossomFS`, `Retry.Uploader`, `Multipart.MultipartClient`, `Inodes.InodeAllocator`, `DirStream.Readdir`,
`Nwc.PercentDecode`, ...), proved equal to a function on values; the theorems are about those functions. Concurrent
code is a state machine whose steps are the mutex sections, file accesses and server replies.

SHA-256 is an arbitrary function on byte sequences, and an incremental hasher is the concatenation of what it was fed.
The server, the disk, the clock and the kernel choose freely among their possible answers, as parameters or as steps.

## Where the code falls short of its promise

For each of these an exact condition says when the promise holds; lemmas with a concrete case stand beside it.

- A tree can hold a directory and a file, or two different files, of one name; persistence keeps the directory, or else the
  first listed file (`RoundTrip.PersistenceRoundTrip`). At a mount, a file standing at or above a persisted path keeps it from
  coming back, and directories wanted inside a file are made where nothing leads (`RoundTrip.RemountRoundTrip`).
- `persist_tags` promises to skip only the `public/` subtree, but a root name that merely starts with "public", as
  `publications`, is skipped with it (`RoundTrip.UserEntriesReturnIff`, `RoundTrip.PublicationsLost`).
- `add_directory` under the number it is about to give out lists a directory in itself (`TreeModel.AttachKeepsWf`). This
  concerns the function's own parameter: `mkdir` checks its parent first.
- `get_or_create_dir` looks up the raw name but stores the sanitised one, and takes a file for a parent, as the walk over a
  path does when a file stands on the way; either way every call makes another directory (`TreeDirs.GetOrCreateTwice`).
- Years past the u32 range wrap (`Calendar.LastTimestampWraps`).
- A cache hit after locking is released before it is read; exclusion holds exactly in the runs in which no such hit is lost
  (`SingleFlightRuns.ExclusionIff`, with `SingleFlightProof.TwoOwners`). A 206 body is not verified; a read is right exactly
  when the partial reply it was given was (`SingleFlightRuns.ReadIsSliceIff`).
- The documentation of `evict_oldest` says the file named `keep` is never evicted; the comparison is with the text as
  given, while names on disk are lower case (`Eviction.KeepsIffNormalised`). The model follows the code.
- A write below the end that spills is appended instead of overwritten, a disk write below the end shortens the recorded
  length, and the hash follows write order (`WriteBuffers.WriteIsOverwriteIff`, `WriteBuffers.SoundIff`).
- The documentation of `upload_with_retry` says 429 and 5xx are retried; of the 5xx only 500, 502, 503 and 504 are
  (`Retry.AttemptMeans`). The model follows the code.
- The delay shift wraps after 64 attempts (`Retry.RetryBounds`), and with no attempt allowed the loop runs into `unreachable!`
  (`Retry.UnreachableIff`). These concern the function's own parameter: its callers allow three attempts.
- A session file cut short while being written blocks multipart for that blob for good, and only that does
  (`Multipart.GetsThroughIff`, `Multipart.TornSaveHappens`). A server that grants too many or too large parts makes the slice
  panic (`Multipart.PanicFreeIff`); the saved session then gets no call through until it expires, and otherwise one can
  resume it whenever its chunks cover the data (`Multipart.ResumesIff`).

## Model

| member | source | states |
|---|---|---|
| `RoundTrip.PersistenceRoundTrip` | src/fuse/tree.rs:354-473 | For every well-formed tree, printing, publishing, extracting and rebuilding on a fresh tree gives a well-formed tree with unique names that holds only entries of the old tree, each path its survivor (a directory before any file, else the first listed file), and that holds exactly the directories and remote files (hash, size, MIME type with empty = none) at exactly their paths outside root children starting with "public", if and only if no persistable path carries two different entries |
| `RoundTrip.RemountRoundTrip` | src/main.rs:535-595 | The round trip at a real mount, for any well-formed tree standing there before the tags are applied: its own entries are left alone, everything else found is a persisted entry at its own path, every restored file is fetched from the server's address of its hash, and every persisted entry is found again if and only if no persisted path carries two different entries and the mount has nothing else at any persisted path |
| `RoundTrip.RemountedEntries` | src/main.rs:535-595 | Exactly what stands at each path after the next mount: the mount's own entry, else the old tree's survivor unless the mount has a file above it |
| `RoundTrip.FileInTheWay` | src/main.rs:535-595 | A static file of the mount, as the generated README.txt, keeps a persisted directory of its name from coming back |
| `RoundTrip.UniqueTreesRoundTrip` | src/fuse/tree.rs:354-473 | Trees without two siblings of one name always survive the round trip on a fresh tree |
| `RoundTrip.DirAndFileOfOneName` | src/fuse/tree.rs:213-227 | A tree the code accepts, with a directory and a remote file of one name, does not survive it |
| `RoundTrip.UserPathReturnsIff` | src/fuse/tree.rs:347-391 | Entry by entry, the path of a directory or remote file outside the subtree of `public` is there again after the round trip exactly when its root name does not merely start with "public" |
| `RoundTrip.UserEntriesReturnIff` | src/fuse/tree.rs:347-391 | All of them return as they were exactly when no persistable path carries two different entries and no directory or remote file in the root has a name that merely starts with "public" |
| `RoundTrip.PublicationsLost` | src/fuse/tree.rs:371-391 | A root directory `publications` does not come back |
| `Restore.ApplyPrinted` | src/fuse/tree.rs:418-473 | Applying a printed listing to any well-formed tree, with or without unique names and with files standing anywhere: what stands there is kept, the first claim to a free path wins (directories first, then blobs, in listed order) and brings the directories above it, and nothing appears below a file, whether it stood there or was just restored |
| `Restore.FolderPass` | src/fuse/tree.rs:419-430 | The folder pass meets the claims of the listed directories on any tree |
| `Restore.FilePass` | src/fuse/tree.rs:432-472 | The file pass meets the claims of the listed blobs on any tree, making the directories they need |
| `Restore.RestoredTogether` | src/fuse/tree.rs:418-473 | Meeting some claims and then others is meeting them all in that order |
| `RestoredFiles.TagsApplied` | src/fuse/tree.rs:418-473 | Whatever tags are applied to a well-formed tree, also another client's: it stays well-formed, no file there changes, every path leads where it led, a path that newly leads somewhere leads to a new node, and every new file is remote with no expiry and no upload time, its URL being the server's text without trailing slashes, a slash, and the hash |
| `RestoredFiles.OneAddress` | src/fuse/tree.rs:457-457 | A server text with or without slashes at its end gives the same URL, base plus slash plus hash, and no other |
| `RestoredFiles.FileTagForms` | src/fuse/tree.rs:432-472 | Tags of other forms: a missing MIME type is an empty one, further fields and leading slashes do not matter, a size that is no number is zero, a path ending in a slash only makes its directories, anything shorter or of another name does nothing |
| `RestoredFiles.FolderTagForms` | src/fuse/tree.rs:419-430 | The same for folder tags: further fields, leading and trailing slashes do not matter; anything shorter or of another name does nothing |
| `Persist.WireRoundTrip` | src/nostr/persist.rs:106-124 | Tags of the two persisted shapes pass the publish filter and the extract filter unchanged and in order; the metadata tags do not come back |
| `Persist.PublishEventTags` | src/nostr/persist.rs:101-125 | The loop that builds the event keeps the two metadata tags first and then the well-shaped content tags in order |
| `Persist.PublishedIsShaped` | src/nostr/persist.rs:101-125 | Whatever tags are published, the event names the drive, then blossomfs, and then holds shaped tags only |
| `Persist.PublicIsTextual` | src/fuse/tree.rs:371-391 | The textual prefix test for the generated subtree is a test of the first path component alone |
| `Persist.PathTextParts` | src/fuse/tree.rs:443-446 | Splitting the printed text of a path of clean names gives back the path |
| `PersistProof.CollectIsListing` | src/fuse/tree.rs:361-412 | What the recursive printer emits is the printed form of the tree's listing |
| `PersistProof.ListingIsReachable` | src/fuse/tree.rs:361-412 | An entry is listed exactly when it is reachable at that path and persistable |
| `InodeTree.Tree.CollectPersist` | src/fuse/tree.rs:361-412 | The recursion over the shared path and tag list terminates, restores the path, and appends exactly the subtree's tags |
| `InodeTree.Tree.PersistTags` | src/fuse/tree.rs:354-359 | Prints the whole tree from the root |
| `InodeTree.Tree.MakePath` | src/fuse/tree.rs:422-428 | The walk over path parts creates exactly what the specification of making a path creates, and ends at its directory |
| `InodeTree.Tree.ApplyPersisted` | src/fuse/tree.rs:418-473 | The two in-place passes have the effect the round trip is proved about, and on any tags keep what `RestoredFiles.TagsApplied` says, the URL of every restored file included |
| `InodeTree.Tree.ApplyFileTag` | src/fuse/tree.rs:433-471 | One file tag: malformed tags and taken names change nothing, others make the path and add the file, fetched from the server's address of its hash |
| `TreeModel.RunKeepsWf` | src/fuse/tree.rs:208-341 | Over every legal run of tree operations the tree stays well-formed: inode N sits at index N - 1, every listed child exists, is greater than its directory, points back to it and is listed once; and no inode number is reused for another node |
| `TreeModel.ListedOnce` | src/fuse/tree.rs:141-160 | A well-formed tree is a forest: a node is listed by at most one directory, its parent, and only once |
| `TreeModel.AttachKeepsWf` | src/fuse/tree.rs:213-227 | Adding a node keeps a tree well-formed exactly when a new directory is not its own parent |
| `TreeModel.AddDirKeepsWf` | src/fuse/tree.rs:213-227 | `add_directory` keeps well-formedness exactly when the parent number is not the number about to be given out |
| `TreeModel.DirectoryInItself` | src/fuse/tree.rs:213-227 | In a new tree a directory added under number two lists itself |
| `TreeModel.LazyTakenOnce` | src/fuse/tree.rs:335-342 | In any run a lazy directory is handed out for population at most once |
| `TreePaths.ResolveUnique` | src/fuse/tree.rs:141-160 | A node resolves under at most one path from any start |
| `TreePaths.ResolveAttach` | src/fuse/tree.rs:213-227 | Adding a node under any parent number changes no path that resolved, and makes exactly one new path resolve if the parent is a directory the start leads to, none otherwise |
| `TreePaths.UpdateKeepsPaths` | src/fuse/tree.rs:589-648 | Changing a node's payload changes no path |
| `TreeDirs.MkDirsGrows` | src/fuse/tree.rs:422-428 | Making a path of directories from any parts, clean or not: names are followed as given while they are found and stored sanitised from the first missing one; if that one is hidden behind a sibling of its stored name, everything is made where nothing leads; otherwise exactly those missing prefixes of the path shown come to resolve that have no file above them, as new empty directories, and behind a file the rest is made where nothing leads |
| `TreeDirs.GetOrCreateTwice` | src/fuse/tree.rs:287-292 | Under any parent number, a second `get_or_create_dir` returns the same inode and an unchanged tree exactly when the name was there, or is left alone by sanitisation and the parent is a directory (or the directory being made itself) |
| `TreeDirs.SlashMakesTwo` | src/fuse/tree.rs:287-292 | In a new tree, asking twice for a name with a slash makes two directories |
| `TreeDirs.FileParentMakesTwo` | src/fuse/tree.rs:287-292 | Asking twice for a clean name inside a file makes two directories |
| `InodeTree.Tree.constructor` | src/fuse/tree.rs:98-110 | A new tree is the root alone, and well-formed |
| `InodeTree.Tree.Lookup` | src/fuse/tree.rs:141-160 | The loop finds the first child of that name |
| `TreeRemoval.LookupIff` | src/fuse/tree.rs:141-160 | In any tree, a name finds a child exactly when it is the first of that name in child order and no dangling child stands before it |
| `InodeTree.Tree.AddDirectory` | src/fuse/tree.rs:213-227 | The new inode number is the next one, the new node is the given directory under the sanitised name, and a well-formed tree stays so unless the directory is its own parent |
| `InodeTree.Tree.AddFileToDir` | src/fuse/tree.rs:650-672 | As for directories; files always keep a tree well-formed |
| `InodeTree.Tree.GetOrCreateDir` | src/fuse/tree.rs:287-292 | In-place form of the operation whose second call `TreeDirs.GetOrCreateTwice` describes |
| `InodeTree.Tree.RemoveFileFromDir` | src/fuse/tree.rs:674-691 | Answers and acts as `TreeRemoval.RemoveFileMeans` says, and keeps the tree well-formed |
| `TreeRemoval.RemoveFileMeans` | src/fuse/tree.rs:674-691 | A file is removed exactly when the name means a file, the first child of that name; then no path leads to it, every path that led elsewhere leads there still, its directory lists all the others and no other node changed; otherwise nothing changes and whatever the name means is a directory |
| `InodeTree.Tree.RemoveDirFromDir` | src/fuse/fs.rs:1301-1328 | Answers and acts as `TreeRemoval.RemoveDirMeans` says, and keeps the tree well-formed |
| `TreeRemoval.RemoveDirMeans` | src/fuse/fs.rs:1301-1328 | Removed exactly when the name means a directory without children, which is then gone as a file is; not empty, not a directory or no entry, with nothing changed, exactly when it means a directory with children, a file, or nothing |
| `TreeRemoval.ResolveUnlist` | src/fuse/fs.rs:1322-1324 | What unlisting a leaf does to every path: none leads to it any more, what led elsewhere leads there still, and what changed led through it |
| `InodeTree.Tree.TakeLazy` | src/fuse/tree.rs:335-342 | Hands out the pending population of a directory, whatever it is, and clears it |
| `InodeTree.Tree.UpdateFileNode` | src/fuse/tree.rs:589-613 | Answers whether the inode is a file; a file then has the given content, size and time under its old name, every other node is as it was, a well-formed tree stays so, and every path leads where it led |
| `InodeTree.Tree.UpdateFileSize` | src/fuse/tree.rs:615-623 | The same for the size alone: name, content and time stay |
| `InodeTree.Tree.SetExpires` | src/fuse/tree.rs:637-648 | The same for the expiry of a remote file: hash and size stay |
| `TreeModel.AddFileKeepsWf` | src/fuse/tree.rs:650-672 | Adding a file keeps a tree well-formed under any parent number, and no older node changes identity |
| `TreeModel.UnlistKeepsWf` | src/fuse/tree.rs:674-691 | Unlisting a child keeps a tree well-formed |
| `TreeModel.UpdateKeepsWf` | src/fuse/tree.rs:589-648 | Changing a node's payload keeps a tree well-formed |
| `ViewsResult.ViewsAreExact` | src/fuse/tree.rs:479-550 | Over any descriptor list: by-sha256 lists exactly one file per distinct valid hash, carrying the first descriptor's data; by-type and by-date have a directory exactly where a valid descriptor is filed at or below it, each listing exactly the descriptors filed there, in order; no view has any other directory, no two sibling directories share a name, outside the views only the parent's list grows, by the three roots, and keys and records say what the descriptors say |
| `Views.DateKeyReads` | src/fuse/tree.rs:530-546 | The directories of the date view read as year, month and day, in this order: at least four digits, two, and two |
| `Views.TypeKeyReads` | src/fuse/tree.rs:515-528 | The directory of the type view is the MIME type, or application/octet-stream if there is none, with every slash an underscore |
| `Views.RecordSays` | src/fuse/tree.rs:494-513 | A filed file carries the descriptor's URL, hash in lower case, MIME type, expiry, size and upload time, under the hash and, after a dot, the extension |
| `ViewsResult.ShaOnlyAgrees` | src/fuse/tree.rs:552-583 | The hash-only construction lists the very same files as the hash view of the full one |
| `ViewsResult.FirstsAreFirst` | src/fuse/tree.rs:502-513 | The descriptors of the hash view are the earliest of each valid hash, one per hash |
| `ViewsResult.FiledUnderItsDate` | src/fuse/tree.rs:530-546 | A descriptor's date directories read as its counted calendar year, month and day exactly when the year fits in a u32 |
| `ViewsResult.DateKeysDistinct` | src/fuse/tree.rs:530-546 | Two dates share their directories only when they are the same date |
| `Views.KeyIsClean` | src/fuse/tree.rs:515-546 | Every directory name used by a view is left alone by sanitisation |
| `InodeTree.Tree.BuildFromDescriptors` | src/fuse/tree.rs:479-550 | The in-place loop builds the tree the view theorems are about, so under any directory of a well-formed tree the exact views |
| `InodeTree.Tree.BuildBySha256Only` | src/fuse/tree.rs:552-583 | The in-place loop builds the hash-only tree |
| `Calendar.FormulaIsCounting` | src/fuse/tree.rs:734-751 | The closed formula equals counting whole years and months off from 1970-01-01, for every day number |
| `Calendar.FormulaInverts` | src/fuse/tree.rs:734-751 | The formula's date is a valid Gregorian date, exactly that many days after 1970-01-01 |
| `Calendar.CountedNumber` | src/fuse/tree.rs:734-751 | Counting off the day number of a valid date finds that date |
| `Calendar.UnixToYmdIsCounting` | src/fuse/tree.rs:734-751 | The date of a timestamp is the counted one exactly when the counted year fits in a u32, that is, for every timestamp before 135536014634284800 |
| `Calendar.LastTimestampWraps` | src/fuse/tree.rs:750-750 | The last u64 timestamp is a case where it does not |
| `Calendar.DatesAreMonotone` | src/fuse/tree.rs:734-751 | Later days have later dates, and only they do |
| `Sanitize.SanitizePathComponent` | src/util/path.rs:82-115 | The character loop and the pop loop compute the component the lemmas are about |
| `Sanitize.ComponentIsClean` | src/util/path.rs:82-115 | Every result is non-empty, at most 255 UTF-8 bytes, without separators, control characters or ".." |
| `Sanitize.ComponentReads` | src/util/path.rs:82-115 | What a component says: the name character by character, with separators, control characters and pairs of dots as underscores and everything else as it was, cut to the longest start of at most 255 bytes, or unnamed if only underscores were left |
| `Sanitize.FixpointsAreClean` | src/util/path.rs:82-115 | Sanitising leaves a name alone exactly when it is such a component and not made of underscores only |
| `Sanitize.ComponentIdempotent` | src/util/path.rs:82-115 | Sanitising twice is sanitising once |
| `Sanitize.MimeDirIsFixpoint` | src/util/path.rs:119-133 | MIME directory names are left alone by sanitisation |
| `Sanitize.MimeDirReads` | src/util/path.rs:119-133 | A MIME directory is the type with every slash an underscore whenever that is a safe component, and unknown for an empty type |
| `Sanitize.Sha256Normalises` | src/util/path.rs:63-76 | A hash text is accepted exactly when it is 64 hex digits; the result is normalised, is the same number digit by digit, and normalising again changes nothing |
| `SingleFlightRuns.ExclusionIff` | src/fuse/fs.rs:376-482 | In every run, with any evictions, unlinks and failing reads: the shared set has held exactly the owned hashes, each with one owner, all the way to a state if and only if no hit found after locking was released and then could not be read on the way |
| `SingleFlightRuns.LostHitCause` | src/fuse/fs.rs:385-401 | A hit is lost only because the file was removed between the test that found it and the read, or because reading a file that is there failed |
| `SingleFlightRuns.StoresOnlyMissing` | src/fuse/fs.rs:403-482 | In every run without a lost hit whoever is downloading does so while the file is missing, and a step stores at most one blob, whose file was missing |
| `SingleFlightRuns.StoresAreAppearances` | src/fuse/fs.rs:403-482 | In every run without a lost hit a blob has been stored exactly as often as its file came into the cache: between two stores it was removed |
| `SingleFlightRuns.UndisturbedStoresOnce` | src/fuse/fs.rs:376-482 | While no cached file disappears and no file that is there fails to be read after a hit, exclusion holds throughout and exactly the files that were not there at the start are stored, once each |
| `SingleFlightRuns.NeverLostWakeup` | src/fuse/fs.rs:379-383 | In every run nobody sleeps on a hash that is not in the set |
| `SingleFlightRuns.WaiterHasOwner` | src/fuse/fs.rs:379-383 | In every run, also after a lost hit, whoever sleeps does so on a hash with another, live owner that can move: no reader waits for nobody |
| `SingleFlightProof.TwoOwners` | src/fuse/fs.rs:385-401 | The interleaving in which two readers fetch one hash at once after a lost hit |
| `SingleFlightProof.OwnerCanStep` | src/fuse/fs.rs:403-482 | An owner can always move |
| `SingleFlightProof.OwnershipIsShort` | src/fuse/fs.rs:376-482 | Whatever others do, an owner has released after at most eight of its own steps: every exit path releases |
| `SingleFlightProof.RunIsSound` | src/fuse/fs.rs:334-522 | In every run every cached object hashes to its name and every reader carries what the step before allows, with evictions and unlinks in between |
| `SingleFlightProof.ReadsAreSlices` | src/fuse/fs.rs:334-522 | Against honest range replies and for a hash without collisions, every successful read, by whichever path, has, byte by byte, the blob's bytes from the offset on, as many as were asked for and are there |
| `SingleFlightRuns.ReadIsSliceIff` | src/fuse/fs.rs:334-522 | Read by read, in every run: for a hash without collisions a finished read is, byte by byte, the requested range of the blob if and only if every partial reply its reader was given was that slice; a read without one is always right |
| `SingleFlightProof.DishonestRange` | src/cache/fetch.rs:181-256 | A run in which a reader finishes with bytes that are not the requested slice: nothing checks a 206 body |
| `SingleFlightProof.FullReplyServes` | src/fuse/fs.rs:418-522 | Any blob of the requested hash can be served by a server that ignores the range: a run in which it is verified, stored once, released and answered from |
| `SingleFlightProof.RefetchServes` | src/fuse/fs.rs:443-522 | The same after a failed range request, through the whole download |
| `SingleFlightProof.CachedIsServed` | src/fuse/fs.rs:364-401 | A cached file can be answered from at each of the places that read the cache |
| `SingleFlightRuns.NoEmptyRange` | src/fuse/fs.rs:357-359 | In every run a reader past the start asked for at least one byte, so the end of its range is never before its start |
| `ObjectCache.CachePathIsTheHash` | src/cache/object_cache.rs:29-43 | Two hash texts share a cache file exactly when they are the same hash up to case |
| `ObjectCache.CacheLayout` | src/cache/object_cache.rs:29-43 | An object lies under objects, the first two and the next two digits of its hash, and is named by the hash in lower case; exactly valid hash texts have a path |
| `ObjectCache.Cache.VerifyAndCache` | src/cache/fetch.rs:138-170 | Stores exactly when the computed hash is the expected one up to case; otherwise nothing changes; every object keeps sitting at the path of its own hash |
| `ObjectCache.Cache.Exists` | src/cache/object_cache.rs:59-64 | In an intact cache a hash text is found exactly when some cached object has that hash, in either case; an invalid text never is |
| `ObjectCache.FoundObject` | src/cache/object_cache.rs:59-64 | The path of a hash text is taken exactly when an object of that hash is cached |
| `ObjectCache.Cache.Remove` | src/fuse/fs.rs:1270-1275 | Removing a cached object keeps the others intact |
| `Eviction.EvictionIsExact` | src/cache/object_cache.rs:84-156 | Nothing protected or undeletable goes; files and bytes are conserved; the result is within the limit unless only protected and undeletable files remain; the last removal was still needed; no removed file is newer than a removable one that stays |
| `Eviction.KeepsIffNormalised` | src/cache/object_cache.rs:128-130 | The object `keep` names is never evicted, whatever else is cached, exactly when `keep` is written in lower case |
| `Eviction.SortedSorts` | src/cache/object_cache.rs:118-118 | The age sort orders by time and loses nothing |
| `Eviction.SortedIsStable` | src/cache/object_cache.rs:118-118 | Files of one age stay in the order of the walk |
| `Eviction.CacheDir.EvictOldestFiles` | src/cache/object_cache.rs:84-156 | The directory afterwards is what the eviction theorem calls kept, and the counters are the bytes and number of the removed files |
| `Eviction.CacheDir.RemoveOldest` | src/cache/object_cache.rs:120-148 | The removal loop, with its running total and counters |
| `WriteBuffers.WriteIsOverwriteIff` | src/fuse/fs.rs:1411-1443 | An accepted write leaves the contents and length of a zero-extended overwrite exactly when: in memory always; on spilling, the offset is at or past the end; on disk, the write ends at or past the end and is not an empty write beyond it |
| `WriteBuffers.WritesBelowTheEnd` | src/fuse/fs.rs:1428-1442 | A byte rewritten at the front is appended by a spill, and on disk shortens the recorded length to one |
| `WriteBuffers.LimitIff` | src/fuse/fs.rs:1401-1409 | A write is refused, and then changes nothing, exactly when it would end past the size limit; one that ends at the limit is accepted and hashed |
| `WriteBuffers.RunWithinLimit` | src/fuse/fs.rs:1401-1409 | No run of writes makes a buffer outgrow the limit |
| `WriteBuffers.SpillsIff` | src/fuse/fs.rs:1417-1434 | A buffer is on disk after a write exactly when it was before or the write ends past the threshold |
| `WriteBuffers.SoundIff` | src/fuse/fs.rs:1401-1447 | Contents, length and running hash stay in agreement exactly when the write lands at the end, or is an empty write inside a memory buffer |
| `WriteBuffers.SpillIsTransparent` | src/fuse/fs.rs:1401-1447 | A run of writes each landing at the current end reads back as the initial data plus every accepted write, with the right length and hashed as such, wherever it spills; writes over the size limit change nothing |
| `WriteBuffers.ThresholdDoesNotMatter` | src/fuse/fs.rs:1417-1434 | Such runs under two different spill thresholds cannot be told apart |
| `WriteBuffers.RunIsAFile` | src/fuse/fs.rs:1401-1447 | Runs at any offsets refine a plain file while each write meets the exact condition |
| `WriteBuffers.MemoryIsAFile` | src/fuse/fs.rs:1435-1440 | A buffer that stays in memory refines a plain file at every offset |
| `Handles.EachHandleUploadsOnce` | src/fuse/fs.rs:1457-1519 | In every interleaving a handle's uploads are exactly the one due at its first flush or release of a non-empty buffer, so at most one |
| `Handles.UploadsAreDue` | src/fuse/fs.rs:1457-1519 | The same from any state of a run |
| `Handles.ReleasedHandle` | src/fuse/fs.rs:1491-1519 | A released handle has started exactly one upload if its buffer was non-empty or had been flushed non-empty, none otherwise, and its number never comes back |
| `Handles.NumbersAreDistinct` | src/fuse/fs.rs:1032-1049 | Handle numbers are never drawn twice, even those of a failing create |
| `Handles.WritableIsNotZero` | src/fuse/fs.rs:130-134 | Handle number 0, the answer to read-only opens, is never a writable handle |
| `Handles.UploadIsOwnWrites` | src/fuse/fs.rs:1374-1519 | The bytes and the hash uploaded, and the inode they are for, are the handle's own buffer's after its own writes, whatever other handles do |
| `Handles.UploadIsWhatWasWritten` | src/fuse/fs.rs:1374-1519 | If a handle's writes land at the end, the bytes sent are its initial contents plus everything accepted, and the announced hash is of exactly those bytes |
| `Handles.OpeningIsSound` | src/fuse/fs.rs:1034-1049 | A new buffer's contents, length and hash agree, so the upload theorem applies to every handle from its insertion |
| `FileSystem.BlossomFS.constructor` | src/fuse/fs.rs:130-134 | The write state starts empty, with handle number one next |
| `FileSystem.BlossomFS.Open` | src/fuse/fs.rs:984-1057 | The error cases in order; a writable open takes one number and inserts a buffer with the initial data |
| `FileSystem.BlossomFS.Create` | src/fuse/fs.rs:1532-1608 | The number is taken before the checks that can fail; success inserts an empty buffer |
| `FileSystem.BlossomFS.Write` | src/fuse/fs.rs:1374-1455 | The branches of the callback make the step the theorems are about; EROFS, EBADF and EFBIG change nothing |
| `FileSystem.BlossomFS.Flush` | src/fuse/fs.rs:1457-1489 | Flushes an unflushed non-empty buffer once; EIO only for an upload that was started and failed |
| `FileSystem.BlossomFS.Release` | src/fuse/fs.rs:1491-1519 | Always answers ok, forgets the handle, uploads if still due, and removes the file again only when that upload failed |
| `Retry.RetryBounds` | src/fuse/fs.rs:872-913 | The loop ends at one attempt k with that attempt's result, after k to 2k PUTs and exactly one payment per attempt first answered 402; it has slept 2^(k-1) - 1 seconds exactly when k is at most 65 |
| `Retry.RetryIsWellBehaved` | src/fuse/fs.rs:872-913 | Nothing follows a success or a final error; a payment only follows an unpaid 402; a paid PUT only follows a payment |
| `Retry.UnreachableIff` | src/fuse/fs.rs:912-912 | The final `unreachable!` is reached exactly when no attempt is allowed |
| `Retry.SucceedsIff` | src/fuse/fs.rs:872-913 | The call succeeds exactly when an allowed attempt does and every earlier one failed transiently |
| `Retry.AttemptMeans` | src/fuse/fs.rs:850-913 | What an attempt comes to, in terms of the answers: success, payment failure, a demand that stays, a network error, or a status; and it may be retried exactly after a network error or status 429, 500, 502, 503 or 504 |
| `Retry.DelaysRepeat` | src/fuse/fs.rs:895-905 | The delays start at one second, double up to the 64th, and repeat from there |
| `Retry.Uploader.UploadBlobWithPayment` | src/blossom/client.rs:493-508 | One attempt: at most a second PUT, and only after a successful payment for a 402 |
| `Retry.Uploader.UploadWithRetry` | src/fuse/fs.rs:872-913 | The loop does what the retry theorems are about |
| `Multipart.SavedPartsAreHeld` | src/blossom/client.rs:698-762 | Over every run of part uploads, lost replies, failed or torn saves, crashes and resumes, the saved session lists only parts the server holds |
| `Multipart.PartIsSaved` | src/blossom/client.rs:743-749 | An acknowledged part whose save succeeds is listed in the session file with all the others |
| `Multipart.ProgressKeptIff` | src/blossom/client.rs:698-762 | A step keeps the upload and every listed part in the session file unless it is an expired session deleted or overwritten, a torn save, or the deletion after a completion; and only these lose it |
| `Multipart.ReachedStaysListed` | src/blossom/client.rs:698-762 | From any state a run reaches, through crashes and restarts, a listed part stays listed until one of these happens, and every call running by then counts it as done |
| `Multipart.SecondCallSkips` | src/blossom/client.rs:698-762 | If a call's saves work, an unexpired next call sends none of the parts the first had acknowledged or loaded |
| `Multipart.CompletesWithTheData` | src/blossom/client.rs:753-756 | `complete` is only called with every part held, and the parts join to the data exactly when the chunks cover it |
| `Multipart.JoinedIsPrefix` | src/blossom/client.rs:739-741 | Joining parts 1 to n of the cut gives the data's first n * chunk_size bytes |
| `Multipart.CutsAreSafeIff` | src/blossom/client.rs:739-741 | All slices of a cut are in range exactly when its last part starts within the data |
| `Multipart.PanicFreeIff` | src/blossom/client.rs:733-741 | No run panics in the slice exactly when the cut the server grants fits the data |
| `Multipart.CeilingIsRight` | src/blossom/client.rs:733-741 | A cut into ceil(len / chunk_size) parts is safe and covers the data |
| `Multipart.IsCompleteIff` | src/blossom/client.rs:99-101 | For every session a run can reach, the count test says exactly that parts 1 to total are uploaded, and then the server can assemble them |
| `Multipart.GetsThroughIff` | src/blossom/client.rs:113-126 | Between calls some run, which may let the session expire and start over, still completes an upload of exactly the data if and only if the session file is not torn |
| `Multipart.ResumesIff` | src/blossom/client.rs:698-762 | In every state reached between calls with a saved session that has not expired, the next call can complete exactly the data, under some behaviour of server and disk, if and only if every missing part can be cut and the chunks cover the data |
| `Multipart.ResumedCall` | src/blossom/client.rs:698-762 | Such a call completes exactly the data if and only if every missing part can be cut and is acknowledged, the server is reached, and the chunks cover the data |
| `Multipart.UnreadableIsForever` | src/blossom/client.rs:113-126 | After a torn save no later call gets past loading the session: no run changes anything |
| `Multipart.TornSaveHappens` | src/blossom/client.rs:103-111 | A first save cut short leads from the start to that state |
| `Multipart.SendsAreMissing` | src/blossom/client.rs:734-751 | The parts a call sends, without the loop: in order, exactly the parts the loaded session lacks, up to the first that cannot be cut or is not acknowledged |
| `Multipart.MultipartClient.LoadOrInit` | src/blossom/client.rs:709-731 | Loading a saved session, or opening and saving a new one, with every error exit |
| `Multipart.MultipartClient.UploadResumable` | src/blossom/client.rs:698-762 | One call, step by step: it loads or opens a session, takes one step for every part up to the first that fails, sends exactly the missing ones, and completes after the last; it succeeds exactly when a session was loaded or saved, every missing part could be cut and was acknowledged and the server completed; it panics exactly when the first failing part cannot be cut; on success the new completion is the data exactly when the chunks cover it; if its saves work, the session file afterwards lists what was loaded and every part acknowledged, or is deleted after the completion |
| `Pagination.ListAllBlobs` | src/blossom/client.rs:236-264 | Against a server following BUD-12 with distinct hashes the call fails exactly when a page it really asks for fails, and otherwise answers the listing's prefix up to the maximum, the page limit, or a first page the server cuts short |
| `Pagination.CompleteIff` | src/blossom/client.rs:236-264 | The answer is the whole listing exactly when those limits leave room |
| `Pagination.NextPage` | src/blossom/client.rs:222-230 | The cursor rule: each page continues right after the last, and a next cursor is named exactly for a full page |
| `Inodes.PathResolvesIff` | src/fuse/inode.rs:117-134 | Splitting a node's path and looking the pieces up from the root returns the node exactly when it and its ancestors are the latest under their keys; always when keys are allocated once |
| `Inodes.ResolvesIff` | src/fuse/inode.rs:89-91 | The same for the list of names, without the text |
| `Inodes.PathsAreDistinct` | src/fuse/inode.rs:117-134 | With keys allocated once and no slashes in names, distinct nodes have distinct paths |
| `Inodes.InodeAllocator.constructor` | src/fuse/inode.rs:55-66 | The root alone, with an empty index that agrees with the list |
| `Inodes.InodeAllocator.Alloc` | src/fuse/inode.rs:73-86 | Appends the node and keeps the name index equal to a scan for the last node under each key, and every parent before its child |
| `Inodes.InodeAllocator.Find` | src/fuse/inode.rs:89-91 | The index answers what the scan would |
| `Inodes.InodeAllocator.Path` | src/fuse/inode.rs:117-134 | The upward loop terminates and gives the path, or None for an unknown inode |
| `DirStream.Readdir` | src/fuse/fs.rs:1102-1125 | The reply is the longest run of records after the offset that fits |
| `DirStream.FitIsLongest` | src/fuse/fs.rs:1102-1125 | The records sent fit the reply, and one more would not |
| `DirStream.StreamIsARun` | src/fuse/fs.rs:1102-1125 | Whatever the reply sizes, and however few records of each reply are taken, the reader gets a gapless run without repetition |
| `DirStream.StreamIsComplete` | src/fuse/fs.rs:1102-1125 | With room for any one record, repeating the call yields ".", ".." and every child exactly once in order, within as many calls as there are records, and the next call is empty |
| `DirStream.ProgressIff` | src/fuse/fs.rs:1102-1125 | A call makes progress exactly when its reply has room for the next record |
| `Nwc.PercentDecode` | src/payment/nwc.rs:45-65 | The index loop stays in bounds and decodes the whole text |
| `Nwc.DecodeInvertsEncode` | src/payment/nwc.rs:45-65 | Decoding inverts every encoding that writes each byte as itself (not a percent sign) or as %XX in either case (section 2.1 of RFC 3986) |
| `Nwc.DecodeShrinks` | src/payment/nwc.rs:45-65 | Decoding leaves a text alone exactly when it holds no escape, and shortens it otherwise |
| `Nwc.ParseQuery` | src/payment/nwc.rs:84-95 | The loop returns the decoded value of the last pair for each key |
| `Nwc.JunkIsIgnored` | src/payment/nwc.rs:84-95 | A pair without an equals sign gives no key a value |
| `Nwc.QueryRoundTrip` | src/payment/nwc.rs:85-95 | Over any query, however its values are encoded, parsing gives back the last value written for a key |
| `Text.SplitJoin` | src/fuse/tree.rs:443-443 | Splitting undoes joining when no piece holds the separator |
| `Text.ParsePrinted` | src/fuse/tree.rs:436-436 | Reading back a printed number, with or without a plus sign, gives it exactly when it fits in 64 bits |
| `Text.TrimEndIs` | src/fuse/tree.rs:457-457 | Trimming at the end takes away every trailing slash and nothing else |

## Left out

- HTTP, TLS, relay queries, event signing, encryption, git cloning and the metrics: foreign libraries and I/O. Servers are
  parameters or nondeterministic steps.
- CLI, configuration, control socket, status text, Docker: presentational.
- CBOR and Cashu decoding, and the one-pass tag-to-record parsers: field picking with only easy claims.
- The MIME-to-extension table: the extension of a view's file name is an arbitrary function of the descriptor.
- Machine width of inode and handle numbers, offsets and lengths: unbounded here; u64 sizes, timestamps and delays and u32
  years, page sizes and attempt counts are bounded as in the source.
- Clock values, permissions, extended attributes: session expiry is a choice of the environment.
- Reads of static and local files: plain slicing, as in the cached cases.
- Hash texts in the in-progress set: readers here use normalised hashes; texts of one hash in different case would count as
  different entries.
- Fairness of the mutex and the condition variable: progress is stated as a bounded number of the owner's own steps.
- The rest of `do_upload` (existence check, preflight, fallback from multipart to single-shot) and the tree updates it makes:
  a started upload is one event with an outcome.
- The tree updates of `open` with truncation, `write` and `create`: the size the tree is told is an output, and what lookups
  found and the new inode are inputs of the callback methods.
- Multipart uploads without a session directory, and other blobs' sessions: the model is one blob's session file.
- A server that forgets parts it has acknowledged: the multipart server only gains parts.
- Failing reads of the spill file at flush or release, where the code sends no bytes: the file reads back.
- The rest of `parse_nwc_uri` (scheme, key parsing, error order) and lossy decoding of invalid UTF-8: texts are their bytes.
- `sanitize_hostname` and `collect_expiring_blobs`: no further property depends on them.
- ViewsProof: the steps behind `ViewsResult.ViewsAreExact`; its members have no rows of their own.

# SOCI snapshotter: a verified model of its core

The SOCI snapshotter mounts a container image layer before it is downloaded. A *ztoc* records, for each
layer, the tar's table of contents and a list of checkpoints that cut the compressed stream into
*spans*. Reads of a file fetch the spans they need, verify their digests, decompress them and cache
them, while a background fetcher works through the rest. Beside this lazy path there is a parallel path
that downloads blobs in ranges and unpacks them in jobs that a garbage collector cleans up.

This project models that core in Dafny and proves what it promises:

* `SpanIndex`, `Layers`, `SpanCell`, `SpanManager`, `SpanProtocol`, `Extraction`: span tables, the span state
  machine, reads through the manager, every interleaving of fetching, resolving and reading goroutines, and
  the extraction of a file by name without the manager.
* `CheckpointWindow`, `CheckpointBlob`, `TocOffsets`: how checkpoints are generated and packed, and how
  the offsets of tar headers are recorded and recomputed.
* `Paths`, `MetadataTree`, `TreeAgreement`, `LinkCounts`, `NodeIds`, `MetadataReader`, `MetadataStore`,
  `FileReads`: the inode tree built from the table of contents, its link counts and identifiers, the
  buckets it is stored in, and reads by path.
* `UnpackJobs`, `UnpackRegistry`, `NamedMutex`, `LruCache`, `BackgroundFetcher`: concurrent bookkeeping.
* `RegionSet`, `BytesWriter`, `ChunkRanges`, `DirListing`: fetched regions, range writes and the names a
  mounted directory shows.

Concurrent code is a machine: a state, a total `Step` function over events (an event that is not possible
changes nothing), and `Run`, the state after any list of events. Theorems about runs quantify over every
list of events, so over every interleaving. Code that updates things in place is a class or a method with
loops, proved equal to a function of its inputs; the promises are then proved about that function.

What foreign code does is an input of the model. The answers of the remote reader, of the cache, of
inflate and of the file system are parameters that may fail in any way. What is assumed of them when they
succeed is stated in `Layer.DigestsSound` (bytes with the recorded digest are the bytes of the span) and
`Layer.InflateSound` (inflating a span from its checkpoint yields its stretch of the archive). Clocks and
random keys are parameters of the events that use them.

## Where the code and its promise differ

Each line names the theorem with the exact condition, and the lemma with an input that fails.

* A span that the background fetcher has already fetched makes `ResolveSpan` fail, although it is
  documented to end with an uncompressed span: `ResolveWorksUnlessFetched`; `ResolveRejectsFetched`.
* The lookup of a tar offset at an exact multiple of the span size, at the end of the archive, leaves the
  span table. A read that ends there stops the program, and a file that ends there cannot be extracted:
  `TarLookupFinds`, `RequestLocated`, `GetContents`, `ExtractFile`; `TarEndLeavesTable`,
  `TarEndCannotBeExtracted`.
* The span table check does not look at the start of the first span. A gzip request is served right iff it
  does not start in front of the table; if only its end is in the table it gets the bytes from the start of
  the table on; if it ends in front of the table its slice does not exist, and reading it stops the program
  unless the first span is uncompressed already: `RequestLocated`, `ServedRightIffLocatable`,
  `SlicesInsideIffEndFound`, `GetContents`, `ReadAt`; `LateLayerIsSound`, `LateFirstSpanLosesBytes`.
* A directory that is listed after something below it, or an entry for the root itself, is counted twice
  at its parent: `DirectoryCountsRightIffParentsFirst`; `LateDirectoryCountsTwice`, `LateDirectoryExample`.
* Recorded tar header offsets are wrong behind a member that stores fewer blocks than its size takes, such as
  a header-only member that states a size or a sparse file: `RecordedHeadersRightIff`;
  `UnstoredSizeShiftsHeader`.
* A table of contents that was built is not loaded when such a member claims blocks beyond the next header:
  `LoaderAgreesWithBuilder`, `BuiltTableAcceptedIff`; `BuiltTableRefused`.
* A generated index is refused by the span manager when a block ends between the header and the first
  output: `GeneratedTableAcceptedIff`; `EmptyFirstBlockRefused`.
* The size of a packed index is computed in 32 bits. A blob whose size wraps around is accepted and read past
  its end, and an index of 2^31 bytes or more that was loaded is not written back: `OutcomeOfBlob`,
  `LoopStaysInsideIffCountable`, `ZinfoBytes`; `WrappedBlobOverruns`, `SizeWrapsToZero`.
* A collector pass keeps the directory of a job that is no longer registered when the job was looked at, and not
  found expired, before its image was cancelled for another job: `CollectGarbage`; `EarlyVerdictSparesDirectory`.
* Empty extended attributes get lost unless they are stored inline, and one without a name makes writing
  fail: `XattrsKeptIffNoneEmpty`; `EmptyXattrIsLost`.
* A whiteout of a whiteout is listed but cannot be looked up: `ListedIffFound`; `DoubleWhiteoutIsNotFound`.
* The search of a file to extract follows symbolic links and hardlinks alike and does not return when they
  go round: `SearchFollowsLinks`; `SelfLinkNeverReturns`.

## Model

| member | source | states |
|---|---|---|
| `SpanIndex.PtIndexFromUcmpOffset` | ztoc/compression/gzip_zinfo.c:97-109 | the loop returns the last checkpoint that is not past the offset: all before it start at or before the offset, the next one after it; it looks outside the list iff there is no checkpoint |
| `SpanIndex.BuildAllSpans` | fs/span-manager/span_manager.go:128-151 | a table is accepted iff every span but the last is non-empty in both streams, and then gives the spans of the index |
| `SpanIndex.AcceptedTableTiles` | fs/span-manager/span_manager.go:128-151 | the spans of every accepted table with a sound last span cut the uncompressed archive, from where the first starts, into consecutive non-empty pieces |
| `SpanIndex.ContainingSpanUnique` | fs/span-manager/span_manager.go:248-280 | an uncompressed offset lies in one span only |
| `SpanIndex.GzipLookupFinds` | ztoc/compression/gzip_zinfo.go:101-103 | the gzip lookup returns the span that holds an offset, the last one past the end, iff the table does not start behind the offset |
| `SpanIndex.TarLookupFinds` | ztoc/compression/tar_zinfo.go:100-117 | the tar lookup stays in the table iff the offset is inside the archive or the archive is not a multiple of the span size |
| `SpanIndex.TarEndLeavesTable` | ztoc/compression/tar_zinfo.go:100-117 | a tar of one byte in spans of one byte: its end is looked up in span 1, behind the last |
| `SpanIndex.TarTableTiles` | ztoc/compression/tar_zinfo.go:163-200 | the computed spans of every non-empty tar tile it and are accepted |
| `SpanIndex.TarSpanHoldsItsBytes` | ztoc/compression/tar_zinfo.go:163-200 | byte k of a tar lies in span k divided by the span size, on both sides |
| `SpanIndex.GzipSpanHoldsItsBits` | ztoc/compression/gzip_zinfo.go:155-203 | a gzip span holds exactly the compressed bytes with a bit between its checkpoint and the next, or the end |
| `SpanIndex.CompressedSpanInside` | ztoc/compression/gzip_zinfo.go:155-170 | the compressed range of every span is non-empty and inside the compressed archive |
| `SpanIndex.CompressedBytesCovered` | ztoc/compression/gzip_zinfo.go:155-170 | header plus spans cover every compressed byte |
| `SpanIndex.NeighboursShareMidByte` | ztoc/compression/gzip_zinfo.go:155-203 | neighbouring spans share exactly one byte, and only when the second starts in the middle of it |
| `Layers.Layer.ExtractYieldsArchive` | ztoc/compression/gzip_zinfo.go:107-133 | extracting from the compressed bytes of any run of spans that covers a stretch yields that stretch of the archive |
| `Layers.Layer.ExtractRefuses` | ztoc/compression/gzip_zinfo.go:107-116 | nothing is extracted from an empty buffer or for a negative size, and no bytes for none |
| `Layers.RequestLocated` | fs/span-manager/span_manager.go:248-280 | for every accepted table both ends of a request are found in it iff a gzip request does not start in front of it and a tar request does not end at the end of a full last span |
| `Layers.EarlyRequestIsClipped` | fs/span-manager/span_manager.go:248-280 | a request that starts in front of the table is cut as if it started with the table |
| `Layers.ServedRightIffLocatable` | fs/span-manager/span_manager.go:248-280 | the bytes such a request gets are the requested ones iff it is located |
| `Layers.SlicesInsideIffEndFound` | fs/span-manager/span_manager.go:248-280 | every slice of a request lies in a span of the table iff the table has a span for its end; otherwise its last slice does not exist |
| `Layers.LateLayerIsSound` | fs/span-manager/span_manager.go:128-151 | there is a layer that meets all assumptions and whose table starts at offset 1 of an archive of two bytes; of the whole archive it serves the last byte |
| `Layers.PiecesMakeSlice` | fs/span-manager/span_manager.go:220-280 | the slices of the spans of a located request, in span order, are exactly the requested bytes |
| `SpanCell.FetchReturnsFirstVerified` | fs/span-manager/span_manager.go:403-431 | the fetch loop returns an answer iff, within the tries, it is the first with the span's length and digest and only answers of that length with another digest come before it |
| `SpanCell.FetchedBytesAreTheSpan` | fs/span-manager/span_manager.go:403-431 | whatever the reader answers, the retry loop returns the span's own compressed bytes if they arrive after mismatches only, and otherwise nothing |
| `SpanCell.FetchAndCacheKeepsCell` | fs/span-manager/span_manager.go:356-397 | fetching keeps state and cache slot in agreement and returns only the span's content; it works iff the span is unrequested, its bytes arrive within the tries after mismatches only, and inflating and caching work, and otherwise changes nothing |
| `SpanCell.GetSpanKeepsCell` | fs/span-manager/span_manager.go:292-352 | reading keeps state and cache slot in agreement and returns only archive bytes; for each state it says exactly when reading works, and that the cell stays as it was when it does not |
| `SpanCell.ResolveWorksUnlessFetched` | fs/span-manager/span_manager.go:180-204 | resolving leaves the span uncompressed iff it was not already fetched |
| `SpanCell.ResolveRejectsFetched` | fs/span-manager/span_manager.go:180-204 | a background-fetched span is left as it was and reported as an error |
| `SpanManager.GetSpanInfo` | fs/span-manager/span_manager.go:248-280 | the plan of a request: its spans, the slice of each, and where each slice goes in the buffer; it looks outside the table iff the request ends behind it |
| `SpanManager.New` | fs/span-manager/span_manager.go:76-126 | a manager is made iff span count, digest count, header and offsets pass; it has nothing requested and nothing cached, and a negative retry count means three; a span size of zero and an accepted count of no checkpoints stop the program |
| `SpanManager.SpanManager.SetState` | fs/span-manager/span.go:80-102 | a state changes only along the transition table |
| `SpanManager.SpanManager.FetchSpanWithRetries` | fs/span-manager/span_manager.go:403-431 | the loop gives an answer iff it is the first verified one within the retries and only mismatches come before it; read errors and short reads give up at once |
| `SpanManager.SpanManager.FetchAndCacheSpan` | fs/span-manager/span_manager.go:356-397 | one span's state, cache slot and result are those of the one-step function, and other spans do not change |
| `SpanManager.SpanManager.FetchSingleSpan` | fs/span-manager/span_manager.go:156-173 | spans past the table are refused, spans already requested are left alone, others end up fetched, with their compressed bytes cached, iff those arrive after mismatches only and caching works; other spans stay as they were |
| `SpanManager.SpanManager.ResolveSpan` | fs/span-manager/span_manager.go:180-217 | success means the span is uncompressed in the cache; other spans stay as they were |
| `SpanManager.SpanManager.GetSpanContent` | fs/span-manager/span_manager.go:292-352 | whatever is returned is the requested slice of the span, and it is returned when nothing fails; a slice that ends before it starts is empty when read from the cache and stops the program otherwise |
| `SpanManager.SpanManager.GetContents` | fs/span-manager/span_manager.go:220-245 | for every request: when the table has a span for its end, the archive from where the request or the table starts to its end, the requested bytes iff the request is located; otherwise a tar request stops the program and a gzip request comes to what reading backwards in the first span comes to; a span it does not look up stays as it was, one it does stays so or is uncompressed, all of them when bytes are returned |
| `SpanManager.SpanManager.ReadAt` | fs/reader/reader.go:156-191 | a read returns the file's own bytes, as many as fit, or end of file exactly past its end; when nothing fails it succeeds iff the request is located, and stops the program iff the table has no span for its end and is no gzip table with an uncompressed first span; a failed read leaves nothing but archive bytes at the front of the buffer |
| `SpanManager.PlanSizeOfRequest` | fs/span-manager/span_manager.go:248-280 | the slices planned for a request add up to its size from the start of the table on |
| `SpanManager.SlicesGoToTheirPlace` | fs/span-manager/span_manager.go:248-280 | every slice planned goes to the place in the buffer where its first byte lies in the request |
| `SpanManager.WholeArchivePlannedIffFirstAtZero` | fs/span-manager/span_manager.go:128-151 | a request for a whole gzip archive is planned with as many bytes as it has iff the first span starts at zero |
| `SpanManager.LateFirstSpanLosesBytes` | fs/span-manager/span_manager.go:128-151 | a table that starts at offset 1 of an archive of 5 bytes is accepted; 4 bytes are planned for all of it, and for its empty start a slice that ends at -1 |
| `SpanProtocol.EveryRunKeepsInv` | fs/span-manager/span_manager.go:156-397 | in every interleaving with arbitrary failures every goroutine and every span satisfies its assertion |
| `SpanProtocol.FreeSpansAreSettled` | fs/span-manager/span_manager.go:156-397 | a span whose lock is free is never requested; fetched means its verified compressed bytes are cached, uncompressed its uncompressed bytes |
| `SpanProtocol.EveryReadIsTheArchive` | fs/span-manager/span_manager.go:292-352 | in every interleaving a read that returns data returns exactly the requested bytes, the lock-free fast path included |
| `SpanProtocol.UncompressedIsForever` | fs/span-manager/span.go:51-77 | once uncompressed, a span's state and cached bytes never change again |
| `SpanProtocol.EveryTransitionIsInTheTable` | fs/span-manager/span.go:51-102 | in every run each state change is allowed by the transition table, which nothing but the uncompressed state ends |
| `SpanProtocol.LockIsExclusive` | fs/span-manager/span_manager.go:292-397 | two goroutines are never between lock and unlock of the same span |
| `SpanProtocol.StepMakesProgress` | fs/span-manager/span_manager.go:156-397 | a goroutine that can move comes closer to its end |
| `SpanProtocol.NoDeadlock` | fs/span-manager/span_manager.go:156-397 | while a goroutine is unfinished, some goroutine can move |
| `SpanProtocol.ConcurrentReadsMakeTheRequest` | fs/span-manager/span_manager.go:220-245 | the slices the goroutines of a request return, interleaved with any others, make up the archive from where the request or the table starts, the requested bytes iff the request is located |
| `SpanProtocol.SoloIsSequential` | fs/span-manager/span_manager.go:156-397 | a goroutine left alone does what the sequential functions, and so the manager's methods, do |
| `SpanProtocol.SoloWithGoodAnswers` | fs/span-manager/span_manager.go:156-397 | a goroutine left alone whose bytes arrive after mismatches only finishes with the requested slice of the archive, or without error; only resolving a span fetched in compressed form fails |
| `SpanProtocol.StartedGoroutineFinishes` | fs/span-manager/span_manager.go:156-397 | in every reachable state a goroutine can be started for every span; if nobody has its lock and its bytes arrive after mismatches only, it finishes, given its turns, with what it was asked for |
| `Extraction.SearchFollowsLinks` | ztoc/ztoc.go:151-164 | the search by name gives the entry its chain of links ends at, and never returns iff the chain never ends |
| `Extraction.SelfLinkNeverReturns` | ztoc/ztoc.go:151-164 | the search for an entry that links to itself never returns |
| `Extraction.ReadCompressed` | ztoc/ztoc.go:184-216 | reading span by span yields the compressed bytes of the run of spans without gap or overlap, iff every range lies in the archive and arrives whole |
| `Extraction.ExtractFile` | ztoc/ztoc.go:168-227 | a file extracted by name has the bytes of the archive at its entry's range iff it is empty, or the range is located and all reads are whole; a file that ends a tar with a full last span always fails to be read |
| `Extraction.TarEndCannotBeExtracted` | ztoc/ztoc.go:184-213 | the only byte of a tar in spans of one byte is not delivered, whatever the reader does |
| `CheckpointWindow.GenerateZinfo` | ztoc/compression/gzip_zinfo.c:204-290 | the loop with its circular window of 32768 bytes produces the checkpoints of the specification: each stands at the end of a block, every end of a block is at a checkpoint or at most a span behind one, and neighbours are more than a span apart |
| `CheckpointWindow.CopyWindow` | ztoc/compression/gzip_zinfo.c:162-201 | the two copies unroll the circular window at the write position |
| `CheckpointWindow.WindowIsPrecedingOutput` | ztoc/compression/gzip_zinfo.c:162-201 | for every sequence of inflate steps the window of each checkpoint is the 32768 bytes of output before it, zeros in front |
| `CheckpointWindow.CheckpointsAreSpanApart` | ztoc/compression/gzip_zinfo.c:279-290 | neighbouring checkpoints are more than a span apart unless both come before any output |
| `CheckpointWindow.PointsStandAtEnds` | ztoc/compression/gzip_zinfo.c:279-290 | every checkpoint stands where a step stopped at the end of a block, with the bits of that step, the totals consumed and produced up to it, and the last 32768 bytes of that output or zeros |
| `CheckpointWindow.EndsAreNearPoints` | ztoc/compression/gzip_zinfo.c:279-290 | every end of a block lies at a checkpoint or at most a span behind one, or behind the start |
| `CheckpointWindow.GeneratedBitsGrow` | ztoc/compression/gzip_zinfo.c:245-290 | when every block takes a bit of input, checkpoints stand at growing bits |
| `CheckpointWindow.GeneratedTableAcceptedIff` | fs/span-manager/span_manager.go:128-151 | for every sequence of inflate steps, the span manager accepts the generated table iff at most one block, the header included, ends before any output |
| `CheckpointWindow.EmptyFirstBlockRefused` | fs/span-manager/span_manager.go:128-151 | a header followed by an empty block gives a table that is refused |
| `CheckpointBlob.ParsePrint` | ztoc/compression/gzip_zinfo.c:577-682 | a packed index of either version reads back as it was |
| `CheckpointBlob.PrintParse` | ztoc/compression/gzip_zinfo.c:577-682 | packing a loaded blob of either version gives the same bytes |
| `CheckpointBlob.HeaderLayout` | ztoc/compression/gzip_zinfo.c:577-596 | a blob starts with the count in four bytes and the span size in eight, least significant byte first |
| `CheckpointBlob.RecordLayout` | ztoc/compression/gzip_zinfo.c:577-612 | then come the checkpoints, in version 1 without the first one, in 32785 bytes each: the offset in the compressed and the one in the uncompressed stream, the bits, the window |
| `CheckpointBlob.LoadedV1StartsBehindHeader` | ztoc/compression/gzip_zinfo.c:652-664 | a version 1 index starts with a checkpoint at offset ten of the compressed stream, before any output, with a window of zeros |
| `CheckpointBlob.VersionByLength` | ztoc/compression/gzip_zinfo.c:633-645 | count and length decide the version, and no blob can be read as both |
| `CheckpointBlob.LoopStaysInsideIffCountable` | ztoc/compression/gzip_zinfo.c:635-678 | of an accepted blob of either version the record loop stays inside iff the size of its checkpoints does not wrap around in 32 bits |
| `CheckpointBlob.OutcomeOfBlob` | ztoc/compression/gzip_zinfo.c:615-682 | a blob is loaded iff its length is right without wrapping, and read past its end iff its length is accepted although the size wraps |
| `CheckpointBlob.WrappedBlobOverruns` | ztoc/compression/gzip_zinfo.c:635-645 | 31641 bytes that claim 131005 checkpoints are taken for a version 2 blob and read past their end |
| `CheckpointBlob.ZinfoToBlob` | ztoc/compression/gzip_zinfo.c:577-612 | the record loop writes the packed form, without the first checkpoint in version 1 |
| `CheckpointBlob.ZinfoBytes` | ztoc/compression/gzip_zinfo.go:76-88 | an index is written as it is packed iff that takes less than 2^31 bytes; a size below 2^32 or a multiple of it is reported as an error, and for any other the buffer is too small |
| `CheckpointBlob.SizeWrapsToZero` | ztoc/compression/gzip_zinfo.c:119-137 | the size of 1174058164 checkpoints is zero in 32 bits |
| `CheckpointBlob.BlobToZinfo` | ztoc/compression/gzip_zinfo.c:615-682 | the record loop reads the packed form, refuses lengths that fit neither version, or runs past the end, as the parsing function says |
| `TocOffsets.AlignRoundsUp` | ztoc/tar.go:33-39 | alignment gives the next multiple of a block |
| `TocOffsets.MetadataFromTar` | ztoc/toc_builder.go:119-161 | the builder's loop records each member's content at its real place |
| `TocOffsets.TableLocatesContent` | ztoc/toc_builder.go:119-161 | in the bytes of the archive the content of every member starts at its recorded offset, its header right before; names and sizes are the members' |
| `TocOffsets.RecordedHeadersRightIff` | ztoc/toc_builder.go:119-161 | the recorded header offsets are the real ones iff every member, the last aside, stores as many blocks as its size takes |
| `TocOffsets.UnstoredSizeShiftsHeader` | ztoc/toc_builder.go:119-161 | a member without content that states one byte, and a file of three blocks that stores one, make the next header be recorded too far |
| `TocOffsets.LocateHeaders` | ztoc/ztoc_marshaler.go:144-161 | the loader's loop refuses a table iff some header would start behind its content, and otherwise writes all header offsets in place |
| `TocOffsets.SortKeepsOrder` | ztoc/ztoc_marshaler.go:144-148 | any sort of entries in archive order returns them in that order |
| `TocOffsets.LoaderRecomputesTable` | ztoc/ztoc_marshaler.go:144-161 | for every archive the loader computes the header offsets the builder recorded |
| `TocOffsets.BuiltTableAcceptedIff` | ztoc/ztoc_marshaler.go:150-161 | the loader takes a built table iff no member, the last aside, claims blocks beyond the next member's header |
| `TocOffsets.BuiltTableRefused` | ztoc/ztoc_marshaler.go:150-161 | a member without content that states two blocks makes a table that is built and not loaded |
| `TocOffsets.LoaderAgreesWithBuilder` | ztoc/ztoc_marshaler.go:144-161 | for every archive any sort keeps the order of the entries, the header offsets are the builder's, and the table is taken iff no member claims too much, always when the offsets are the real ones |
| `TocOffsets.AcceptedRangesDoNotOverlap` | ztoc/ztoc_marshaler.go:144-161 | in every accepted table headers and contents of different entries do not overlap |
| `Paths.ElementBehindPath` | metadata/reader.go:392-394 | an element behind any string: "" and "." stay where it leads, ".." goes up and not past the root, any other element goes down |
| `Paths.ElementAlone` | metadata/reader.go:392-394 | an element by itself is a path of one element, or the root for "", "." and ".." |
| `Paths.CleanIsIdempotent` | metadata/reader.go:392-394 | cleaning a name twice is cleaning it once |
| `Paths.ComponentsOfJoin` | metadata/reader.go:392-399 | a clean name has the elements it was joined from, with or without a trailing separator |
| `Paths.SplitOfJoin` | metadata/reader.go:397-400 | splitting a clean name gives its parent with a trailing separator and its last element |
| `Paths.ParentIsLessDeep` | metadata/reader.go:310-330 | the parent of a non-empty name is less deep, so lookups by name end |
| `TreeAgreement.BuildAgrees` | metadata/reader.go:168-266 | the tree of every well-formed table has exactly the table's paths, shows every entry, and gives paths that are no hardlinks nodes of their own |
| `TreeAgreement.WellFormedIff` | metadata/reader.go:168-266 | the tables the results below are about: paths differ, only directories have anything below them, the root is a directory, and every hardlink links to an earlier file |
| `TreeAgreement.WalkFindsExactlyTheTable` | metadata/reader.go:168-266 | a walk succeeds iff the path is the root or a prefix of an entry's path |
| `TreeAgreement.WalkShowsEntry` | metadata/reader.go:186-266 | the walk to an entry ends at a node with its size, time, link name, owner, group, device numbers, extended attributes and, as mode, its permissions and the bit of its kind, and with its name, content and header offset and header size; a hardlink's ends where its target's ends |
| `TreeAgreement.WalkShowsImplicitDir` | metadata/reader.go:336-370 | a directory above an entry that no entry lists is shown with mode 0755 and nothing else |
| `TreeAgreement.WalksDoNotMerge` | metadata/reader.go:168-266 | different paths, hardlinks aside, lead to different nodes |
| `LinkCounts.DirectoryLinkCount` | metadata/reader.go:374-389 | a directory's link count is 2 plus its child directories plus one for each of them that is listed late |
| `LinkCounts.DirectoryCountsRightIffParentsFirst` | metadata/reader.go:193-250 | all directory link counts are 2 plus child directories iff no directory is listed late and none lists the root |
| `LinkCounts.LateDirectoryCountsTwice` | metadata/reader.go:193-250 | whenever a file is listed before its directory, in a table of the two, the root has four links and one child directory |
| `LinkCounts.LateDirectoryExample` | metadata/reader.go:193-250 | such a table lists "a/f", then "a" |
| `LinkCounts.FileLinkCount` | metadata/reader.go:188-205 | a file's link count is 1 plus the hardlinks that stand for it, chains included |
| `LinkCounts.WalkReachesOriginal` | metadata/reader.go:188-205 | two file paths lead to the same node iff they stand for the same original file |
| `NodeIds.GetOrCreateIds` | metadata/reader.go:76-84 | creating missing directories takes one identifier each and fails iff they run out |
| `NodeIds.BuildSucceedsIffIdsSuffice` | metadata/reader.go:168-266 | building a well-formed table fails iff its paths that are no hardlinks outnumber the identifiers, and otherwise uses exactly that many |
| `MetadataReader.NameLookupIsWalk` | metadata/reader.go:310-330 | looking a name up is walking its elements, however the name is spelled |
| `MetadataReader.Partition` | metadata/reader.go:406-416 | the chunks are not empty, full but for the last, and concatenate to the input |
| `MetadataReader.Reader.constructor` | metadata/reader.go:131-165 | a new reader holds the root directory and nothing else |
| `MetadataReader.Reader.NextID` | metadata/reader.go:76-84 | identifiers grow by one until the largest, then the call fails |
| `MetadataReader.Reader.AddChild` | metadata/reader.go:374-389 | filing a child is the tree function, the parent's link count included |
| `MetadataReader.Reader.GetOrCreateDir` | metadata/reader.go:336-370 | the recursion on names finds or creates the directory the tree function finds or creates on paths |
| `MetadataReader.Reader.LinkToTarget` | metadata/reader.go:188-205 | a hardlink gets its target's node with one more link, and fails when there is none |
| `MetadataReader.Reader.WriteEntryNode` | metadata/reader.go:186-236 | hardlinks share a node and gain a link, existing directories are overwritten, everything else gets a new node |
| `MetadataReader.Reader.InitNode` | metadata/reader.go:186-262 | one entry changes the buckets as the tree function says, or fails when it does |
| `MetadataReader.Reader.InitNodes` | metadata/reader.go:168-266 | the chunked loops build the tree of the whole table, whatever the chunk size |
| `MetadataReader.Reader.Init` | metadata/reader.go:106-129 | a well-formed table is refused only when identifiers run out |
| `MetadataStore.DecodeEncode` | metadata/db.go:403-411 | an encoded identifier decodes to itself |
| `MetadataStore.EncodedOrder` | metadata/reader.go:277-280 | byte order of encoded identifiers is number order |
| `MetadataStore.WriteMetadataEntry` | metadata/db.go:327-388 | the loop writes the chosen child inline, all others to the extra bucket, and the entry's place in the archive |
| `MetadataStore.StoredAsReads` | metadata/db.go:311-324 | whichever child is inline, every child is found by its name and nothing else is |
| `MetadataStore.StoredAsLists` | metadata/reader.go:542-605 | whichever child is inline, the children listed are those written |
| `MetadataStore.DatabaseWalkIsTreeWalk` | metadata/reader.go:511-539 | for every table and every choice of inline children, walking the database is walking the tree, and every node keeps its place in the archive |
| `MetadataStore.XattrsReadBack` | metadata/db.go:216-252 | what is lost of written extended attributes are the empty values outside the inline one |
| `MetadataStore.XattrsKeptIffNoneEmpty` | metadata/db.go:216-252 | attributes are written and read back as they were for every choice of the inline one iff there is one only or none has an empty name or value |
| `MetadataStore.EmptyXattrIsLost` | metadata/db.go:216-252 | of an empty and a non-empty attribute the empty one gets lost when the other is inline, and one without a name cannot be written |
| `FileReads.PermissionsAreRegular` | metadata/reader.go:608-620 | permission, set-user, set-group and sticky bits leave a file regular |
| `FileReads.TypeBitsAreNot` | metadata/reader.go:608-620 | each of the seven type bits makes a file something else than regular |
| `FileReads.PathOpensOriginal` | metadata/reader.go:608-646 | every path of a file, a hardlink's included, opens the archive range its table entry records, or is refused iff the entry is no regular file |
| `FileReads.ReadByName` | fs/reader/reader.go:108-191 | reading a file by name serves the archive's bytes at the range its table entry records; when nothing fails it succeeds iff the read is located, and it stops the program only when the table has no span for its end |
| `UnpackJobs.EveryRunKeepsInv` | fs/adaptive_fetch_image_layers.go:184-494 | in every run of registry calls and collector steps all jobs are backed by storage, filed once under their own keys, and spared or unregistered |
| `UnpackJobs.StorageOfRegisteredJobStays` | fs/adaptive_fetch_image_layers.go:768-788 | whatever happens next, the directory of a job registered now is in storage and stays |
| `UnpackJobs.OnePlacePerId` | fs/adaptive_fetch_image_layers.go:204-217 | an identifier stands in one place of the registry, under its own image and layer |
| `UnpackJobs.ClaimIsExclusive` | fs/adaptive_fetch_image_layers.go:249-265 | a claimed job is not handed out again as long as it is registered |
| `UnpackJobs.ClaimFindsOpenJob` | fs/adaptive_fetch_image_layers.go:249-265 | a claim succeeds iff some job of the layer is in progress |
| `UnpackJobs.RemoveSucceedsIffTaken` | fs/adaptive_fetch_image_layers.go:461-494 | a job is removed iff it is registered and was claimed or cancelled |
| `UnpackJobs.PicksFirstNewKey` | fs/adaptive_fetch_image_layers.go:330-339 | drawing gives the first key, of those drawn in the allowed tries, that is not empty and not in use |
| `UnpackJobs.AddedJobCanBeClaimed` | fs/adaptive_fetch_image_layers.go:204-217 | with a usable key among ten and a directory, a job is made in progress, stands last on its layer's list and makes a claim succeed, if its image is registered |
| `UnpackJobs.NoKeyNoJob` | fs/adaptive_fetch_image_layers.go:204-217 | without a usable key among ten, or a directory, nothing changes |
| `UnpackJobs.TakenJobCanBeRemoved` | fs/adaptive_fetch_image_layers.go:439-494 | right after it was claimed or cancelled a job can be removed, and no other leaves with it |
| `UnpackJobs.FinishedJobCannotBeRemoved` | fs/adaptive_fetch_image_layers.go:461-494 | a job that is done or failed can be neither claimed nor removed |
| `UnpackJobs.ClaimErrors` | fs/adaptive_fetch_image_layers.go:219-265 | which error a failed claim gives |
| `UnpackJobs.RemoveErrors` | fs/adaptive_fetch_image_layers.go:461-494 | which error a failed removal gives |
| `UnpackJobs.UnfileFiled` | fs/adaptive_fetch_image_layers.go:476-489 | removal takes out that job and no other, empty lists and images included |
| `UnpackJobs.QuietPassCollectsAllGarbage` | fs/adaptive_fetch_image_layers.go:856-879 | an undisturbed collector pass in which nothing expires or fails leaves exactly the directories of registered jobs |
| `UnpackJobs.ExpiredJobIsCollected` | fs/adaptive_fetch_image_layers.go:801-827 | a job found expired leaves the registry at once, and the pass, left to finish, deletes its directory |
| `UnpackJobs.EarlyVerdictSparesDirectory` | fs/adaptive_fetch_image_layers.go:801-827 | a job that was not found expired before its image was cancelled for another job is gone from the registry but spared by the sweep |
| `UnpackRegistry.Registry.GetOrAddImageJob` | fs/adaptive_fetch_image_layers.go:184-200 | the image is registered afterwards, without jobs if it was not before; other images stay as they were |
| `UnpackRegistry.Registry.GenerateUniqueKey` | fs/adaptive_fetch_image_layers.go:330-339 | a drawn key is new and not empty, within ten draws |
| `UnpackRegistry.Registry.AddLayerJob` | fs/adaptive_fetch_image_layers.go:204-217 | a job gets a directory that was not there and is filed under its image and layer; without a key nothing changes, and without its image the call stops after making the directory |
| `UnpackRegistry.Registry.Claim` | fs/adaptive_fetch_image_layers.go:249-265 | the loop claims the first job in progress and changes no other |
| `UnpackRegistry.Registry.Remove` | fs/adaptive_fetch_image_layers.go:461-494 | the loop removes the job, or names the error and changes nothing, as the step of the machine |
| `UnpackRegistry.Registry.RemoveImageWithError` | fs/adaptive_fetch_image_layers.go:446-459 | all jobs of the image leave the registry, or the image is reported as unknown |
| `UnpackRegistry.Registry.Snapshot` | fs/adaptive_fetch_image_layers.go:405-432 | the nested loops note exactly the registered jobs with their images and times, as the step of the machine |
| `UnpackRegistry.Registry.MarkAndSweepStorage` | fs/adaptive_fetch_image_layers.go:768-788 | exactly the listed identifiers that are not in memory are deleted, those whose deletion fails aside, as a run of sweep steps |
| `UnpackRegistry.Registry.MarkAndSweepExpired` | fs/adaptive_fetch_image_layers.go:801-827 | from any snapshot exactly the images of expired jobs are cancelled, as a run of expiry steps; from a fresh one expired jobs leave it and jobs that stay registered stay in it |
| `UnpackRegistry.Registry.CollectGarbage` | fs/adaptive_fetch_image_layers.go:856-879 | a pass unregisters exactly the images that have a registered job found expired; directories of jobs that stay registered stay, those of no job and of jobs found expired go unless deleting fails; when the jobs of an image get the same verdict and nothing fails, exactly the directories of the registered jobs are left; a pass is a run of the machine from idle to idle |
| `NamedMutex.Locks.StartLock` | util/namedmutex/namedmutex.go:50-65 | the section under the table's lock finds or makes the name's mutex and counts the caller |
| `NamedMutex.Locks.StartUnlock` | util/namedmutex/namedmutex.go:68-77 | the section under the table's lock uncounts the caller, and the last one deletes the mutex |
| `NamedMutex.MutualExclusion` | util/namedmutex/namedmutex.go:50-78 | in every interleaving two threads never hold the same name, although mutexes are deleted and made again |
| `NamedMutex.TableIsUsers` | util/namedmutex/namedmutex.go:50-78 | a name is in the table iff it has users, its count is their number, and all refer to its current mutex |
| `NamedMutex.UnlockReleasesOwnMutex` | util/namedmutex/namedmutex.go:68-78 | a thread that leaves unlocks the mutex it locked |
| `NamedMutex.NoDeadlock` | util/namedmutex/namedmutex.go:50-78 | whenever somebody waits, it can enter or the owner of its mutex can move on |
| `NamedMutex.StepMovesItsThread` | util/namedmutex/namedmutex.go:50-78 | a thread waits for the name it asked for, enters with the mutex it waited for, leaves with it, and is gone with that mutex free; no other thread moves |
| `NamedMutex.WaiterCanEnter` | util/namedmutex/namedmutex.go:50-78 | whoever waits holds the name as soon as the owner of its mutex, if there is one, has left |
| `LruCache.Run` | util/lrucache/lrucache.go:55-157 | every run of calls keeps the counts, the list, and the bound |
| `LruCache.CountIsCachePlusHandles` | util/lrucache/lrucache.go:70-133 | a value's count is one if it is cached plus one for each unfinished handle |
| `LruCache.DoneIffFinished` | util/lrucache/lrucache.go:113-120 | a handle counts as finished iff a call finished it after it had been given out |
| `LruCache.ReportedOnceWhenUnused` | util/lrucache/lrucache.go:135-157 | a value is reported as evicted once, exactly when it has left the cache and a call has finished every handle on it |
| `LruCache.CallsKeepCached` | util/lrucache/lrucache.go:70-120 | Get and Done leave the same entries in the cache, Remove takes out exactly the key |
| `LruCache.AddKeepsCached` | util/lrucache/lrucache.go:86-104 | Add leaves a cached key as it is; otherwise the value is stored and everything else stays, unless the cache is full, when one entry goes |
| `LruCache.HandlesGiven` | util/lrucache/lrucache.go:70-104 | Get of a cached key and every Add give out one new handle, on the cached entry or the new one; no other call does |
| `LruCache.StaysWithinBound` | util/lrucache/lrucache.go:86-104 | a positive bound is kept, a negative one keeps nothing, and no key is cached twice |
| `LruCache.ListIsInOrderOfUse` | util/lrucache/lrucache.go:70-104 | in every run the list is in the order of last Get or Add |
| `LruCache.AddEvictsLeastRecentlyUsed` | util/lrucache/lrucache.go:86-104 | in every run an entry that an Add pushes out of the full cache was last used before every entry that stays |
| `LruCache.LRU.Get` | util/lrucache/lrucache.go:70-80 | a hit returns a new handle on a value stored under that key and makes it the most recent |
| `LruCache.LRU.Add` | util/lrucache/lrucache.go:86-104 | a cached key is not replaced; a new one is stored with two references, and a full cache evicts; the handle is new and on an entry with this key |
| `LruCache.LRU.Remove` | util/lrucache/lrucache.go:107-111 | a removed entry gives up the cache's reference |
| `LruCache.LRU.DoneWith` | util/lrucache/lrucache.go:113-120 | the handle is finished, and finishing it again changes nothing |
| `BackgroundFetcher.OnePlaceEach` | fs/backgroundfetcher/background_fetcher.go:144-253 | in every interleaving a resolver added once is in one place: queued, with one goroutine, completed, failed, closed or evicted |
| `BackgroundFetcher.QueueStaysBounded` | fs/backgroundfetcher/background_fetcher.go:144-163 | a bounded queue never exceeds its bound |
| `BackgroundFetcher.OneReAddPerSpan` | fs/backgroundfetcher/resolver.go:83-106 | a resolver is added again at most once per span, and one that completes has fetched every span |
| `BackgroundFetcher.OwnStepsAreBounded` | fs/backgroundfetcher/background_fetcher.go:217-253 | left alone, the fetcher takes no more steps than the work it has |
| `BackgroundFetcher.StopsOnlyWhenDrained` | fs/backgroundfetcher/background_fetcher.go:217-253 | when it can take no step, every resolver ever added is gone |
| `BackgroundFetcher.ReasonsAreTrue` | fs/backgroundfetcher/background_fetcher.go:144-253 | a resolver leaves as closed only if it was closed, as failed only after a failed fetch, and evicted only from a bounded queue |
| `BackgroundFetcher.UndisturbedResolverCompletes` | fs/backgroundfetcher/background_fetcher.go:217-253 | with an unbounded queue a resolver that is never closed and never fails has all its spans fetched when the fetcher comes to rest |
| `BackgroundFetcher.ClosedResolverFetchesNoMore` | fs/backgroundfetcher/background_fetcher.go:217-253 | once a resolver is closed and no goroutine has it, none of its spans is fetched any more |
| `BackgroundFetcher.WorkQueue.Add` | fs/backgroundfetcher/background_fetcher.go:144-163 | the new entry stands last; a full queue drops its oldest entry for it, or turns it away, by policy |
| `BackgroundFetcher.WorkQueue.Next` | fs/backgroundfetcher/background_fetcher.go:166-175 | the oldest entry leaves the queue, which keeps the others in order |
| `RegionSet.Regions.Add` | fs/remote/util.go:71-117 | the loop from the end merges as the recursive insertion does |
| `RegionSet.Regions.TotalSize` | fs/remote/util.go:119-125 | the loop sums the sizes of the regions |
| `RegionSet.DenotesUnionOfAdded` | fs/remote/util.go:71-117 | whatever was added, the list is sorted with gaps and covers exactly the bytes added |
| `RegionSet.TotalSizeIsUnion` | fs/remote/util.go:119-125 | the total size is the number of different bytes added |
| `RegionSet.FullyFetchedIffSizesAgree` | fs/remote/blob.go:172-177 | with reads inside the blob, the fetched size is the blob's size iff every byte was fetched |
| `BytesWriter.Writer.Write` | fs/remote/blob.go:286-308 | every byte of the stream that lies over the buffer is copied to its place, nothing else changes |
| `BytesWriter.ChunkingDoesNotMatter` | fs/remote/blob.go:286-308 | the buffer depends on the stream only, not on where it was cut |
| `BytesWriter.WholeBufferIsStreamSlice` | fs/remote/blob.go:272-308 | a stream that covers the buffer fills it with its own bytes |
| `ChunkRanges.RangesAreProper` | fs/parallel_artifact_fetcher.go:106-130 | ranges are inside the blob, not empty and at most one chunk long |
| `ChunkRanges.RangesPartition` | fs/parallel_artifact_fetcher.go:106-130 | every byte of the blob lies in exactly one range |
| `ChunkRanges.WritesStayInTheirRange` | fs/parallel_artifact_fetcher.go:297-310 | writing a piece of one range touches no byte of another |
| `ChunkRanges.CompletedFileIsBlob` | fs/parallel_artifact_fetcher.go:220-275 | when every range is complete, in whatever order its pieces came, the file is the blob |
| `ChunkRanges.AllRangesMakeTheBlob` | fs/parallel_artifact_fetcher.go:220-275 | fetching every range of the plan makes the file the blob, whatever it held before |
| `DirListing.InodesAreDistinct` | fs/layer/node.go:236-275 | inodes tell layers and nodes apart and keep clear of the reserved ones |
| `DirListing.ListedIffFound` | fs/layer/node.go:315-477 | listing and lookup agree on every name iff no whiteout hides a whiteout |
| `DirListing.DoubleWhiteoutIsNotFound` | fs/layer/node.go:315-477 | a directory with the whiteout of a whiteout lists a name that a lookup denies |
| `DirListing.FoundIsListed` | fs/layer/node.go:435-449 | whatever a lookup finds is listed, so the cached listing never hides it |
| `DirListing.LookupShows` | fs/layer/node.go:392-477 | a lookup finds the state directory in a root, the child of the name, or the whiteout of a name without child, with its identifier and inode; it fails iff that has no inode, and finds nothing otherwise |
| `DirListing.OpaqueMarkerIsUnseen` | fs/layer/node.go:330-377 | the marker of an opaque directory is neither listed nor found |
| `DirListing.Node.VisitChildren` | fs/layer/node.go:330-355 | visiting the children, in any order, collects the normal entries once and puts whiteouts aside |
| `DirListing.Node.AppendWhiteouts` | fs/layer/node.go:361-377 | whiteouts are listed as the names they hide unless those are replaced, and the listing is complete without repetition |
| `DirListing.SortedListIsUnique` | fs/layer/node.go:379-382 | two lists of the same entries in order of names are the same, so the sorting algorithm does not matter |
| `DirListing.ListingIsDetermined` | fs/layer/node.go:330-382 | in whatever order the children are visited, a directory shows the same entries in the same order |
| `DirListing.Node.Readdir` | fs/layer/node.go:315-388 | a listing, cached or not, has every visible name once with the right inode, in order of names; it fails iff a visible name has no inode |
| `DirListing.Node.Lookup` | fs/layer/node.go:392-477 | a lookup gives the same answer whatever was listed, looked up or forgotten before; a child found is remembered, and a name not found leaves the listing cached where there can be one |

## Left out

- Inflate, tar header parsing, flatbuffers, bbolt, SHA digests and the FUSE kernel protocol are foreign code; their answers are inputs, or assumptions named above.
- HTTP fetching, authorization, registries, the content store, the snapshotter's mounts and most of `fs/fs.go` are not modelled.
- `AcquireDownload` keeps the per-image permit when the global one is refused, so permits do not balance there; the limiters are not modelled.
- Cached spans are never evicted in the model, as in the directory cache without its memory part; a commit to the cache is taken to succeed when adding does.
- BuildAllSpans: a span size to divide by is assumed; `New` stops before it is called otherwise.
- New: negative sizes in a tar index, which the code loads, are not modelled; what the manager of an archive without spans does is not either.
- EndsWellFormed: that the last span of an accepted table starts inside the archive, and that the first offsets are not negative, is assumed; the code does not check it, and the contents of such spans have no meaning.
- EveryReadIsTheArchive: the machine has no goroutine for a slice that ends before it starts; `GetSpanContent` models such a call on its own.
- ExtractFile: entries whose range is not in the archive are not modelled; what inflate does when it is asked to skip a negative distance is not defined, and is an outcome of its own.
- Member: the content of a sparse file is not the stretch of the archive its entry records; only its place and its size are modelled.
- Parse: a count that is negative as a signed word is refused because the memory for it cannot be there; other failures to get memory are not modelled.
- Entry: attributes are whole values; how modes, times and numbers are encoded as bytes in node buckets is not modelled, and extended attributes are modelled apart from the tree.
- Reader.GetOrCreateDir and InitNode: after a failure the contents are unspecified, since the database transaction is given up.
- Sorting of metadata entries by identifier before they are written is not modelled: the database is proved as a map.
- AddLayerStep: adding a job whose image is no longer registered stops the program in the code; the machine goes on with the directory made and nothing filed.
- LruCache: the list inside the cache comes from a library that is not part of this model; it is modelled as a recency list that gives up its last entry.
- Lookup: attributes filled in for the kernel, the state directory's own contents, and telemetry are not modelled.
- Background fetching: pausing, rate limiting, shutdown and metrics are not modelled; a pop is possible whenever the queue is not empty.
- MetadataFromTar: the builder's refusal of members whose type it does not know is not modelled.
- Fetch: copying a downloaded blob in one request, digest verification of the whole blob and unpacking are not modelled.

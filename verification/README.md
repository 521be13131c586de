# nixcached: a verified model

nixcached is a caching HTTP proxy for Nix stores and an asynchronous upload pipeline. This project models the parts of
it where correctness depends on several functions or processes working together, and proves what they guarantee:

- **The queue pipe** (`Send`, `Scanner`, `PipeDelivery`). `send` packs store paths into writes of at most 512 bytes,
  which the `write()` function of POSIX.1-2017 keeps whole; `upload` re-tokenises the byte stream as it arrives, with an
  in-band end marker. Proved end to end for any number of senders, any interleaving and any chunking.
- **The upload scheduler** (`Gather`, `Scheduler`). Batching, the closure-gathering fallback, and a semaphore made of a
  buffered channel that is drained by refilling it, over all schedules.
- **The bucket publication protocol** (`Publication`, `Upload`). Concurrent uploaders on one key/value store, each
  possibly stopping between any two operations: no dangling .narinfo, ever. The imperative upload is proved to be one of
  the protocol's uploaders left alone, and sequences of uploads to be monotone and idempotent.
- **The UI cache** (`Cache`, `Crawl`, `Paging`, `Closure`). Three related tables that must read back as the record that
  was stored, the read-through lookup, the discovery crawl, keyset pagination, and the recursive closure query.
- **Serving from stale cache rows** (`Serving` and `Browsing`, on top of `Publication`, `Cache`, `Paging` and `Urls`).
  Uploaders, the crawl and proxy requests interleave step by step; every cached row keeps leading to a file that matches
  it, and whoever pages through the index meanwhile misses nothing.
- **Single-flight discovery** (`Discovery`, `Shutdown`). A mutex protocol that drops and retakes its lock in the middle, with the
  shutdown wait.
- **Two quoted or fast forms** (`Shell`, `Lookup`). Command-line quoting against a POSIX shell lexer, and the
  binary-search lookup against the linear scan.

`Sequences`, `Orders` and `Sorting` hold the vocabulary of interleavings, byte-wise order and sorted listings;
`StoreObjects` and `NarInfos` that of store objects, keys and the foreign functions. A Go byte string is a `string`, one
`char` for one byte. Hashing, compression and the .narinfo text format are functions inside a `Codec`, with the usual
idealisation (`Codec.Ideal`: no collisions, decoders invert encoders); URL parsing and printing are functions inside
`Serving.UrlText`. Local time in `Discovery` is a non-decreasing integer, and the 500 ms batching timer a choice.

`dafny verify dfyconfig.toml` checks everything.

## What the proofs found

- **Closure columns.** The recursive arm of the closure query emits the digest it has reached instead of the root it
  started from (uicache/index.sql:20), so the columns called closure sizes add up direct references only
  (`ClosureColumnsAreDirect`). `TransitiveTotal` is what they are meant to be, defined on the reference graph without
  the query: the object's own size and those of all below it. A column never exceeds it, and equals it exactly when
  everything the column leaves out has no size or size 0 (`ColumnIsTotalIff`); an object whose own size is unknown
  leaves out everything. When the object and all below it are cached with sizes above 0, that is exactly when whatever
  its direct references refer to, other than itself, is a direct reference too (`ColumnIsTotalIffClosed`).
  `GrandchildIsNotCounted` is the counterexample, with the amount that is missing; on a cycle of two objects the column
  is right (`CycleOfTwo`); and `RootVariantIsClosure` shows what a query carrying the root would compute.
- **The end marker and chunking.** When the marker is at the front of the buffer, the split function ends with a nil
  token (upload.go:613-614), which the Scanner of Go 1.21 hands out as one extra empty token. `ScanAll` says exactly
  when: if and only if the first marker line begins at the start of the stream or where a read had left off.
  `ChunkingShows` is a stream that gives different tokens for two chunkings, and `ReceivePaths` says that skipping
  blanks makes this invisible.
- **Carriage returns.** Exactly the lines that do not end in a carriage return survive the pipe (`RoundTripUnlessCR`).
- **What the cache forgets.** A record reads back normalised (`WriteThenRead`): references and signatures sorted, the
  `System` field dropped, and a file size of 0 or less as -1. That does not reach the proxy's answers: an archive begins
  with its magic string and is never empty, so every Content-Length is right (`StaleRowsStayServable`).
- **Lost merges count as success.** When the write that merges signatures into an existing .narinfo fails, the upload
  still ends as "already present" (upload.go:578-584). Repeating a successful upload leaves the bucket unchanged if and
  only if the first did not lose such a write (`RepeatedUpload`).
- **A cached answer can differ from the first one.** The lookup that fills the cache returns the store's record as it
  came; every later lookup returns it normalised. The two agree if and only if the record is normal already: in the
  store directory throughout, references and signatures in order, a positive or unknown (-1) file size, no `System`
  (`CachedAnswerStays`, `NormaliseIsIdentityIff`). `NotNormal` is a record on which they differ.
- **One unreadable record can hide others.** A lookup that fails with another error than "not found" cancels the rest of
  its batch (internal/nixstore/nixstore.go:83-91), so that a crawl may leave out objects that were in one batch with a
  broken one (`OneFailureHides`), and no others (`Discover`).
- **Objects that are not present.** The fallback of `gatherStorePathSet` leaves out entries with a zero NAR hash; the
  batched query in front of it does not (upload.go:297-300, 322-324). `GatherStorePathSet` states both.
- **Name of the flag.** A comment says that the marker is sent for `--close` (upload.go:607); the flag is `--finish`
  (send.go:41).

## Model

| member | source | states |
|---|---|---|
| PipeDelivery.CommandIsSender | send.go:42-67 | running an accepted command line leaves in the pipe what one sender of the delivery theorem sent; its marker is behind all paths and there exactly for `--finish`; success means that every argument was sent |
| Send.AcceptedOrRejected | send.go:92-102 | every path is accepted or counted as rejected, and accepted are exactly those without newline that fit in 512 bytes with theirs |
| Send.AcceptedInOrder | send.go:91-102 | the accepted paths keep their order and number: a path is accepted exactly when it has no newline and at most 511 bytes |
| Send.PackIsPacking | send.go:103-118 | the greedy groups are whole lines, in order, none lost, no write empty or over 512 bytes |
| Send.GreedyStaysAhead | send.go:103-114 | no order-preserving packing is shorter, and one of equal length has no smaller last write |
| Send.SendBatchingOptimal | send.go:88-123 | the writes concatenate to the accepted lines, each between 1 and 512 bytes, and no other packing into such writes uses fewer |
| Send.PackGrows | send.go:103-112 | a write once made is not affected by later paths |
| Send.Enqueue | send.go:103-114 | one line into the 512-byte buffer, flushing first when it does not fit: new buffer and new writes, or failure with nothing written |
| Send.RunSend | send.go:72-132 | writes exactly the packed writes and reports the exact number of rejected paths; or, when the pipe gives out after k writes, exactly the first k, at most a part of the next, and a write error; open and close errors are reported, the latter when there is no other |
| Scanner.MatchMeaning | upload.go:627-650 | the three-way marker test agrees with the meaning of the first line; undecided is exactly a NUL or a NUL and a carriage return |
| Scanner.FirstLineMeaning | upload.go:618 | the first line of a stream is a token without its line end, a line feed or a carriage return and a line feed, of which nothing else is taken away; only a NUL alone on its line ends the stream |
| Scanner.MarkerEndsStream | upload.go:613-614 | a marker seen at the front of the buffer ends the stream, whatever follows |
| Scanner.FirstLineOfStream | upload.go:618-624 | a complete line in the buffer that is not a marker is the stream's next token |
| Scanner.SplitSound | upload.go:612-625 | each answer of the split function on any prefix of the stream is true of the whole stream |
| Scanner.HeldWhileWaiting | upload.go:612-625 | when it asks for more data it holds at most two bytes more than the longest line |
| Scanner.LineScanner.TrySplit | upload.go:612-625 | one call of the split function consumes exactly the token it reports, says where the first marker is, or leaves the buffer alone with no line feed at its end |
| Scanner.LineScanner.Scan | upload.go:132-151 | one more token of the whole stream's reference tokens, the blank one only for a marker at a read boundary, or the end; too long only if 65536 bytes are held |
| Scanner.ScanAll | upload.go:132-185 | any chunking gives the reference tokens up to the first marker, and one blank token more if and only if that marker begins at the start or at a read boundary; an error is reported for a line that is too long or a failing read, and a failing read goes unreported only behind a marker |
| Scanner.LinesFit | upload.go:132-135 | every stream has a bound on its lines, so asking `ScanAll` for one excludes none |
| Scanner.SplitLocatesMarker | upload.go:612-625 | what each answer of the split function says about where the first marker line is, on any prefix of the stream |
| Scanner.ChunkingShows | upload.go:613-614 | one stream, read in one piece and in two, on which the number of tokens differs; and a marker in front, where the blank token always comes |
| Scanner.ReceivePaths | upload.go:138-178 | the selected paths do not depend on the chunking at all, and lines below the buffer limit never fail the scan |
| Scanner.SelectInOrder | upload.go:155-178 | what is selected is what the checks make of the tokens, in order |
| PipeDelivery.TokensOfLines | upload.go:612-650 | tokenising what was sent gives the sent lines without trailing carriage returns, up to the marker |
| PipeDelivery.TokensOfPart | upload.go:612-650 | the same for lines of which the last has arrived only in part: that part is one more token, unless the marker came before |
| PipeDelivery.PartOfLines | upload.go:132-151 | whatever has arrived of some lines is whole lines and the beginning of the next |
| PipeDelivery.RoundTripUnlessCR | upload.go:618 | lines round-trip if and only if none ends in a carriage return |
| PipeDelivery.CutBeforeOrAfterCR | upload.go:606-610 | carriage-return stripping never makes or hides a marker, so the cut is exact |
| PipeDelivery.SentLinesMeaning | send.go:88-123 | whatever number of its writes went through, what left a sender is a prefix of its accepted paths, all of them when it finished |
| PipeDelivery.StreamIsMerge | send.go:73-76 | an interleaving of the senders' atomic writes is the encoding of an order-preserving merge of their lines |
| PipeDelivery.DeliverPaths | upload.go:132-185 | end to end: any senders, interleaving and chunking deliver the selected lines of an order-preserving merge, as far as they have arrived, cut at the first marker; a read that fails in the middle of a line adds at most one token made of its beginning; the scan fails only if reading does |
| Gather.Merge | upload.go:316-325 | keeps the visited set and the deduplicated result in step |
| Gather.WantedStep | upload.go:307-310 | skipping a visited path loses nothing because closures are transitive |
| Gather.GatherStorePathSet | upload.go:287-328 | the batched answer when there is one; otherwise no duplicates and exactly the union of the closures of the individually resolvable paths without absent objects |
| Scheduler.StepKeepsSem | upload.go:228-234 | channel occupancy is running jobs plus drain tokens, at every step |
| Scheduler.StepKeepsBatches | upload.go:227-263 | every batch has 1 to 100 paths, at every step |
| Scheduler.StepKeepsScan | upload.go:138-185 | every selected token is accepted, about to be sent or still to come, at every step |
| Scheduler.StepKeepsPaths | upload.go:236-267 | every accepted path is in exactly one batch or in the open one, in order, at every step |
| Scheduler.StepKeepsJobs | upload.go:269-283 | every gathered info has exactly one job or is still to be launched, at every step |
| Scheduler.SelectedInOrder | upload.go:155-174 | the paths that count as selected are those among the tokens, all of them and in order |
| Scheduler.WaitsOnlyWhenFull | upload.go:250-273 | an upload is held back exactly while as many as the limit hold the semaphore; a path is taken exactly when the loop is free or its open batch has fewer than 100 |
| Scheduler.StepKeepsInv | upload.go:103-186 | all of these together are inductive |
| Scheduler.SemaphoreBoundsUploads | upload.go:226-285 | over all schedules at most `concurrency` uploads run, a release never blocks, and once processUploads is done no upload is running |
| Scheduler.PipelineConservation | upload.go:120-186 | runUpload returns only after all uploads; uncancelled, every selected path was in exactly one batch of at most 100 and every gathered info had exactly one upload |
| Scheduler.StepsRunOut | upload.go:226-285 | every step leaves less work in a lexicographic order |
| Scheduler.NeverStuck | upload.go:120-186 | with positive concurrency some step is possible until runUpload has returned |
| Scheduler.EveryScheduleEnds | upload.go:103-186 | with positive concurrency every schedule, cancelled or not, comes to the state in which runUpload has returned and no upload is running |
| NarInfos.RootKeys | upload.go:337 | .narinfo and listing keys are at the root of the bucket and never collide |
| NarInfos.KeyTexts | upload.go:487 | the literal keys of .narinfo files, listings and NARs by compression type |
| NarInfos.NarKeyInjective | upload.go:487 | a NAR key determines the hash of the file it is for |
| Publication.AddSignatures | upload.go:565-570 | the old signatures in front, and exactly the union |
| Publication.PutNarPreserves | upload.go:399-405 | writing a NAR under its content's key leaves everything backed that was backed |
| Publication.PutInfo | upload.go:420-425 | publishing a backed .narinfo keeps the bucket free of dangling ones |
| Publication.AdvanceKeeps | upload.go:330-428 | each operation of an uploader keeps the bucket good, what others rely on in place, and its own copies true, including a stale .narinfo about to be rewritten |
| Publication.StepKeepsInv | upload.go:330-428 | so does every step of every interleaving, starts and crashes included |
| Publication.NeverDangling | upload.go:384-428 | in every reachable state every parseable .narinfo names a NAR that is present, has its FileHash and FileSize, and unpacks to its NARHash and NARSize |
| Upload.CheckUploadOverwrite | upload.go:547-585 | the imperative check and signature merge do exactly the protocol's first steps |
| Upload.DumpPath | upload.go:432-489 | succeeds exactly for a supported compression, a compressor that starts and finishes, and a readable path; passing the archive and the file through hash writers in any pieces reports hash and size on both sides, the MD5 sum, the listing if one was wanted and could be made, and the content-addressed URL |
| Upload.HashWriter.Pass | upload.go:664-686 | however the data is cut into writes, what has been hashed and counted is the data |
| Upload.UploadStorePath | upload.go:330-428 | bucket and outcome are those of an uploader of the protocol left alone; when it ends as uploaded, the .narinfo reads back as the local record with only file hash, file size, URL and compression replaced, it is backed, its file unpacks to the archive that was dumped, and the listing is in place if its write took effect |
| Upload.UploadedIsPublished | upload.go:374-425 | the same of every uploader left alone |
| Upload.UploadSucceeds | upload.go:330-428 | without faults, an absent or forced object ends as uploaded when its compression is supported, its archive is what the local store says and its record can be written |
| Upload.WritesOnlyItsKeys | upload.go:399-422 | an upload writes its .narinfo, its listing and its NAR and no other key |
| Upload.UnreadableBucket | upload.go:548-554 | a non-forced upload that cannot read the entry fails and writes nothing |
| Upload.RunAloneIsARun | upload.go:330-428 | and running alone is one of the protocol's interleavings |
| Upload.NothingNewToAdd | upload.go:565-570 | the length comparison is true exactly when every local signature is already there |
| Upload.MergeIsUnion | upload.go:564-585 | an entry of equal content that lacks some local signature is rewritten with its own signatures in front and exactly the union, all else unchanged |
| Upload.AddSignaturesDistinct | upload.go:566 | merging introduces no signature twice |
| Upload.OtherDigest | upload.go:330-428 | uploads of other objects leave an entry alone |
| Upload.NonForcedUpload | upload.go:338-347 | a non-forced upload, with any faults, changes nothing of an existing entry but adds the signatures of a matching upload whose write happened |
| Upload.EntriesAreMonotone | upload.go:547-585 | the same over any sequence of non-forced uploads: every field of the record but the signatures stays for ever, signatures become the union |
| Upload.FilesStay | upload.go:337-347 | in a good bucket the entry's file also stays, byte for byte, and the entry stays backed by it |
| Upload.MismatchChangesNothing | upload.go:556-563 | an existing entry with other content, or one that cannot be parsed, leaves the bucket unchanged |
| Upload.RepeatedUpload | upload.go:337-347 | repeating a successful upload, best-effort listing written or not, leaves the bucket unchanged whatever happens the second time, if and only if the first lost no merge of signatures |
| Upload.LostMerge | upload.go:578-584 | a merge whose write had no effect still ends as skipped, and the next upload changes the bucket |
| Cache.WriteThenRead | uicache/repeatable.sql:16-42 | a stored record reads back as itself, normalised |
| Cache.ReadThenWrite | uicache.go:321-373 | storing what was read is accepted, and changes nothing if and only if the row has no zero file size and no empty content address |
| Cache.UpsertFrame | uicache/upsert_object.sql:1-62 | an upsert replaces all rows about its object, whatever they were, and leaves the rows about every other object as they are |
| Cache.ViewOfOnly | uicache/repeatable.sql:16-42 | what is read for an object depends on the rows about it alone |
| Cache.UpsertKeepsValid | uicache/schema.sql:7-67 | an upsert keeps every column check and foreign key |
| Cache.StorableMeaning | uicache/schema.sql:7-67 | exactly which records are accepted; nothing is asked of URL, compression, file size, content address and system |
| Cache.ReferencesReadBack | uicache/repeatable.sql:26-31 | references come back sorted and under the store directory |
| Cache.SignaturesReadBack | uicache/repeatable.sql:33-40 | signatures come back sorted by name, each with its data |
| Cache.NormaliseIdempotent | uicache.go:321-373 | normalising twice is normalising once, for every record |
| Cache.NormaliseMeaning | uicache.go:321-373 | field by field what is kept: the same references and signatures in order, each once as often as before, everything else unchanged or as listed |
| Cache.NormaliseIsIdentityIff | uicache.go:321-373 | exactly which records the cache keeps as they are |
| Cache.NotNormal | uicache.go:321-373 | a record that the schema accepts and that reads back differently |
| Cache.CachedAnswerStays | uicache.go:271-319 | once cached, a record is answered normalised whatever the store replies later, and nothing more changes; that answer is the first one again if and only if the record was normal |
| Cache.MissIsAnswered | uicache.go:297-318 | a record of the store directory that is not cached is answered as the store has it, saved or not; one of another directory is an error |
| Cache.HitIsAnswered | uicache.go:278-295 | a cached record is answered from the cache alone, exactly when its compression type is known |
| Cache.OrderedByText | uicache/repeatable.sql:27-31 | an `order by` on a text column gives the one increasing listing of the values |
| Cache.UICache.InsertReferences | uicache/upsert_object.sql:46-52 | succeeds exactly for valid references with distinct names, and then has added exactly their rows |
| Cache.UICache.InsertSignatures | uicache/upsert_object.sql:54-62 | succeeds exactly for valid signatures with distinct signer names, and then has added exactly their rows |
| Cache.UICache.RunUpsertScript | uicache/upsert_object.sql:1-62 | succeeds exactly for the records the schema accepts |
| Cache.UICache.UpdateCachedStoreObject | uicache.go:512-561 | all three tables become the upsert of the record, or, when the schema rejects it, stay as they were although deletes ran first |
| Cache.UICache.CacheInfo | uicache.go:187-213 | the store directory is learnt once and then kept; one that cannot be saved is answered all the same |
| Cache.UICache.SelectRow | uicache.go:321-373 | the row read back is the view's |
| Cache.UICache.NARInfo | uicache.go:271-319 | tables and answer of the read-through lookup in every case: hit, unreadable row, miss, foreign store directory, record that does not fit, directory or record that cannot be saved |
| Crawl.BatchNARInfo | internal/nixstore/nixstore.go:65-101 | with positive concurrency, at most one answer for each digest the store knows, in some order, never more than that many lookups at a time; an error exactly when some lookup fails, and without one, exactly one answer for each |
| Crawl.OneFailureHides | internal/nixstore/nixstore.go:83-91 | two lookups of which one fails and the other, cancelled, ends without its answer: nothing is found although the store knows one object |
| Crawl.ReadBatch | uicache.go:418-447 | reads on to exactly 100 digests that are not cached, or to the end of the listing; everything read is cached or in the batch |
| Crawl.StoreBatch | uicache.go:460-481 | adds exactly the batch's records of the right store directory that the schema accepts |
| Crawl.LookupEnds | internal/nixstore/nixstore.go:83-96 | a lookup that ends keeps the account of found, running and asked-for objects, failing and cancelled ones included |
| Crawl.BatchBringsAll | uicache.go:417-486 | a round adds nothing it did not read, and everything worth adding of that unless a lookup of the batch fails |
| Crawl.RoundDone | uicache.go:417-486 | so after each round only objects in batches with a failing lookup may be missing |
| Crawl.Discover | uicache.go:406-491 | terminates, returns the number of digests delivered, asks only for uncached objects, at most 100 in a batch and 3 at a time, leaves every other row untouched, and adds every listed object that can be cached, except perhaps some in a batch with a failing lookup; without failing lookups the cache ends with exactly its old objects and those listed, known, in the directory and accepted by the schema |
| Crawl.CrawledView | uicache.go:406-491 | what a reader sees afterwards: old rows as before, new ones as the store's records normalised |
| Crawl.CrawlOnlyAdds | uicache.go:470-479 | from one round of the crawl to a later one the paged table only gains rows, as `Paging.CrawlComplete` needs |
| Paging.RestOfPage | uicache/has_more.sql:1-10 | the rows after a page's last row are exactly the eligible rows not on the page |
| Paging.PageRows | uicache/index.sql:2-13 | on the table alone: the page has the first 100 matching rows beyond the cursor in lexicographic order of name and digest, and hasMore is true exactly when there are others |
| Paging.PageMeaning | uicache.go:231-269 | a page is increasing, at most 100 rows, skips nothing; hasMore is true exactly when an eligible row is not on it, and exactly then there is a link |
| Paging.CrawlComplete | serve.go:330-342 | following the links with inserts in between repeats nothing, goes in (name, digest) order and misses no row of the first table whose name matches; every row seen matches in the last one |
| Paging.CrawlOfFixedTable | uicache/index.sql:2-13 | on a fixed table the pages are the sorted listing of exactly the rows whose names match |
| Paging.CrawlEnds | serve.go:330-342 | on a fixed table following the links comes to an end |
| Browsing.StepOnlyAdds | uicache.go:271-319 | when a digest determines the name, no step of uploads, requests or crawl removes or renames a row of the paged table |
| Browsing.TableOnlyGrows | uicache.go:512-561 | so it only gains rows from any state of a run to any later one |
| Browsing.BrowsingIsComplete | serve.go:330-342 | paging while all of them are at work repeats nothing, keeps the order and misses nothing that was cached at the start |
| Closure.RequisitesAreReachable | uicache/index.sql:14-25 | the recursion ends on every reference graph, cycles included, and gives exactly the non-self reference rows reachable from the page |
| Closure.RowMeaning | uicache/index.sql:15-24 | which object a reference row stands for, and that it counts exactly when that is not the referrer |
| Closure.ClosureColumnsAreDirect | uicache/index.sql:38-45 | each closure column is own size plus direct references, whatever else is on the page |
| Closure.TotalInsert | uicache/index.sql:38-45 | the sum over the joined rows does not depend on their order |
| Closure.RootVariantIsClosure | uicache/index.sql:14-25 | a recursion that carries the root gives exactly the transitive closure of every page member |
| Closure.ColumnsAreTransitiveIffClosed | uicache/index.sql:20 | the rows of the query and of the variant agree for an object if and only if its direct references are closed under reference |
| Closure.TotalOfMore | uicache/index.sql:38-45 | more rows never lower a sum, and leave it the same exactly when all of them add nothing |
| Closure.ColumnIsTotalIff | uicache/index.sql:38-45 | the column never exceeds the transitive total over the reference graph, and equals it if and only if everything it leaves out adds nothing |
| Closure.ColumnIsTotalIffClosed | uicache/index.sql:38-45 | with the object and all below it cached at sizes above 0, the column is the transitive total if and only if the direct references are closed under reference, ways back to the object aside |
| Closure.TotalIsOverObjects | uicache/index.sql:38-45 | when a digest goes with one name, a sum over rows is the sum over the objects |
| Closure.CycleOfTwo | uicache/index.sql:14-25 | on a cycle of two objects the column is the total if the own size is known, and 0 if not |
| Closure.AcyclicTransitiveAgree | uicache/index.sql:14-25 | on an acyclic, transitive reference relation the rows agree, and every column with a known own size is the transitive total |
| Closure.GrandchildIsNotCounted | uicache/index.sql:20 | along a chain of three objects the rows differ, and the column falls short of the total by exactly the size of the last object |
| Urls.ResolvedKey | internal/nixstore/bucket.go:123-127 | resolving a relative path against the .narinfo's URL and taking the bucket key of the result gives the path back |
| Urls.OpenedUrlIsBucketUrl | internal/nixstore/bucket.go:60-71 | the URL a bucket is opened with has a normal path, whatever was typed |
| Urls.OpenedPathMeaning | internal/nixstore/bucket.go:60-63 | a bucket opened at a normal path, with or without leading slash, is opened at that path |
| Urls.UrlKeyMeaning | internal/nixstore/bucket.go:200-209 | a URL names a key exactly when it is plain, on the bucket's scheme and host, and its cleaned path is the key below the bucket's path |
| Urls.OtherHost | internal/nixstore/bucket.go:127 | a NAR URL on another host stays there and names no key of the bucket |
| Urls.DotSegments | internal/nixstore/bucket.go:60 | what dot segments and empty segments do to a path |
| Urls.InfoUrlPath | internal/nixstore/bucket.go:127 | the URL of a .narinfo is the bucket's path and the key, for buckets at the root as well |
| Urls.ResolveBelow | internal/nixstore/bucket.go:127 | section 5.2 of RFC 3986 for a relative path below the bucket's path |
| Urls.NarUrlRoundTrip | serve.go:557-595 | a NAR path is understood as (digest, compression) if and only if it is the one built from them |
| Serving.FetchedIsServable | internal/nixstore/bucket.go:107-129 | a record read from a good bucket leads, through its resolved URL, to a file that matches it |
| Serving.FetchMeaning | internal/nixstore/bucket.go:107-129 | a lookup is absent exactly when there is no .narinfo, readable exactly when that and its URL parse, and then answers with what it says in every field but the URL, which leads back to the key named there |
| Serving.ServableStays | internal/nixstore/bucket.go:132-151 | uploads never take away what a record needs |
| Serving.UpsertKeepsRows | uicache.go:512-561 | caching a servable record gives a servable row, its file size included |
| Serving.DownloadIsTruthful | serve.go:522-544 | the download of a servable record finds the file, and headers and body agree |
| Serving.AdvanceKeeps | serve.go:483-545 | every step of a request or of the crawl keeps rows and local copies servable |
| Serving.StepKeepsInv | serve.go:483-545 | so does every step of uploaders, requests and crawl, interleaved |
| Serving.StaleRowsStayServable | serve.go:499-535 | in every reachable state every cached row leads to a matching file, and every file was served with the hash of the body as ETag, exactly its size as Content-Length, and unpacks to the record's archive under the compression asked for |
| Serving.StepsAreLookUp | uicache.go:271-319 | undisturbed, the steps of a request are the cache's read-through lookup |
| Serving.ServedUrlIsServed | serve.go:462-465 | the URL in a .narinfo served for a cached object is understood, finds the record, and yields its file however the bucket has changed since |
| Discovery.RequestKeepsLock | serve.go:359-382 | the lock is held by exactly the party inside a critical section, and calls nest at most once |
| Discovery.StepKeepsInv | serve.go:359-408 | lock, fields, channels, times, depth, and the request that will start a discovery stay right at every step of every party |
| Discovery.SingleFlight | serve.go:359-408 | in every interleaving at most one discovery is active, both fields name exactly the active one when the lock is free, re-entry depth is at most one, and starts are at least maxListFrequency after the previous end |
| Discovery.CheckDecides | serve.go:359-406 | a request at its check starts a discovery, or goes to fetch a connection for one, exactly when none is active and the last one, if any, ended at least maxListFrequency ago; otherwise it returns |
| Discovery.ArrivalStarts | serve.go:359-406 | a new request that finds the mutex free under that condition starts one by its own steps |
| Discovery.ShutdownDecides | serve.go:157-166 | the shutdown goes straight to the exit exactly when no discovery is active; otherwise it cancels that one and waits for it |
| Discovery.ShutdownReleasedByOwnCompletion | serve.go:157-168 | a channel is closed only by its own goroutine after it has stored its results, so the shutdown wait ends with the very discovery it cancelled |
| Discovery.ClearingClosesOwnChannel | serve.go:398-403 | and never closed twice |
| Discovery.HolderCanMove | serve.go:360-403 | the holder of the lock always has a step to take |
| Discovery.FlightCanMove | serve.go:359-408 | until a discovery has closed its channel, a step of its own, of the request about to start it, or of the lock's holder is possible |
| Discovery.ShutdownCanEnd | serve.go:157-168 | from every reachable state in which the shutdown waits, such steps alone lead to the exit |
| Shutdown.OthersStay | serve.go:359-408 | in each phase of a discovery that the shutdown waits for, nothing that others do takes away the turn of the party whose it is |
| Shutdown.MutexIsWon | serve.go:398-403 | under fair scheduling a discovery that has ended gets the mutex, although requests keep taking it |
| Shutdown.EveryFairScheduleExits | serve.go:157-168 | on every fair schedule, with any number of requests, a waiting shutdown gets through |
| Shell.ShellEscape | internal/nixstore/ssh.go:287-320 | appends the quoted form, and the quoted branch writes exactly the room it asked for |
| Shell.NewCommand | internal/nixstore/ssh.go:247-256 | the loop over the arguments builds the whole command line |
| Shell.LexEscape | internal/nixstore/ssh.go:287-320 | a shell reads the quoted form of any string, in any context, as that string in one word |
| Shell.ArgWordInert | internal/nixstore/ssh.go:322-327 | and leaves no character unquoted that section 2.2 lists as special or that other shells expand |
| Shell.BareIff | internal/nixstore/ssh.go:293-309 | exactly the non-empty strings of letters, digits and `-_/.` are written bare |
| Shell.CommandLineRoundTrip | internal/nixstore/ssh.go:247-256 | the shell reads exactly `NIX_STORE_DIR=` with the directory, the program and the arguments, in order, and no unquoted character of them is special |
| Lookup.PrefixInterval | internal/nixstore/local.go:196-203 | in a sorted listing the names with a prefix are exactly the interval from the lower bound on |
| Lookup.ScanIntervalOnly | internal/nixstore/local.go:202-210 | scanning that interval alone gives the same answer |
| Lookup.LowerBound | internal/nixstore/local.go:197 | the binary search finds the first entry not below the digest |
| Lookup.QueryPathFromHashPart | internal/nixstore/local.go:195-212 | narrowed or not, the result is the first match of a linear scan |
| Lookup.QueryInChunks | internal/nixstore/local.go:181-192 | reading the directory piece by piece finds what one scan of all of it finds, wherever the pieces end |
| Lookup.MatchIsUnique | internal/nixstore/ssh.go:171-173 | with one object per digest the order of the listing does not matter |
| Lookup.FirstMatchMeaning | internal/nixstore/local.go:205-211 | the result is the first entry that is the name of an object with the digest, and none only if no entry is |
| StoreObjects.NamesMeaning | internal/nixstore/local.go:206 | a store object name is 32 base-32 characters, a dash and at least one name character |
| StoreObjects.Alphabets | uicache/schema.sql:11-14 | the two alphabets, character by character |
| Sequences.LessMeaning | internal/nixstore/ssh.go:171-173 | in the byte-wise order the first difference decides, and a proper prefix comes first |

## Left out

- Command-line flags, logging, HTTP plumbing, templates, static files, packaging: no invariants of their own.
- Cloud bucket drivers, SSH and SFTP processes, the `nix` and `xz` programs, real hashing and compression: foreign code, represented by `Codec`, `Gather.Store` and the environment's choices.
- The print and parse round trips of .narinfo texts, URLs, hashes, signatures and content addresses: assumed (`Codec.Ideal`, `UrlText.Ideal`); the cache's tables hold parsed values.
- SQLite's planner, locking, and I/O errors other than a refused write of a directory or a record: statements and savepoints are atomic table updates; the regular-expression checks are predicates.
- Temporary files and mid-upload local I/O errors: an uploader that fails there stops, which the model has as a crash.
- Content-Encoding in `Download` (gzip and Brotli): the uploader never sets it, so a bucket changed by it alone takes the pass-through branch.
- `ensureCacheInfo`, `formatSize`, `compressionMIMEType`, `supportedCompressionTypes`: single-branch or formatting code.
- Store listings of SSH and local stores (`NextDigest`) and `serveIndex`'s HTML: they would only add easy members.
- Update in place in `processUploads`, `runUpload`, `signalDiscovery` and the concurrent form of `uploadStorePath`: goroutines interleave step by step, so these are step functions on state values; reused slices and captured variables are not modelled.
- The result rows of `cachedList` and the closure query: single SQL queries, modelled as functions on tables; lower-casing and `instr` are one predicate on names.
- Send.RunSend: an open or a write that a timeout gives up on is a failed one, whatever part of the write takes effect; what takes effect only after the command has ended counts as that part.
- Scanner.LineScanner.Scan: the Scanner's give-up after 100 empty reads, which reads of a file or pipe do not return, and the growth of its buffer up to 65536 bytes; `chunks` are what the reads return.
- PipeDelivery.DeliverPaths: the checks on a received path (`ParsePath`, sub-path, derivation) are one function `select` that rejects the empty token; writes to the pipe are atomic.
- Scheduler.PipelineConservation: says nothing about paths dropped by a cancelled run beyond the wait for running uploads.
- Scheduler.SemaphoreBoundsUploads: the concurrency is a natural number; with 0 the bound holds but `NeverStuck` needs at least 1.
- Upload.EntriesAreMonotone: uploads one after another; with concurrent writers a signature update can be lost (upload.go:577), and only `NeverDangling` is claimed.
- Publication.NeverDangling: does not order references before referrers, because the code does not.
- Serving.StaleRowsStayServable: NAR requests and the crawl of a bucket store; HEAD requests stop before the body, and an error in the middle of a download is not modelled.
- Crawl.Discover: a store that answers about the object asked for, always the same; cancellation of the whole crawl and errors of its cache queries are not modelled; other writers of the database while it runs are in `Serving` (safety) and not here.
- Discovery.SingleFlight: pool connections are not counted; a caller that loses the race after fetching one returns without giving it back (serve.go:362-366). The call's result, whether a discovery has ever ended, is not modelled.
- Closure.ClosureColumnsAreDirect: a NULL own size makes the column NULL, which reads as 0; sums are unbounded integers.
- Paging.CrawlComplete: rows are inserted between pages, not removed or renamed; `Browsing` shows that nothing in the program does.
- Shutdown.EveryFairScheduleExits: fairness is assumed of the Go scheduler, of the mutex towards ended discoveries, and of the crawl, which ends once it is cancelled.
- Closure.ColumnIsTotalIff: two references with one digest and different names count twice, in the column and in the total alike.

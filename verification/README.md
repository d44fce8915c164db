# Giganto: a verified model of its storage, paging, merging and node protocols

Giganto collects security events over QUIC, stores them in RocksDB column families, serves
them over GraphQL, republishes them to subscribers, and keeps a mesh of peers. This Dafny
project models the logic that is easy to get wrong and proves what it guarantees:

- **Keys and scans** (`Bytes`, `StorageKeys`, `EventStore`). Keys are byte strings
  `source 0 [kind-or-field 0] timestamp`; every query is a lexicographic range scan. Byte
  order, key injectivity, the exactness of ranges and the cursor objects are proved down to
  the bytes.
- **Cursor paging** (`Paging`, `PagingRequests`). `get_connection` and `collect_records` as
  methods over a cursor; what one request answers, record by record, and which are refused;
  following the cursors in either direction delivers exactly the events asked for.
- **The merge over many stores** (`NetworkMerge`, `NetworkPaging`, `NetworkLanes`,
  `NetworkClient`, `NetworkComplete`, `NetworkRequests`). The loop over sixteen stores,
  generalised to any number of lanes, returns a page of the unique stable merge. A client that
  follows its cursors forward or backward receives answers only, each at most once; whether it
  receives all of them has an exact condition for each page size, whatever the stores hold, and
  a simple one for all page sizes together.
- **Statistics** (`Statistics`, `StatisticsAnswers`, `StatisticsExport`, `StatisticsFile`). The
  two loops over a vector of iterators and a vector of pending values that shrink together:
  times, periods and totals shown are those of the records of the store, sources are
  independent, and the export writes every readable record, in order, under exact conditions.
- **Ingest acknowledgements** (`IngestAck`). Two tasks over two atomics, every atomic access a
  step: acknowledgements never run ahead of storage; the unacknowledged window is bounded by
  2 * 1024 + 1 and the bound is reached; when they are cumulative, and when in order.
- **Cutover from stored to live events** (`Cutover`). Every interleaving of register, scan and
  receive with append and fan-out, for any 64-bit times: when nothing is lost, when nothing
  comes twice, when delivery is in order.
- **Peer gossip** (`Gossip`). Handshakes, broadcasts and connect requests over any number of
  nodes: every run is finite and ends with each component of the configured lists a clique.
- **Retention** (`Retention`) and the **source registry** (`SourceRegistry`) over whole runs.

Code that mutates objects or vectors in the program is a class or a method with loops here,
proved against a function of its inputs; the properties are lemmas about that function.
Protocols are state machines: a run is a finite sequence of moves, and a claim about "every
interleaving" quantifies over all of them. Clocks, filters, decoding and the order of moves are
parameters.

Where a natural claim is false of the code, the project states when it holds:

- A time range is answered exactly only for the windows of `WindowIsExact`; an end at or before
  the epoch reads as "no end", and a negative start sorts above every event.
- A page size of zero returns every match once the first readable record matches
  (`collect_records`), or one record (`network_connection`).
- Records that share the cursor's time in another store are skipped by the next page.
- An iterator that ends at an unreadable record can resurface behind it on a later page;
  `NothingResurfaces` says when none does. Paging over several stores is complete for a page
  size exactly when `CleanPages` holds of the answers, and for all sizes together only under the
  conditions of `MultiStorePagingAlwaysIff`. That theorem ranges over sizes of any magnitude;
  the service itself serves sizes up to 100, each of which `MultiStorePagingExactlyIff` covers.
- In latest-only mode the statistics iterators left over from one source reach the next ones;
  `Harmless` says when they change nothing.
- The statistics export loses records or writes them out of time order when a core has raw
  records but no readable one and later cores go on; the conditions are exact.
- Acknowledgements are cumulative only when no acknowledgeable event is followed by one that is
  not later. They are in stream order only when every event before the last one of the last
  whole rotation has time 0, and the rotation count bounds what is unacknowledged only when
  every event with more than 1024 others behind it has.
- A subscriber misses events whose timestamps do not strictly increase, and scans nothing from a
  negative start time; it can receive the last scanned event twice as soon as there is one.
- A negative retention cutoff deletes unexpired events; the log pass deletes expired records of
  every source that does not sort before all listed ones.

The comment on `send_ack_timestamp` (src/ingest.rs:903-908) calls acknowledgements cumulative
without condition; the model follows the code.

## Model

| member | source | states |
|---|---|---|
| Bytes.BeBytesOrder | src/storage.rs:716-757 | byte order of encoded timestamps is the order of their unsigned values |
| Bytes.BeBytesRoundTrip | src/storage.rs:716-720 | decoding an encoded timestamp gives it back |
| Bytes.BeBytesOrderIsTimeOrderIffSameSign | src/storage.rs:716-757 | byte order agrees with time order if and only if both times have the same sign |
| StorageKeys.RankOrder | src/graphql/export.rs:2088-2098 | comparing the last eight bytes of two keys compares their unsigned timestamps, for all keys that long; equal bytes are equal timestamps |
| StorageKeys.StorageKeyBuilder.StartKey | src/storage.rs:699-705 | appends the source and a zero byte to the key under construction |
| StorageKeys.StorageKeyBuilder.MidKey | src/storage.rs:707-714 | appends the middle part and a zero byte, or nothing when there is none |
| StorageKeys.StorageKeyBuilder.LowerClosedBoundEndKey | src/storage.rs:722-731 | the lower bound: the start time, clamped to the largest when it does not fit, zero when absent |
| StorageKeys.StorageKeyBuilder.UpperClosedBoundEndKey | src/storage.rs:733-742 | the closed upper bound, the largest time when absent |
| StorageKeys.StorageKeyBuilder.UpperOpenBoundEndKey | src/storage.rs:744-757 | the open upper bound: one nanosecond before the end, and the largest time when there is no end or that is negative |
| StorageKeys.BuildEventKey | src/ingest.rs:790-841 | the builder calls of the ingester give the key of the event: source, middle part, timestamp |
| StorageKeys.StorageKeyInjective | src/storage.rs:698-762 | two events share a key only if they agree in source, middle part and time |
| StorageKeys.PrefixInjective | src/storage.rs:698-714 | the part of a key before the timestamp determines source and middle part, also for fixed-width parts holding zeros |
| StorageKeys.ParseKeyRoundTrip | src/graphql/export.rs:2183-2194 | parsing a built key gives back its source and time; the query-side reader gives the time |
| StorageKeys.RangeIsExact | src/storage.rs:854-876 | a range between two built bounds holds exactly the events of that source and middle part with time between the bounds |
| StorageKeys.WindowExactness | src/storage.rs:722-757 | the built bounds select start <= t < end if and only if the window is one of those listed in WindowIsExact |
| EventStore.BoundaryIter.constructor | src/storage.rs:834-852 | a new iterator will yield the run from the seek position to the boundary, upwards or downwards |
| EventStore.BoundaryIter.Next | src/storage.rs:854-876 | yields the next entry within the boundary and leaves the rest; none for ever once past it |
| EventStore.ForwardScan | src/storage.rs:854-876 | an upward scan is the slice of the sorted snapshot between the two keys |
| EventStore.BackwardScan | src/storage.rs:854-876 | a downward scan is the same slice reversed |
| EventStore.StatisticsIter.Next | src/storage.rs:777-789 | each poll consumes one entry and answers it if it is readable, nothing if not; so the readable prefix comes before the first nothing |
| EventStore.FilteredIter.Next | src/storage.rs:802-825 | yields the accepted entries of the readable prefix, in order |
| Paging.CollectRecords | src/graphql.rs:315-359 | the loop returns the page specified by Collect, including the look-ahead for more |
| Paging.CollectTakesFirstHits | src/graphql.rs:315-359 | a page of positive size is the first matches; "more" implies it is full and raw records remain, no "more" that it holds every match |
| Paging.PageKeepsToItsSize | src/graphql.rs:348-356 | a page keeps to its size if and only if the size is positive or the first readable record does not match; otherwise it holds every match |
| Paging.GetConnection | src/graphql.rs:161-285 | the method answers all four modes, with their argument and cursor errors, as Connection specifies; the PagingRequests rows say what that is |
| PagingRequests.ForwardPageHolds | src/graphql.rs:209-285 | an accepted forward request, after a cursor or from the start of the range, for a positive number of records, 100 at most and 100 when none is given: the page holds the first that many matches or all of them, never reports a previous page, and reports a next one if and only if that many matches stand in front of the last raw record |
| PagingRequests.BackwardPageHolds | src/graphql.rs:180-265 | the same for a backward request and the last matches, shown oldest first |
| PagingRequests.NoRecordsAskedFor | src/graphql.rs:348-356 | a request for zero records answers none, or every match when the first readable record in reading direction is one |
| PagingRequests.MoreIff | src/graphql.rs:348-356 | the look-ahead reports more if and only if the wanted matches stand in front of the last raw record |
| PagingRequests.RefusedIff | src/graphql.rs:172-265 | a request is refused if and only if it mixes forward and backward arguments, or its cursor is above the closed end (before) or below the start (after) |
| PagingRequests.CursorRefusedIff | src/graphql.rs:183-233 | in times, for any window: a before cursor at t is refused if and only if the end lies in 0..t-1; an after cursor if and only if the start is later, or before the epoch (a start that does not fit in 64 bits refuses all but the largest time) |
| PagingRequests.AfterCursorIsExact | src/graphql.rs:209-243 | what any accepted after cursor selects, an event's key or not, is exactly the answers behind it, in key order |
| PagingRequests.BeforeCursorIsExact | src/graphql.rs:180-208 | what any accepted before cursor selects is exactly the answers in front of it, in key order |
| PagingRequests.AfterPageStaysInWindow | src/graphql.rs:209-243 | every record of an accepted after page, of any size, is an answer behind the cursor |
| Paging.SkipCursorForward | src/graphql.rs:209-243 | a scan from the cursor without the cursor's own entry is what lies after it |
| Paging.SkipCursorBackward | src/graphql.rs:180-208 | the same downwards |
| Paging.ForwardStep | src/graphql.rs:209-285 | a forward page and the page its last key leads to split the matches, and fewer raw records remain |
| Paging.BackwardStep | src/graphql.rs:180-265 | the same for a backward page and its first key |
| Paging.ForwardPagesCoverRaw | src/graphql.rs:209-285 | following the last key to the end: every page but the last is full and together they are the matches |
| Paging.BackwardPagesCoverRaw | src/graphql.rs:180-265 | following the first key, pages put in front: the same |
| Paging.HitsInBoundsAreAnswers | src/graphql.rs:161-285 | the matches in the scanned byte range are the events of this source and kind in the time window, in key order |
| Paging.ForwardPagingIsExact | src/graphql.rs:209-285 | forward paging delivers each event asked for exactly once, in key order |
| Paging.ForwardPagingIsExactIff | src/graphql.rs:209-285 | over all stores, forward paging is exact if and only if the window is one of WindowIsExact |
| Paging.BackwardPagingIsExact | src/graphql.rs:180-265 | backward paging with pages put in front delivers the same list as forward paging |
| Paging.BeforePageStaysInWindow | src/graphql.rs:180-208 | a page before any accepted cursor, of any size, stays in any exact window although the cursor is checked against the closed end |
| NetworkMerge.NetworkConnection | src/graphql/network.rs:1576-1936 | the loop over the lanes returns the page PageOfMerge specifies; an error only for a key too short |
| NetworkMerge.PageHolds | src/graphql/network.rs:1885-1927 | in both directions a page of positive size holds that many records or all there are, one of size zero one if there is any; they are the first of the merge, shown last to first when backward; "next" (forward) or "previous" (backward) if and only if records remain, the other never |
| NetworkMerge.SelectedIsFirstHead | src/graphql/network.rs:1619-1760 | because the sentinel lies outside all 64-bit times, the chosen arm holds a record whenever any lane does, and it is the first head, lowest lane on ties |
| NetworkMerge.ChooseArm | src/graphql/network.rs:1619-1884 | each iteration with a record left picks the lane of the first head |
| NetworkMerge.MergeProjects | src/graphql/network.rs:1619-1884 | every lane comes out of the merge whole and in its own order |
| NetworkMerge.MergeOrdered | src/graphql/network.rs:1619-1884 | the merge is ordered by time, then by lane |
| NetworkMerge.StableMergeUnique | src/graphql/network.rs:1619-1884 | any sequence with these two properties is the merge |
| NetworkMerge.BackwardIsReversedForwardIff | src/graphql/network.rs:1922-1927 | the reversed backward merge is the forward merge if and only if no two lanes hold records of the same time |
| NetworkPaging.MergeOfLaterRecords | src/graphql/network.rs:1306-1330 | cutting every lane at a time and merging is merging and then cutting, in either reading direction |
| NetworkPaging.CursorSkips | src/graphql/network.rs:1115-1121 | at a page break the next page continues exactly behind it, unless the records at the break tie: then the tied ones are lost |
| NetworkPaging.AllSizesBreakCleanlyIff | src/graphql/network.rs:1619-1884 | no page size breaks a tie if and only if no two lanes hold records of the same time |
| NetworkLanes.OpenLane | src/graphql.rs:369-468 | opening one store at a cursor, forward or backward, and skipping a first record that is the cursor leaves exactly the lane specified |
| NetworkLanes.ReachedIff | src/storage.rs:802-825 | the filtering iterator yields every accepted record of a run if and only if none has an unreadable one in front of it |
| NetworkLanes.StoreLaneAfterCursorIff | src/graphql/network.rs:1112-1121 | in either direction the follow-up lane of a store is its first lane behind the cursor's time if and only if no record before the cursor is unreadable, or every accepted record behind the cursor has an unreadable one between the cursor and it |
| NetworkLanes.FollowUpMergeIff | src/graphql/network.rs:1112-1330 | the page behind a cursor is read from the part of the first merge behind the cursor's time if and only if that condition holds in every store |
| NetworkLanes.ResurfacingExample | src/storage.rs:808-824 | a store whose first lane ends before a record that a page after a later cursor shows |
| NetworkClient.ClientProgress | src/graphql/network.rs:1112-1330 | whenever more is reported, forward or backward, the cursor edge is a record behind the cursor and fewer raw records remain behind it: following cursors ends |
| NetworkClient.ClientReceivesAnswersOnce | src/graphql/network.rs:1112-1936 | in an exact window, whatever the stores hold, readable or not, and for every page size and direction, a client that has every store re-opened at each cursor receives only what its stores hold for the query, and each at most once, in strict order of time and lane |
| NetworkClient.ClientPagesAreNetworkPages | src/graphql/network.rs:1112-1330 | where no accepted record has an unreadable one in front of it, the pages of such a client are those of the lanes cut at successive times |
| NetworkClient.MultiStorePagingIff | src/graphql/network.rs:1112-1330 | there, and for one page size and direction, the pages together hold the merge of what each store holds for the query if and only if no page break falls between records of equal time |
| NetworkClient.MultiStorePagingAlwaysIff | src/graphql/network.rs:1112-1936 | for any stores and either direction, every page size yields that whole merge if and only if no accepted record in the range has an unreadable one of its store in front of it and no two stores hold answers of the same time |
| NetworkComplete.StoreLaneShows | src/graphql/network.rs:1112-1121 | a store opened at a cursor shows exactly the matches behind the cursor's time with no unreadable record of the range between, the cursor's time included |
| NetworkComplete.MultiStorePagingExactlyIff | src/graphql/network.rs:1112-1936 | for any stores, readable or not, each page size and either direction: the pages hold the merge of all answers of all stores if and only if every page of that many answers is clean: each answer on it is shown from the one before the page, no tie is split at its end, and when answers are left another of them is shown as well |
| NetworkRequests.GetFilteredIter | src/graphql.rs:369-468 | opens one store as the arguments demand, with the same refusals as a single-store request: its lane without the cursor's record, and the page size |
| NetworkRequests.NetworkRawEvents | src/graphql/network.rs:1096-1330 | the resolver opens every store and merges them: for stores of ingested keys it answers as NetworkAnswer specifies |
| NetworkRequests.NetworkAnswerHolds | src/graphql/network.rs:1096-1330 | an accepted request for a positive number of records, 100 at most and 100 when none is given, holds that many records of the lanes at its cursor or all there are, the first of the merge in reading direction, backward if and only if before or last is given; more is reported if and only if records are left |
| NetworkRequests.RefusedAlike | src/graphql.rs:369-468 | a request over several stores is refused if and only if a single-store request is, with the same message |
| NetworkRequests.OneRecordAtLeast | src/graphql/network.rs:1885-1901 | a request for zero records is answered like one for a single record |
| NetworkRequests.ClientAsks | src/graphql/network.rs:1096-1330 | the pages of the client modelled, for sizes up to 100, are the answers to its requests |
| Statistics.GenStatistics | src/graphql/statistics.rs:131-229 | with a time range one entry per time, latest first, draining the iterators; without one, for any iterators, exhausted ones included, the entry of the latest value first polled, and exactly which iterators are left in which state |
| Statistics.AdvanceChosen | src/graphql/statistics.rs:182-196 | replacing and removing from the highest index down is one pass over both vectors, also when they are not aligned |
| Statistics.CollectTotals | src/graphql/statistics.rs:161-181 | one pass yields the wrapping totals of all values of that time and their positions, ascending |
| Statistics.FindLatest | src/graphql/statistics.rs:150-160 | the last of the latest values |
| Statistics.FullTimes | src/graphql/statistics.rs:147-229 | emitted times strictly decrease and are exactly the times in the lanes |
| Statistics.StatisticsConserved | src/graphql/statistics.rs:161-181 | each (time, allowed kind) total is the sum over all cores of all matching records, modulo 2^64 |
| Statistics.AdvanceAt | src/graphql/statistics.rs:185-196 | what that pass does at every position, also when the vectors are not aligned: a value of another time stays with its iterator, one of that time gives way to the next value of the iterator at its index, or both go |
| Statistics.AdvanceKeepsTail | src/graphql/statistics.rs:185-196 | the iterators past the last value are not touched |
| Statistics.AlignedAdvance | src/graphql/statistics.rs:182-196 | on aligned vectors that pass keeps them aligned and drops exactly the heads of that time |
| Statistics.StatisticsQuery | src/graphql/statistics.rs:68-104 | with a time range every source is answered from its own cores alone; without one each is answered from the iterators left over so far and its own |
| Statistics.LatestLeavesNothingIff | src/graphql/statistics.rs:182-223 | a latest-only call on fresh iterators leaves none for the next source if and only if every core yields one record, all of one time |
| Statistics.CarriedLanesHarmlessIff | src/graphql/statistics.rs:150-181 | left-over values leave the whole latest entry (time, period, totals) as it is if and only if none is later and those of its time mention no new kind and sum to 0 modulo 2^64 |
| Statistics.SourceAnsweredAloneIff | src/graphql/statistics.rs:91-101 | without a time range any source of any query, also one without records, is answered from its own cores if and only if what the sources before it left over is harmless in that sense |
| Statistics.CarriedLaneExample | src/graphql/statistics.rs:91-101 | the answers to a concrete query over two sources, the second of which shows the first one's third record |
| Statistics.Poll | src/storage.rs:777-789 | one poll of the iterator object is one step of the polls the loop is modelled on |
| Statistics.CorePollsAreScanned | src/graphql/statistics.rs:107-129 | the iterator opened for a core of a source polls exactly the records of that source and core between the bounds, latest first, and what it yields strictly descends |
| Statistics.StoreTimes | src/graphql/statistics.rs:89-229 | with a time range the times shown for a source strictly descend and are exactly those for which a core has a record in the range that deserializes, as do all later ones of that core in the range |
| Statistics.StoreStatisticsConserved | src/graphql/statistics.rs:89-229 | with a time range each total shown for a source and time is the sum, modulo 2^64, over all cores of what the store holds for that source, core, time and kind |
| StatisticsAnswers.FullPeriods | src/graphql/statistics.rs:150-160 | each entry shows the period of the last lane that holds its time, and totals all of them |
| StatisticsAnswers.StorePeriods | src/graphql/statistics.rs:89-229 | with a time range each entry shows the period stored in the record of its time of the last core of the source that shows one |
| StatisticsAnswers.LatestOfSource | src/graphql/statistics.rs:131-229 | the latest-only answer from a source's own cores: none if no core shows anything; otherwise one entry of the latest time shown, with the period stored in the record of the last core that shows it and, for each kind, the sum over all cores modulo 2^64 |
| StatisticsExport.ExportStatisticFile | src/graphql/export.rs:2056-2135 | the loop writes the accepted records of repeatedly taking the earliest head of what the two vectors stand for, which need not be in time order; the StatisticsFile rows say what that holds |
| StatisticsFile.DecodedIsReadable | src/graphql/export.rs:2067-2082 | a record of a lane is kept, in its place, if and only if it deserializes, whatever stands before it |
| StatisticsFile.ExportFailsIff | src/graphql/export.rs:2084-2090 | the export fails (index panic) if and only if no lane has a record that deserializes |
| StatisticsFile.FileHolds | src/graphql/export.rs:2056-2135 | the file never holds anything but accepted readable records of the lanes, none more often than it occurs; when every lane has a readable record it holds all of them |
| StatisticsFile.CoreScanIsScanned | src/graphql/export.rs:2004-2022 | the iterator of a core scans exactly the store's records of that source and core between the bounds |
| StatisticsFile.StoreFileHolds | src/graphql/export.rs:1998-2135 | an export writes only accepted readable records of the source's cores in the range, each at most once; if every core with records there has a readable one, it writes all of them |
| StatisticsExport.MinIndex | src/graphql/export.rs:2086-2098 | the first position with the smallest key suffix, for keys of any timestamp |
| StatisticsExport.AdvanceAt | src/graphql/export.rs:2102-2123 | replaces a value by the iterator's next readable one, or removes both entries; either way what the vectors stand for loses exactly that value |
| StatisticsExport.MergeWithoutEmptyLane | src/graphql/export.rs:2115-2120 | removing an exhausted lane does not change the merge of the rest |
| StatisticsExport.AlignedExportMergesAll | src/graphql/export.rs:2064-2129 | when every lane has a readable record the vectors stand for all readable records of all lanes |
| StatisticsExport.MergePermutes | src/graphql/export.rs:2086-2129 | the merge visits every record of its lanes exactly once |
| StatisticsExport.ExportCompleteIff | src/graphql/export.rs:2064-2129 | every readable record is visited exactly once if and only if the lanes past the number of lanes with a readable record hold at most one |
| StatisticsExport.ExportInOrderIff | src/graphql/export.rs:2064-2129 | for cores in time order, the visited records are in time order if and only if no first value is above the next value of the iterator at its index |
| StatisticsExport.ExportMergesAllIff | src/graphql/export.rs:2064-2129 | for cores of distinct records in time order they are the stable merge of all readable records if and only if both conditions hold and no first value is filed before a later record of its time from an earlier core |
| StatisticsExport.ExportMergesAllDistinctIff | src/graphql/export.rs:2064-2129 | with distinct times over all cores: if and only if the conditions for complete and for in order both hold |
| StatisticsExport.CoreScansInOrder | src/graphql/export.rs:1998-2024 | the iterators an export opens on a store are in time order, with keys that end in timestamps |
| StatisticsExport.CoreScansDistinct | src/graphql/export.rs:1998-2024 | and their records are distinct |
| StatisticsExport.ExportLosesRecordExample | src/graphql/export.rs:2067-2089 | an input on which a readable record is never visited |
| StatisticsExport.ExportOutOfOrderExample | src/graphql/export.rs:2067-2089 | an input on which every record is visited, out of time order |
| IngestAck.AcksAreOfAppendedEvents | src/ingest.rs:761-860 | in every interleaving each acknowledgement but channel-done is the time of an appended event |
| IngestAck.ClosesAreAnswered | src/ingest.rs:785-790 | over whole runs a "channel done" acknowledgement is sent exactly as often as such a message finds the receive loop idle |
| IngestAck.CloseIsAnswered | src/ingest.rs:785-790 | after any run a "channel done" message that finds the loop idle is acknowledged next and changes nothing else; one that does not is met within five steps of the loop |
| IngestAck.IncreasingStreamIsCumulative | src/ingest.rs:761-860 | on a strictly increasing stream, ack(t) implies every event with time at most t is appended, also for a stale ack |
| IngestAck.AcknowledgeableIff | src/ingest.rs:763-781 | an event is acknowledged in some interleaving if and only if its time is not 0, or it ends a full rotation behind a place where the counter can be reset |
| IngestAck.CumulativeIff | src/ingest.rs:761-860 | for every stream, acknowledgements are cumulative in every interleaving if and only if no such event is followed by one that is not later |
| IngestAck.CumulativeIffIncreasing | src/ingest.rs:761-860 | without events of time 0 that is: if and only if the stream strictly increases |
| IngestAck.UnacknowledgedWindow | src/ingest.rs:763-781 | counted but unacknowledged events never exceed 2 * 1024 + 1, and the 16-bit counter never wraps |
| IngestAck.WindowIsReached | src/ingest.rs:763-781 | some interleaving reaches that bound on every long enough stream that begins with a time other than 0 |
| IngestAck.RotationBoundIff | src/ingest.rs:763-781 | the plain bound of 1024 holds in every interleaving if and only if every event with more than 1024 others behind it has time 0; without such events, if and only if there are at most 1025 events |
| IngestAck.AcksInOrderIff | src/ingest.rs:761-860 | acknowledgements are sent in stream order in every interleaving if and only if every event before the last one of the last whole rotation has time 0; without such events, if and only if there are fewer than 1024 events |
| Cutover.NothingLostIff | src/publish.rs:710-788 | no interleaving loses an event from the start time on if and only if the start is not negative and the times from it on strictly increase, or the start is negative and there is no such event |
| Cutover.OrderedDeliveryIff | src/publish.rs:721-788 | delivery is in time order in every interleaving if and only if the events of the stream that are not before the epoch are |
| Cutover.OnlyLastScannedRepeats | src/publish.rs:765-775 | for every stream and interleaving, a repeated delivery is one of the last scanned event |
| Cutover.DeliveredFromEpoch | src/publish.rs:721-775 | every event delivered was appended before, and none is before the epoch, whatever the start time |
| Cutover.DistinctDeliveryIff | src/publish.rs:710-788 | no interleaving delivers an event twice if and only if no event lies in the range scanned |
| Cutover.RunKeeps | src/ingest.rs:842-852 | every step keeps the closed form: scan of the snapshot, then the received events not older than the last scanned |
| Cutover.StoredMembers | src/storage.rs:716-720 | the store holds the latest event of each timestamp, in key order |
| Gossip.PeerNode.UpdateToNewPeerList | src/peer.rs:637-667 | the loop learns exactly the unknown entries with another address, queues each once, and rewrites the configuration if and only if something was learned |
| Gossip.StepValid | src/peer.rs:232-316 | every handshake, dropped duplicate and delivery keeps: lists never name the own address, one request per entry, every entry pending or connected, and what a node knows its peers know or will be told |
| Gossip.DuplicateIsDropped | src/peer.rs:406-420 | a request for a peer already connected is dropped and nothing else changes |
| Gossip.NewConnectionExchanges | src/peer.rs:421-472 | any other request connects the two both ways, gives each the other's list, issues one request per new entry, and sends each one's whole new list once to every peer it was connected to; nothing else changes |
| Gossip.DeliveryTeaches | src/peer.rs:637-667 | a delivered list is taken out of flight and its unknown entries are learned, each with one request; nothing else changes |
| Gossip.ConnectedPeersAgree | src/peer.rs:421-472 | with nothing in flight and no request waiting, connected peers hold the same list apart from themselves |
| Gossip.ConnectionIsTransitive | src/peer.rs:421-472 | then every connected component is a clique |
| Gossip.QuiescentNetworkIsJoined | src/peer.rs:258-316 | every run that comes to rest connects exactly the nodes the configured lists join |
| Gossip.ListsOnlyGrow | src/peer.rs:645-654 | peer lists only grow |
| Gossip.OneRequestPerEntry | src/peer.rs:645-654 | in every run each entry was requested exactly once, no list names its own address, and requests are bounded by the pairs of nodes |
| Gossip.RunConfined | src/peer.rs:267-309 | everything known, connected or in flight stays within a component of the configured lists |
| Gossip.RunsAreBounded | src/peer.rs:258-316 | every run is finite, with an explicit bound |
| Gossip.ReachesQuiescence | src/peer.rs:258-316 | every run can be continued to a quiescent network |
| Retention.Database.Retain | src/storage.rs:926-960 | the pass leaves every store without exactly the deleted keys |
| Retention.Database.DeleteExpiredLogs | src/storage.rs:943-959 | the iteration deletes the expired keys at or after the source, and no other |
| Retention.SpanIsExact | src/storage.rs:927-941 | a range deletion removes exactly the source's own events in [61 s, cutoff) |
| Retention.StandardStoreLosesExactly | src/storage.rs:926-941 | with a cutoff not negative, a standard store loses exactly the listed sources' events with 61 s <= t < cutoff, and keeps the others as they are |
| Retention.UnexpiredIsKeptIff | src/storage.rs:921-941 | an unexpired event survives if and only if the cutoff is not negative, its source is not listed, or it is before 61 s |
| Retention.LogStoreLosesExpired | src/storage.rs:943-959 | no expired log record of a listed source survives and no unexpired record is removed |
| Retention.LogRecordSurvivesIff | src/storage.rs:943-959 | a log record survives if and only if it is not expired or its source sorts before every listed one; listed or not makes no difference |
| SourceRegistry.Registry.RefreshTimes | src/ingest.rs:928-939 | the daily tick stores the clock's reading for each connected source in both places |
| SourceRegistry.Registry.Receive | src/ingest.rs:941-967 | a message updates the store, and the map unless it is a reproduction |
| SourceRegistry.RegistryFollowsMessages | src/ingest.rs:926-970 | over whole runs a source is in the map if and only if its latest non-reproduce message was Connected, and the store holds exactly the names it began with and those reported |
| SourceRegistry.TimesFollowEvents | src/ingest.rs:926-970 | over whole runs the time stored for a source is that of the last message about it or the last tick while it was connected, and otherwise the one it began with; the time in the map is that of the last such event that is not a reproduction |
| SourceRegistry.TickKeepsNames | src/ingest.rs:928-939 | a tick changes neither set of names |

## Left out

- QUIC, TLS, certificates, version handshakes, frame I/O, shutdown signals and restarts: library plumbing.
- RocksDB itself: a sorted map with snapshot iterators, point put and delete, and half-open range delete is assumed.
- bincode, base64 cursors, CSV and JSON text, GraphQL objects: a value either deserializes or does not.
- The event filters (`check_address`, `check_port`, `check_contents`, `check_source`): any predicate; a filter that fails counts as a rejection.
- Counting and logging of unreadable records.
- `Peekable` buffering: peeking is a look at the next item of the cursor.
- The sixteen and more typed stores: lanes with one value type.
- A log query without a kind on the kind-keyed log store, which scans between bounds that no log key is built from.
- `collect_exist_timestamp`, `multi_get_from_ts`, `multi_get_with_source`, `process_range_data`: easier relatives of the scans modelled.
- pcap and tcpdump, netflow text, system-monitor conversions, settings and TOML text, HTTP migration.
- `calculate_ps`: floating-point rates over the totals and the period, both of which are in the model.
- The debug-build overflow panic of the statistics sums: the model wraps as release builds do.
- Failing appends, fan-outs, flushes and sends, which end an ingest stream: a run then simply stops, and the properties hold of every prefix.
- Durability: an acknowledgement is sent before the flush (src/ingest.rs:857-859), so the claims say appended.
- Several ingest streams of one source at once, in acknowledgement and in cutover.
- Hog subscribers, IP filters, subscription matching by substring, and replacing an earlier subscription with the same key.
- Peer disconnects and retries, unreachable or mistyped peers, and interleavings inside one handshake; source lists between peers.
- Timing of the acknowledgement interval, retention interval and daily tick: they may happen at any time.
- Failing inserts into the source store, which the program only logs, and what else adds packet connections.
- Cutover of stores with unreadable records: the first one ends the subscription (src/publish.rs:752-755).
- Cursors a client makes up, over several stores: those theorems follow the cursors of pages received, or take any event's time inside the range. PagingRequests takes any cursor.
- NetworkClient.MultiStorePagingIff: takes every accepted record as reached, for one given page size; NetworkComplete.MultiStorePagingExactlyIff needs no such condition.
- StatisticsExport.ExportMergesAllIff: takes the records as distinct, which those of a store are (StatisticsExport.CoreScansDistinct).

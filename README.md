# ViMusic download cache: evictor, work pool and download views

A Dafny model of three small cores of the ViMusic Android player's download
cache, with proofs of what they guarantee.

- **`DownloadEvictor`** (module `Evictor`, `evictor.dfy`) is the cache's LRU evictor.
  - It keeps the evictable cache spans in a set ordered by last touch time.
  - It keeps two byte counters: `currentSize` for the evictable spans and `downloadSize` for the pinned spans.
  - A span is pinned when its song is downloaded, or favourited while "download favourites" is on. Pinned spans never enter the set.
  - `evictCache` removes the oldest span until the budget holds or the set is empty.
  - The model has two layers:
    - Every callback is a function on `EvictorState`, and the lemmas are about those functions.
    - The class `DownloadEvictor` has the source's fields. Each of its methods is proved to change those fields exactly as its function says.
  - The `TreeSet` is a sequence kept strictly ascending in the comparator's order. As in a `TreeSet`, spans the comparator calls equal share one slot.
- **`ParallelDistributor`** (module `Distributor`, `distributor.dfy`) is the claim-cursor work pool.
  - `poolSize` workers start at indices `0 .. poolSize-1`.
  - Each worker then claims further indices from a shared cursor that starts at `poolSize`. The cursor is read and advanced by the synchronized `getNextJob`.
  - Claims are serialized, so a run is modelled as a sequence of atomic steps of arbitrary live workers. `Start` picks each next worker nondeterministically, so its proof covers every interleaving.
  - When `poolSize` is at least 1, `Start` is proved to hand every index of the items to the worker exactly once. With no workers nothing is processed, as `0 until poolSize` launches none.
- **The download views** (module `DownloadInfo`, `download_info.dfy`) are the two SQL views `PlaylistDownloadInfo` and `FavouritesDownloadInfo`.
  - Tables are sequences of rows, and each view is a function of them.
  - The model includes SQL `MAX`, which ignores NULLs, and the NULL row of a `LEFT JOIN`.
  - `FavouritesDownloadInfo` is modelled as written: a join with no join condition (see Findings).

Behaviour of the source that the model keeps as written, with lemmas that show it:
- `onSpanRemoved` subtracts the span's length even when the span is not in the set, for example a pinned span. `currentSize` then drifts below the evictable bytes, and an evictable span can outlast the budget. See `RemovingUntrackedSpanUndercounts` and `PinnedRemovalLetsBudgetSlip`. The most frequent case is a read of pinned content: the touch subtracts the old span's length from `currentSize` and adds the new span's length to `downloadSize` (`TouchOfPinnedDrifts`).
- `downloadSize` is never decreased.
- The budget test compares only `currentSize` with `maxBytes`: pinned bytes do not count against the budget (`PinnedBytesOutsideBudget`). If pinned bytes counted against the budget, the oldest evictable span would be evicted in that scenario; the code does not count them, and the model follows the code.

## Model

| member | source | states |
|---|---|---|
| Evictor.CompareStrings | app/src/main/kotlin/it/vfsfitvnm/vimusic/service/DownloadEvictor.kt:21 | the key comparison used for ties returns -1, 0 or 1 |
| Evictor.CompareStringsZero | app/src/main/kotlin/it/vfsfitvnm/vimusic/service/DownloadEvictor.kt:21 | the key comparison returns 0 exactly for equal keys |
| Evictor.EvictionOrderIsStrictTotal | app/src/main/kotlin/it/vfsfitvnm/vimusic/service/DownloadEvictor.kt:17-25 | the LRU comparator is irreflexive, asymmetric, transitive and total up to spans with the same timestamp, key and position; a smaller last-touch timestamp always comes first |
| Evictor.InsertSpec | app/src/main/kotlin/it/vfsfitvnm/vimusic/service/DownloadEvictor.kt:39 | `TreeSet.add` keeps the set ordered, adds the span when its slot is free and changes nothing when it is taken |
| Evictor.InsertMembers | app/src/main/kotlin/it/vfsfitvnm/vimusic/service/DownloadEvictor.kt:39 | `TreeSet.add` introduces no span other than the added one |
| Evictor.InsertKeepsSorted | app/src/main/kotlin/it/vfsfitvnm/vimusic/service/DownloadEvictor.kt:39 | `TreeSet.add` keeps the set strictly ordered by the comparator |
| Evictor.InsertTakenSlot | app/src/main/kotlin/it/vfsfitvnm/vimusic/service/DownloadEvictor.kt:39 | adding a span whose slot (timestamp, key, position) is already taken leaves the set unchanged |
| Evictor.InsertFreeSlot | app/src/main/kotlin/it/vfsfitvnm/vimusic/service/DownloadEvictor.kt:39 | adding a span whose slot is free adds exactly that span to the multiset of spans |
| Evictor.InsertJoins | app/src/main/kotlin/it/vfsfitvnm/vimusic/service/DownloadEvictor.kt:39 | a span whose slot is free is in the set after it is added |
| Evictor.DeleteSpec | app/src/main/kotlin/it/vfsfitvnm/vimusic/service/DownloadEvictor.kt:46 | `TreeSet.remove` keeps the set ordered, removes exactly the span's slot (no-op when absent), and the set's bytes drop by the removed span's length |
| Evictor.FirstIsOldest | app/src/main/kotlin/it/vfsfitvnm/vimusic/service/DownloadEvictor.kt:69 | `first()` of the ordered set comes before every other span in it |
| Evictor.Evict | app/src/main/kotlin/it/vfsfitvnm/vimusic/service/DownloadEvictor.kt:67-71 | eviction never grows the set, ends with the budget met or the set empty, changes nothing when the budget already holds, and leaves `downloadSize` alone |
| Evictor.EvictLeavesSuffix | app/src/main/kotlin/it/vfsfitvnm/vimusic/service/DownloadEvictor.kt:67-71 | eviction only takes spans off the front: what remains is a suffix of the set |
| Evictor.EvictSubtractsEvicted | app/src/main/kotlin/it/vfsfitvnm/vimusic/service/DownloadEvictor.kt:67-71 | `currentSize` drops by exactly the bytes of the evicted spans |
| Evictor.EvictDropsFewest | app/src/main/kotlin/it/vfsfitvnm/vimusic/service/DownloadEvictor.kt:68-69 | before each removal the budget was still exceeded, so no span is evicted needlessly |
| Evictor.EvictionTakesOldest | app/src/main/kotlin/it/vfsfitvnm/vimusic/service/DownloadEvictor.kt:68-69 | the evicted spans are a prefix of the set and each comes before every span that stays; none when the budget holds |
| Evictor.RemoveFirstIsSpanRemoved | app/src/main/kotlin/it/vfsfitvnm/vimusic/service/DownloadEvictor.kt:45-48 | the callback for the first span removes exactly that one span and its length: one round takes one element off |
| Evictor.EvictKeepsSorted | app/src/main/kotlin/it/vfsfitvnm/vimusic/service/DownloadEvictor.kt:67-71 | eviction keeps the set ordered |
| Evictor.EvictKeepsBudget | app/src/main/kotlin/it/vfsfitvnm/vimusic/service/DownloadEvictor.kt:67-71 | a state within budget (or with an empty set) stays so after eviction |
| Evictor.ExemptSpanSkipsSet | app/src/main/kotlin/it/vfsfitvnm/vimusic/service/DownloadEvictor.kt:31-36 | a pinned span leaves the set and `currentSize` unchanged and adds its length to `downloadSize`; no eviction runs |
| Evictor.AddedSpanKeepsOrder | app/src/main/kotlin/it/vfsfitvnm/vimusic/service/DownloadEvictor.kt:37-42 | adding a span that is not pinned, followed by its eviction, keeps the set ordered |
| Evictor.AddedSpanMeetsBudget | app/src/main/kotlin/it/vfsfitvnm/vimusic/service/DownloadEvictor.kt:37-42 | after a span that is not pinned is added, the eviction leaves the budget met or the set empty, and `downloadSize` is unchanged |
| Evictor.AddedSpanIsTracked | app/src/main/kotlin/it/vfsfitvnm/vimusic/service/DownloadEvictor.kt:37-42 | a span that is not pinned, has a free slot and fits the budget joins the set, its length is added to `currentSize` and nothing is evicted |
| Evictor.RemovedSpanEffect | app/src/main/kotlin/it/vfsfitvnm/vimusic/service/DownloadEvictor.kt:45-48 | removal takes out the span's slot and nothing else, always subtracts its length and leaves `downloadSize` alone |
| Evictor.StartFileMakesRoom | app/src/main/kotlin/it/vfsfitvnm/vimusic/service/DownloadEvictor.kt:61-65 | an unknown length changes nothing; a known one leaves room for `length` bytes or an empty set |
| Evictor.DownloadSizeNeverShrinks | app/src/main/kotlin/it/vfsfitvnm/vimusic/service/DownloadEvictor.kt:28-48 | no callback decreases `downloadSize`; only additions and touches can raise it |
| Evictor.ApplyKeepsInvariant | app/src/main/kotlin/it/vfsfitvnm/vimusic/service/DownloadEvictor.kt:30-71 | every callback keeps the set ordered and within budget (or empty) |
| Evictor.RunKeepsInvariant | app/src/main/kotlin/it/vfsfitvnm/vimusic/service/DownloadEvictor.kt:30-71 | for every stream of callbacks, the set stays ordered, within budget or empty, and `downloadSize` never falls |
| Evictor.AccountingKeptByTrackedEvents | app/src/main/kotlin/it/vfsfitvnm/vimusic/service/DownloadEvictor.kt:30-71 | one callback keeps `currentSize` equal to the bytes in the set when a removal names a span in the set, an addition fills a free slot, and a touch does both in turn |
| Evictor.RunKeepsAccounting | app/src/main/kotlin/it/vfsfitvnm/vimusic/service/DownloadEvictor.kt:30-71 | over every stream of such tracked callbacks, including touches and file starts, `currentSize` stays equal to the bytes in the set |
| Evictor.TouchOfPinnedDrifts | app/src/main/kotlin/it/vfsfitvnm/vimusic/service/DownloadEvictor.kt:45-54 | touching a span that is not in the set, with a pinned new span, leaves the set alone, lowers `currentSize` by the old span's length and raises `downloadSize` by the new one's |
| Evictor.AddKeepsAccounting | app/src/main/kotlin/it/vfsfitvnm/vimusic/service/DownloadEvictor.kt:30-43 | adding a span whose slot is free keeps `currentSize` equal to the bytes in the set |
| Evictor.EvictKeepsAccounting | app/src/main/kotlin/it/vfsfitvnm/vimusic/service/DownloadEvictor.kt:67-71 | eviction keeps `currentSize` equal to the bytes in the set |
| Evictor.RemovingUntrackedSpanUndercounts | app/src/main/kotlin/it/vfsfitvnm/vimusic/service/DownloadEvictor.kt:45-48 | removing a span that is not in the set leaves the set as it is but lowers `currentSize` below its bytes by the span's length |
| Evictor.PinnedRemovalLetsBudgetSlip | app/src/main/kotlin/it/vfsfitvnm/vimusic/service/DownloadEvictor.kt:30-48 | after a pinned 500-byte span is added and removed, a 1500-byte evictable span stays under a 1000-byte budget |
| Evictor.PinnedBytesOutsideBudget | app/src/main/kotlin/it/vfsfitvnm/vimusic/service/DownloadEvictor.kt:30-42 | 900 evictable and 300 pinned bytes under a 1000-byte budget: nothing is evicted |
| Evictor.DownloadEvictor.constructor | app/src/main/kotlin/it/vfsfitvnm/vimusic/service/DownloadEvictor.kt:15-28 | a new evictor has an empty set and both counters at 0 |
| Evictor.DownloadEvictor.OnSpanAdded | app/src/main/kotlin/it/vfsfitvnm/vimusic/service/DownloadEvictor.kt:30-43 | the fields change exactly as `SpanAdded` says; a pinned addition mirrors `downloadSize` into `Downloader.downloadsSize` |
| Evictor.DownloadEvictor.OnSpanRemoved | app/src/main/kotlin/it/vfsfitvnm/vimusic/service/DownloadEvictor.kt:45-48 | the fields change exactly as `SpanRemoved` says |
| Evictor.DownloadEvictor.OnSpanTouched | app/src/main/kotlin/it/vfsfitvnm/vimusic/service/DownloadEvictor.kt:50-54 | a touch has exactly the effect of removing the old span and then adding the new one, re-testing the pin |
| Evictor.DownloadEvictor.RequiresCacheSpanTouches | app/src/main/kotlin/it/vfsfitvnm/vimusic/service/DownloadEvictor.kt:56 | the evictor always asks for touch callbacks |
| Evictor.DownloadEvictor.OnCacheInitialized | app/src/main/kotlin/it/vfsfitvnm/vimusic/service/DownloadEvictor.kt:58-59 | initialisation changes nothing |
| Evictor.DownloadEvictor.OnStartFile | app/src/main/kotlin/it/vfsfitvnm/vimusic/service/DownloadEvictor.kt:61-65 | the fields change exactly as `StartFile` says |
| Evictor.DownloadEvictor.EvictCache | app/src/main/kotlin/it/vfsfitvnm/vimusic/service/DownloadEvictor.kt:67-71 | the loop that removes the first span through the callback ends in exactly the state `Evict` describes, with the set ordered |
| Distributor.ExactlyOnceHasLength | app/src/main/kotlin/it/vfsfitvnm/vimusic/utils/Download.kt:98-119 | a duplicate-free log holding every index below n and nothing else has n entries |
| Distributor.LaunchMakesPool | app/src/main/kotlin/it/vfsfitvnm/vimusic/utils/Download.kt:108-112 | starting worker `i` at index `i` with the cursor at `poolSize` establishes the pool invariant |
| Distributor.ClaimKeepsPool | app/src/main/kotlin/it/vfsfitvnm/vimusic/utils/Download.kt:100-119 | a live worker processing its index and claiming the cursor keeps the pool invariant: disjoint claims, no index processed twice, every index below the cursor processed or held |
| Distributor.ClaimShrinksRemaining | app/src/main/kotlin/it/vfsfitvnm/vimusic/utils/Download.kt:100-106 | each round processes an index not processed before, so the indices still to do strictly shrink and every run ends |
| Distributor.StoppedPoolIsDone | app/src/main/kotlin/it/vfsfitvnm/vimusic/utils/Download.kt:100-114 | once every worker has stopped (and there is one), every index has been processed, exactly once |
| Distributor.ParallelDistributor.constructor | app/src/main/kotlin/it/vfsfitvnm/vimusic/utils/Download.kt:96-98 | the cursor starts at `poolSize` and nothing is processed |
| Distributor.ParallelDistributor.GetNextJob | app/src/main/kotlin/it/vfsfitvnm/vimusic/utils/Download.kt:116-119 | a claim returns the cursor and advances it by exactly one |
| Distributor.ParallelDistributor.Step | app/src/main/kotlin/it/vfsfitvnm/vimusic/utils/Download.kt:101-105 | a live worker processes its current index (below the item count) and holds the claimed one next; the pool invariant (disjoint claims, no index processed twice, every index below the cursor processed or held) is kept |
| Distributor.ParallelDistributor.JobWrapper | app/src/main/kotlin/it/vfsfitvnm/vimusic/utils/Download.kt:100-106 | a worker run alone stops at its first claim past the items; it processes its current index and then the claimed indices `old(index) ..` except the last, ends holding that last claim, leaves the other workers' indices alone and keeps the invariant; a worker already past the items does nothing |
| Distributor.ParallelDistributor.Launch | app/src/main/kotlin/it/vfsfitvnm/vimusic/utils/Download.kt:108-114 | `0 until poolSize` launches `poolSize` workers (none when `poolSize` is not positive), worker `i` at index `i`, which establishes the pool invariant |
| Distributor.ParallelDistributor.Start | app/src/main/kotlin/it/vfsfitvnm/vimusic/utils/Download.kt:98-119 | over every interleaving, each index of the items is processed exactly once, so each item is handed to the worker at exactly one position of the log, and the cursor ends at `poolSize + items.size`; with no workers or no items nothing is processed |
| DownloadInfo.MaxOf | app/src/main/kotlin/it/vfsfitvnm/vimusic/models/PlaylistDownloadInfo.kt:7 | `MAX` is NULL exactly when every value is NULL; otherwise it is a value of the column and no non-NULL value exceeds it |
| DownloadInfo.MaxOfDependsOnValues | app/src/main/kotlin/it/vfsfitvnm/vimusic/models/PlaylistDownloadInfo.kt:7 | `MAX` depends only on which values occur, not on multiplicity or order |
| DownloadInfo.ContentLengths | app/src/main/kotlin/it/vfsfitvnm/vimusic/models/PlaylistDownloadInfo.kt:8 | the lengths that match a song are exactly its Format rows' lengths |
| DownloadInfo.PlaylistsWithId | app/src/main/kotlin/it/vfsfitvnm/vimusic/models/PlaylistDownloadInfo.kt:9 | the join with Playlist keeps exactly the playlists with the map row's id |
| DownloadInfo.Spread | app/src/main/kotlin/it/vfsfitvnm/vimusic/models/PlaylistDownloadInfo.kt:9 | one length of a song joined with each playlist gives one row per playlist's `download` value |
| DownloadInfo.Pair | app/src/main/kotlin/it/vfsfitvnm/vimusic/models/PlaylistDownloadInfo.kt:8-9 | a map row joins each of its lengths with each of its playlists |
| DownloadInfo.WhereDownload | app/src/main/kotlin/it/vfsfitvnm/vimusic/models/PlaylistDownloadInfo.kt:10 | the filter keeps exactly the rows with `download = 1` |
| DownloadInfo.GroupKeys | app/src/main/kotlin/it/vfsfitvnm/vimusic/models/PlaylistDownloadInfo.kt:11 | the groups are the song ids that occur, each once |
| DownloadInfo.GroupColumn | app/src/main/kotlin/it/vfsfitvnm/vimusic/models/PlaylistDownloadInfo.kt:11 | a group's column holds exactly the lengths of that song's rows |
| DownloadInfo.PlaylistDownloadInfo | app/src/main/kotlin/it/vfsfitvnm/vimusic/models/PlaylistDownloadInfo.kt:5-13 | the view has at most one row per song |
| DownloadInfo.JoinRowsMembers | app/src/main/kotlin/it/vfsfitvnm/vimusic/models/PlaylistDownloadInfo.kt:7-9 | a row is in the join exactly when a map row of its song joins a playlist with its `download` value and its length is one of the song's left-joined lengths |
| DownloadInfo.GroupColumnOfView | app/src/main/kotlin/it/vfsfitvnm/vimusic/models/PlaylistDownloadInfo.kt:8-11 | after the filter, a qualifying song's group holds exactly its left-joined lengths |
| DownloadInfo.PlaylistViewListsDownloaded | app/src/main/kotlin/it/vfsfitvnm/vimusic/models/PlaylistDownloadInfo.kt:7-11 | every song in a playlist with `download = 1` is listed |
| DownloadInfo.PlaylistViewListsOnlyDownloaded | app/src/main/kotlin/it/vfsfitvnm/vimusic/models/PlaylistDownloadInfo.kt:7-11 | every listed song is in a playlist with `download = 1` |
| DownloadInfo.PlaylistViewContentLength | app/src/main/kotlin/it/vfsfitvnm/vimusic/models/PlaylistDownloadInfo.kt:7-8 | a listed song's length is the maximum over its Format rows, whatever its playlist memberships |
| DownloadInfo.MaxContentLengthMeaning | app/src/main/kotlin/it/vfsfitvnm/vimusic/models/PlaylistDownloadInfo.kt:7-8 | that maximum is NULL exactly when all the song's Format lengths are NULL (or it has none), else it is the largest of them |
| DownloadInfo.PlaylistViewOfOneSong | app/src/main/kotlin/it/vfsfitvnm/vimusic/models/PlaylistDownloadInfo.kt:9-11 | map rows for one song, however many and whatever their playlists, give exactly one row when one playlist is marked |
| DownloadInfo.OneSongView | app/src/main/kotlin/it/vfsfitvnm/vimusic/models/PlaylistDownloadInfo.kt:5-13 | map rows for one song in a marked playlist give exactly that song, with the maximum of its Format lengths |
| DownloadInfo.MixedPlaylistsListOnce | app/src/main/kotlin/it/vfsfitvnm/vimusic/models/PlaylistDownloadInfo.kt:5-13 | a song in a marked and an unmarked playlist, with lengths 10, NULL and 30, is listed once with 30 |
| DownloadInfo.Liked | app/src/main/kotlin/it/vfsfitvnm/vimusic/models/PlaylistDownloadInfo.kt:21 | the filter keeps exactly the songs whose `likedAt` is not NULL |
| DownloadInfo.Infos | app/src/main/kotlin/it/vfsfitvnm/vimusic/models/PlaylistDownloadInfo.kt:21 | one `(songId, contentLength)` row per Format row |
| DownloadInfo.FavouritesSize | app/src/main/kotlin/it/vfsfitvnm/vimusic/models/PlaylistDownloadInfo.kt:19-23 | as written, the view has one row per pair of a Format row and a liked Song row |
| DownloadInfo.FavouritesMembers | app/src/main/kotlin/it/vfsfitvnm/vimusic/models/PlaylistDownloadInfo.kt:19-23 | as written, the view lists every Format row once any song is liked, and nothing when none is |
| DownloadInfo.FormatsOf | app/src/main/kotlin/it/vfsfitvnm/vimusic/models/PlaylistDownloadInfo.kt:21 | the rows for one song are exactly its Format rows |
| DownloadInfo.FavouritesJoinedMembers | app/src/main/kotlin/it/vfsfitvnm/vimusic/models/PlaylistDownloadInfo.kt:21 | the view with its join condition lists exactly the Format rows of liked songs |
| DownloadInfo.FavouritesListsUnlikedSongs | app/src/main/kotlin/it/vfsfitvnm/vimusic/models/PlaylistDownloadInfo.kt:21 | with song "a" liked and one Format row for the unliked song "b", the view as written lists "b" and the joined view is empty |

## Left out

- `Downloader.kt` is not part of this model: its download-manager setup, notifications, network lookups and player queries are platform glue. Only its `downloadsSize` field appears, as the class `Downloader`.
- `processVideoRequest` and `downloadParallel` in `Download.kt`: network resolution, cache writing and database inserts, with no decision logic of the core.
- Coroutines and threads: `start` runs its workers concurrently, but because `getNextJob` is synchronized, the model runs them as interleaved atomic steps. Suspension and cancellation are not modelled.
- Distributor.ParallelDistributor.Start: exactly-once holds only when `worker` never throws. In the source a throw (for example an I/O error while caching a song) fails its `launch`; `coroutineScope` then cancels the other workers and `start` rethrows, leaving some indices unprocessed. The model has no failing worker.
- Order of the log: `processed` records each worker call together with the claim that follows it, so it is in claim order, which can differ from the order in which the calls began.
- 32-bit `Int` arithmetic in `Download.kt`: the cursor `index` and `poolSize` (default 10) are unbounded integers in the model, so an overflow of the cursor past 2^31 - 1 claims is not modelled.
- The worker callback is not modelled; calling it is recorded as appending the index to `processed`.
- The database and preference reads of the pin test are passed in as `Pins` (downloaded keys, favourited keys, the flag) at each callback.
- `Log.d` calls are left out.
- `CacheSpan.compareTo` is not part of this model. Ties on the timestamp use key, compared by code point (character by character, a proper prefix first), then position. Java's `String.compareTo` compares UTF-16 code units, which orders keys with characters above U+FFFF differently; any fixed total order serves the evictor.
- `Cache.removeSpan` is not part of this model. Each eviction round calls `OnSpanRemoved` on the first span, as the cache does synchronously.
- The cache parameter of the callbacks is left out, because its only use is that callback.
- 64-bit `Long` arithmetic: counters and timestamps are unbounded integers, so overflow and the wrap of the timestamp difference are not modelled.
- Row order of the views: SQL leaves it open. The model emits groups in order of first appearance and joins in nested-loop order. The lemmas state only order-free facts, except the concrete one-row examples.
- The Playlist, Format and Song table definitions are not part of this model. `download` is taken as a plain integer column and `contentLength` as a nullable integer, with no constraint on how many Format rows a song has.
- SQLite's type affinity and Room's annotations are left out.

## Findings

| source | as written | input that shows it | evidently intended | confidence | as-written member | corrected member |
|---|---|---|---|---|---|---|
| app/src/main/kotlin/it/vfsfitvnm/vimusic/models/PlaylistDownloadInfo.kt:21 | `Song JOIN Format` has no join condition, so it is a cross join: every Format row, of any song, once per liked song | one liked song "a", one unliked song "b", one Format row for "b": the view lists "b" | `JOIN Format ON Song.id = Format.songId`: the Format rows of the liked songs | high; not executed | DownloadInfo.FavouritesListsUnlikedSongs | DownloadInfo.FavouritesJoinedMembers |

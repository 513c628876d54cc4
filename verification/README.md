# SeeSize: verified model

SeeSize is a small monitoring system. An agent on each host scans directories, reads network counters and uploads
what it finds; a hub stores it in SQLite, shows it, expires it, and manages device credentials; scripts install and
update the agent; a backup command copies the hub's database. This project models the parts in which state changes
step by step and proves what they keep.

`dafny verify dfyconfig.toml` checks everything.

| module | models |
|---|---|
| `ScanTree`, `DiskScan` | the bounded directory walk and its callback; a scan against the tree's recursive sums |
| `Paths`, `Snapshots`, `Ordering` | path text, the exchanged records, sorting |
| `DiskCompare` | the comparison of two snapshots and the growth alerts |
| `HubDb`, `SqliteStore` | the hub's tables, what each transaction does to them, and the handlers as methods |
| `HubRuns` | every interleaving of credentials, deletions, cleanups, and requests authorised and written in separate steps |
| `Credentials` | who may speak for a device, what is stored and what stays, told from the actions of a run |
| `EventLog`, `EventSpans` | the growth log under any upload order, and its intervals under deletions and cleanups |
| `DiskPage` | the alerts that the disk page recomputes, against the log |
| `SampleRuns` | concrete runs of the hub in which page and log differ, or intervals overlap |
| `EventPaging`, `Retention` | cursor paging, the batched sweep |
| `Trend`, `TrendMerge` | the 360-bucket aggregation, and how trends of different ranges agree |
| `Network` | interface rates with resetting baselines |
| `Auth` | the login throttle and the session table |
| `AgentUpdate` | the update of an installed agent, with an exception or a crash at any step |
| `BackupNames`, `Backup` | timestamped names, and rotation by them |
| `DiskTree` | the directory tree of the web page |

Classes and methods carry the state the program updates in place; each method's `ensures` ties the new state to a
function or predicate of the old one, and the lemmas are about those.

## What the model assumes

Times are integers (nanoseconds) and rates are real numbers. Byte totals are unbounded. A SQL transaction is one step, because the
store has one connection (internal/hub/sqlite_store.go:35-37). SHA-256 is a free constructor, so equal digests mean
equal texts; codes and tokens are parameters, fresh where a lemma says so. Cancellation, read errors, the order of
directory entries, the clock, failing steps and map iteration order are inputs or nondeterministic choices.

## Findings

- A scan of `/` that meets `proc`, `sys` or `dev` counts them as skipped, so it is never complete, never compared and
  never alerts (`DiskScan.SlashScanIsPartial`; `DiskScan.ProcRootIsPartial` is a tree with nothing unreadable in it).
- Revoking an id that has a code but has not registered answers "not found" and leaves the code usable
  (`HubRuns.RevokingKeepsUnregisteredCode`; `HubRuns.RevokedCodeIsRedeemed` is such a run).
- From the arrival of a newest snapshot on, the alerts that the disk page recomputes are the logged events that end at
  it if and only if there was a snapshot before and none has come in between since, or neither side has any
  (`DiskPage.RecomputedAlertsAgree`). A late upload in between hides alerts that are logged
  (`SampleRuns.LateUploadHidesAlerts`), and an older snapshot uploaded after the newest shows alerts that never were
  logged (`SampleRuns.BackwardUploadShowsUnloggedAlert`).
- Logged intervals of a device and root never overlap, whatever is deleted, as long as each cleanup that takes a snapshot
  takes the events that end at it (`EventSpans.IntervalsAreDisjoint`). A batch with room for all expired events does
  (`EventSpans.BatchKeepsPace`); a batch with one expired event too many can leave that event behind, and a late upload
  before the next batch then logs an interval that overlaps it (`SampleRuns.OverrunOverlaps`).
- The window of twenty attempts a minute lets at most 39 pass in any half-open minute, and 39 is reached
  (`Auth.AtMost39`, `Auth.Reaches39`).
- `Create` can delete the backup it has just made and still report success: exactly when at least `keep` backups carry
  later times, which takes a clock that went back (`Backup.TargetSurvives`; `Backup.ClockWentBack` is such a folder).

## Model

| member | source | states |
|---|---|---|
| Paths.RenderDepth | internal/disk/scan.go:101 | The depth test on path text counts path components. |
| Paths.RenderParent | internal/hub/web/index.html:184-185 | Cutting the text of a path at its last "/" (or taking "." when there is none) is dropping its last component. |
| Paths.RenderInjective | internal/disk/scan.go:131-133 | Different relative paths have different texts, so a snapshot never merges two directories. |
| ScanTree.TraceTotal | internal/disk/scan.go:146-180 | The bytes an unstopped walk without skips counts below its start are the recursive sum of the tree; entries likewise. |
| ScanTree.SubtreeSum | internal/disk/scan.go:114-121 | For any directory of a clean tree, the bytes counted beneath its path are its own recursive sum, whatever the child order. |
| ScanTree.CleanTrace | internal/disk/scan.go:92-99 | A walk skips nothing exactly when the tree is clean: readable, without links, nothing excluded, nesting below 128. |
| ScanTree.EntersDirectories | internal/disk/scan.go:100-105 | A clean walk enters exactly the directories of the tree. |
| ScanTree.AncestorHoldsMore | internal/disk/scan.go:114-121 | After any visits at all, a path holds at least the bytes of every path below it. |
| DiskScan.SpreadMeans | internal/disk/scan.go:114-121 | The parent-chain loop adds a file's size to each displayed ancestor once and to nothing else. |
| DiskScan.TallySizes | internal/disk/scan.go:55-122 | After any prefix of the walk the size map lists exactly the root and the entered directories within the depth, each with the sum of the files visited beneath it. |
| DiskScan.Scanner.AddToAncestors | internal/disk/scan.go:114-121 | The in-place loop over parents does to the size map what the specification of one file says. |
| DiskScan.Scanner.CountEntry | internal/disk/scan.go:81-86 | Entries never exceed the limit; stopping there means one more entry existed. |
| DiskScan.Scanner.Visit | internal/disk/scan.go:58-123 | Each callback either adds exactly its own step to the record or stops with a reason; only excluded directories ask to be skipped. |
| DiskScan.Scanner.WalkList | internal/disk/scan.go:156-181 | Opening, reading in batches of 64 and failing to read together produce the directory's part of the trace, or stop. |
| DiskScan.Scanner.Walk | internal/disk/scan.go:146-181 | The recursive, batched walk visits the tree's trace in order, or stops at a prefix of it. |
| DiskScan.ListNodes | internal/disk/scan.go:131-134 | However the size map is ranged over, the nodes are one per entry, with distinct paths, sorted. |
| DiskScan.ScanRate | internal/disk/scan.go:39-136 | Which arguments are refused; and every returned snapshot, complete or stopped anywhere, is explained by a prefix of the walk: entries within the limit, sizes of the visited files, complete exactly when there is no reason, and the right reason; every visit was polled for, and none comes after the cancellation. |
| DiskScan.CompleteMeans | internal/disk/scan.go:127-130 | A scan of a directory is complete if and only if the tree is clean, within the entry limit, and the context was not cancelled before its last poll. |
| DiskScan.CompleteExactly | internal/disk/scan.go:96-130 | The same without the list of excluded names: complete if and only if everything is readable and free of links, within the limit and not cancelled, and, for "/" only, nothing is at proc, sys or dev. |
| DiskScan.CompleteListsTree | internal/disk/scan.go:58-134 | A complete scan lists exactly the directories of at most d components, each with its recursive byte sum. |
| DiskScan.RootTotalIgnoresDepth | internal/disk/scan.go:114-121 | Complete scans of one tree at different depths report the same root total. |
| DiskScan.PartialNeverExceeds | internal/disk/scan.go:58-135 | Wherever a scan stopped, no node is above its directory's true sum or below any node beneath it. |
| DiskScan.SlashScanIsPartial | internal/disk/scan.go:96-99 | A scan of "/" in which proc, sys or dev exists is never complete. |
| DiskScan.NothingBelowHidden | internal/disk/scan.go:96-99 | Wherever it stops, a scan of "/" visits nothing below proc, sys and dev. |
| DiskScan.ProcRootIsPartial | internal/disk/scan.go:96-99 | A tree with an empty, readable proc directory, and the partial snapshot that scanning it from "/" gives. |
| DiskCompare.Compare | internal/disk/scan.go:191-214 | Refuses exactly incomparable snapshots; otherwise a sorted arrangement of one entry per path of either. |
| DiskCompare.CompareIsDetermined | internal/disk/scan.go:204-212 | The result does not depend on map iteration order or on the sorting of ties. |
| DiskCompare.CompareCoversBoth | internal/disk/scan.go:199-206 | There is an entry for every path of either snapshot and no other, once, with new minus old and 0 for absent. |
| DiskCompare.SwapNegates | internal/disk/scan.go:191-214 | Swapping the snapshots negates every delta. |
| DiskCompare.DeltasTelescope | internal/disk/scan.go:191-214 | Along a chain of comparable snapshots the deltas of a path add up to last minus first. |
| DiskCompare.GrowthAlerts | internal/disk/schedule.go:35-50 | The alerts are the specified growth, and empty without a threshold, without advance in time, or between incomparable snapshots. |
| DiskCompare.AlertsArePrefix | internal/disk/schedule.go:44-48 | Since changes are sorted by delta, the alerts are a prefix of them: all of at least the threshold, none below. |
| DiskCompare.GrowthExactly | internal/disk/schedule.go:35-50 | A path has an alert if and only if there is a threshold, time has advanced, both scans are complete, of one root and depth, and the path has grown by the threshold or more; its alert says by how much, from when to when. |
| SqliteStore.SQLiteStore.RegisterDevice | internal/hub/devices.go:51-81 | Registers exactly with the id's unexpired code: the code goes, the credential is set, the tombstone is lifted; otherwise nothing changes. |
| SqliteStore.SQLiteStore.DeleteDevice | internal/hub/device_delete.go:23-70 | Succeeds exactly for a confirmed, revoked, not yet deleted device; removes its rows from five tables behind a tombstone, and counts them per table. |
| SqliteStore.DeletionCounts | internal/hub/device_delete.go:53-65 | The reported counts are what each table of the history lost. |
| SqliteStore.SQLiteStore.SaveSnapshot | internal/hub/events.go:30-75 | Snapshot and events together: nothing for a deleted device, nothing for a repeated time, events only for a new latest time. |
| SqliteStore.SQLiteStore.UploadSnapshot | internal/hub/disk.go:93-116 | Accepts exactly authorised, unduplicated, non-negative nodes of a device that is not deleted, and then changes what the write changes; the answer is 401 exactly when neither the device's own unrevoked token nor, for a device without a row, the shared token is shown. |
| SqliteStore.ValidNodesMeans | internal/hub/disk.go:97-103 | The node checks: no negative size, no empty path, no path that came before. |
| SqliteStore.SQLiteStore.DiskSnapshots | internal/hub/disk.go:25-45 | Returns the newest and second newest snapshot of the root that was scanned last. |
| SqliteStore.SQLiteStore.ShowDisk | internal/hub/disk.go:124-135 | Shows the newest and second newest snapshot of the root scanned last, two exactly when two are stored, with the comparison and the alerts between these two. |
| SqliteStore.SQLiteStore.CleanupBatch | internal/hub/retention.go:17-56 | Removes up to a batch of the oldest expired rows of each of three tables, atomically, and reports their numbers. |
| SqliteStore.SelectOldest | internal/hub/retention.go:28 | Picks rows older than the cutoff, oldest first, all of them when they fit into the batch. |
| HubRuns.TombstonesHoldInEveryRun | internal/hub/device_delete.go:48-66 | In every interleaving, also with writes authorised before a deletion and made after it, a tombstoned id has a revoked row and no history, and every sample has its server. |
| HubRuns.DeletedStaysGone | internal/hub/events.go:40-46 | After a deletion the id stays without history until a code is redeemed for it. |
| HubRuns.CodeOrigin | internal/hub/devices.go:26-28 | A waiting code was issued for this very id with this expiry, and nothing has ended its life since. |
| HubRuns.RedeemedAsIssued | internal/hub/devices.go:57-66 | A redeemed code was issued for that id less than ten minutes before, with no newer code, redemption, revocation of the registered device or deletion in between. |
| HubRuns.RedeemedOnce | internal/hub/devices.go:57-80 | With fresh codes, a code is redeemed at most once and for one id. |
| HubRuns.RevokingKeepsUnregisteredCode | internal/hub/devices.go:123-136 | A redeemable code survives a revocation if and only if its id has not registered, since the transaction then stops before the code is deleted; a registered id has no credential afterwards. |
| HubRuns.RevokedCodeIsRedeemed | internal/hub/devices.go:128-133 | From empty tables: a code is issued, its id revoked, and the code then redeemed for a working credential. |
| HubRuns.DeviceRowsStay | internal/hub/devices.go:68 | No step removes a device row. |
| HubRuns.SharedTokenRefused | internal/hub/devices.go:143-170 | Once an id has registered, in every later state exactly its own unrevoked credential is accepted for it. |
| Credentials.AdmittedExactly | internal/hub/devices.go:143-170 | In every run, a heartbeat or upload is admitted if and only if its bearer is the token of the device's latest redemption, not revoked since, or the shared token with no code ever redeemed for the device. |
| Credentials.SpeaksExactly | internal/hub/devices.go:143-170 | What the device's row says to an upload is that statement about the actions. |
| Credentials.InflightOrigin | internal/hub/disk.go:93-96 | Every request that gets to be written was admitted for a bearer who might speak for its device. |
| Credentials.RevokedIsRefused | internal/hub/devices.go:123 | A registered device that was revoked is refused, whatever the bearer, until a code is redeemed for it again. |
| Credentials.RedeemedExactly | internal/hub/devices.go:45-71 | A redemption succeeds if and only if its code was issued for that id less than ten minutes before, nothing ended its life since, it has 64 characters, and the token is nobody else's. |
| Credentials.FreshRedemption | internal/hub/devices.go:24-71 | With fresh codes and tokens issuing always succeeds, and a redemption exactly for a code so issued. |
| Credentials.CredentialsAreUnique | internal/hub/sqlite_store.go:49-50 | In every run no two devices have the same token and no two wait with the same code. |
| Credentials.TombstoneOrigin | internal/hub/device_delete.go:49 | A tombstone goes back to a deletion, with no redemption for the device since. |
| Credentials.WholeLifeEndsDeleted | internal/hub/device_delete.go:23-70 | From empty tables: a device is enrolled, registered, revoked and deleted, and then has a tombstone. |
| Credentials.OthersKeepTheirRows | internal/hub/device_delete.go:53-57 | No step but a cleanup changes a row of any table that belongs to another device than the one it is about. |
| Credentials.SampleOrigin | internal/hub/sqlite_store.go:118-122 | A stored sample is what the latest heartbeat for its time reported, and no heartbeat, deletion or cleanup has touched it since. |
| Credentials.SampleStays | internal/hub/sqlite_store.go:118-122 | And the other way round: what a heartbeat wrote is there, under the time it reported, until one of these. |
| Credentials.LastSeen | internal/hub/sqlite_store.go:107-114 | A listed device was last seen when its latest heartbeat was written. |
| EventLog.LogIsGrowthAlongMaxima | internal/hub/events.go:28-75 | For every run whose cleanups and deletions take nothing of the device and root, any upload order and repeats, the log is the growth between consecutive strict prefix maxima of the upload times. |
| EventLog.AllAlertsBecomeRows | internal/hub/events.go:67-72 | The uniqueness constraint never drops an alert of a new latest snapshot: each becomes one row with the next id. |
| EventSpans.IntervalsAreDisjoint | internal/hub/events.go:66-73 | In every run, with deletions and with cleanups that keep pace, logged events of a device and root have proper intervals ending at stored snapshots, and any two intervals are equal or do not overlap. |
| EventSpans.EveryAlertIsLogged | internal/hub/events.go:66-73 | In every such run, an upload newer than the newest stored becomes exactly one row per alert: the uniqueness constraint drops none. |
| EventSpans.NoEventTwice | internal/hub/sqlite_store.go:51 | In every run, also where intervals overlap, no two events have the same device, root, path and end. |
| EventSpans.BatchKeepsPace | internal/hub/retention.go:22-47 | A batch with room for all expired events keeps pace for every device and root: the events that end at a removed snapshot go with it. |
| EventSpans.UndisturbedIsInPace | internal/hub/retention.go:36-44 | So do cleanups that take nothing of the device and root. |
| DiskPage.RecomputedAlertsAgree | internal/hub/disk.go:132-135 | In any run, once an upload newer than every stored one has arrived, and until its device is deleted, a cleanup takes it or the snapshot before it or its events, or a newer one arrives: the alerts recomputed for the page are the stored events that end at it if and only if there was a snapshot before and none has come in between since, or there are none on either side. |
| DiskPage.NewestFindsNoEvents | internal/hub/events.go:66-73 | In a run whose cleanups keep pace, every upload newer than the stored ones finds no event at its time, so it is such an arrival. |
| DiskPage.AgreeFromTheStart | internal/hub/disk.go:132-135 | The same over whole runs that take nothing of the device and root, in terms of the order of arrivals. |
| DiskPage.SameAlertsWhenSettled | internal/hub/events.go:49-67 | The same for the tables: no row lies between the two snapshots compared on arrival, or neither comparison gives an alert. |
| DiskPage.SameAlerts | internal/hub/events.go:49-67 | For tables that hold given arrivals: page and arrival compared the same two snapshots, or neither comparison gives an alert. |
| DiskPage.LastGrowth | internal/hub/events.go:66-72 | The logged entries that end at the last prefix maximum are the growth since the one before it. |
| SampleRuns.LateUploadHidesAlerts | internal/hub/disk.go:132-135 | After a run of three uploads from empty tables, the middle one last, the log holds the event and the page shows none. |
| SampleRuns.BackwardUploadShowsUnloggedAlert | internal/hub/events.go:66 | After a run of two uploads, the newer one first, the page shows an alert that is not in the log. |
| SampleRuns.OverrunOverlaps | internal/hub/retention.go:36-44 | For every batch size from 2 on, a run with one more expired event than the batch takes, after whose cleanup and two more uploads two logged intervals overlap. |
| EventPaging.ListEvents | internal/hub/events.go:90-131 | A page holds the newest hundred matching events in descending order; the cursor is 0 exactly when nothing is left below. |
| EventPaging.StepEvolves | internal/hub/sqlite_store.go:51 | Whatever the hub does, rows stay ordered by id and new rows get ids above all ever given. |
| EventPaging.SessionDescends | internal/hub/events.go:126-131 | Over all pages of a session ids strictly decrease, so nothing is shown twice. |
| EventPaging.SessionEnds | internal/hub/events.go:127-130 | Every page that is not the last uses up a hundred ids, so following cursors terminates. |
| EventPaging.SessionIsComplete | internal/hub/events.go:90-131 | Whatever is inserted or removed between pages, an event that is there throughout is shown exactly once. |
| EventPaging.LaterPagesShowNothingNew | internal/hub/events.go:99 | Along any run of the hub, pages after the first never show an event added after the session began. |
| Retention.Sweep | internal/hub/retention.go:65-87 | Batches follow each other until one is short in all tables, a batch fails or time runs out; the totals are those of the batches. |
| Retention.FinishedLeavesNothingOld | internal/hub/retention.go:74-77 | With any writes between batches, a sweep that ends normally leaves nothing older than its last cutoff. |
| Retention.RecentRowsStay | internal/hub/retention.go:28-48 | A row that is not older than any later cutoff survives the sweep. |
| Retention.QuietTotals | internal/hub/retention.go:70-73 | Without writes in between, the totals equal the number of expired rows that are gone, table by table. |
| Retention.QuietSweepEnds | internal/hub/retention.go:68-77 | Every batch but the last takes at least a thousand expired rows, so the loop ends. |
| Retention.QuietSweepIsOneShot | internal/hub/retention.go:65-87 | With a fixed cutoff and no writes, the batched sweep leaves exactly what one deletion of everything older would leave, and reports exactly that. |
| Trend.FillBuckets | internal/hub/trend.go:32-85 | After the row loop, each bucket of the array holds the summary of the rows in its interval. |
| Trend.Aggregate | internal/hub/trend.go:30-96 | The points are the finished summaries of the non-empty buckets, in order. |
| Trend.QueryWindow | internal/hub/trend.go:33 | The query yields the device's samples of the half-open window, each once, by ascending time. |
| Trend.OneWindow | internal/hub/trend.go:33 | A window query has exactly one result. |
| Trend.Trend | internal/hub/trend.go:29-98 | Straight from the stored samples: one point per step with samples, ascending, and no other; count times average is the sum of the samples' CPU percentages, memory and disk shares, and rates, each peak the highest of 0 and these, the network unavailable exactly for a sample without usable rates or two of different scope; first and last are the times of the window's first and last sample. |
| Trend.PointsAnswer | internal/hub/trend.go:55-96 | The same of the points of any rows that the query may yield. |
| Trend.PastWindows | internal/hub/trend.go:113-130 | Which past windows are answered: half hours ending up to five and a half hours back, hours up to eleven, days not at all. |
| Trend.SummarizeConcat | internal/hub/trend.go:62-84 | The summary of two consecutive groups of rows is the merge of their summaries. |
| Trend.SumsMean | internal/hub/trend.go:79-80 | The count is the number of rows and each sum is the sum of the rows' values. |
| Trend.PeaksMean | internal/hub/trend.go:81-83 | Each peak is the maximum of 0 and the rows' values, and is reached. |
| Trend.NetworkMeans | internal/hub/trend.go:62-69 | The network is unavailable if and only if some row is flagged or two rows differ in scope. |
| Trend.LandsOnce | internal/hub/trend.go:55-58 | In a window of 360 steps every sample lands in exactly one bucket, whose interval contains it. |
| Trend.LeftOutExactly | internal/hub/trend.go:30-58 | The points count every sample of the window if and only if none lies behind the last whole step, which is the end of the window exactly when it is a multiple of 360. |
| Trend.CountsAddUp | internal/hub/trend.go:71 | Bucket counts add up to the number of samples in the buckets' span. |
| Trend.PointsAscend | internal/hub/trend.go:89-96 | Points are strictly ascending in time and none is empty. |
| TrendMerge.DayMergesHour | internal/hub/trend.go:29-106 | For the rows of the two queries: each of the last 15 intervals of the 24h trend shows the join of the points that the 1h trend with the same end shows there, whichever of its 24 buckets are empty. |
| TrendMerge.HourMergesHalfHour | internal/hub/trend.go:29-106 | For the rows of the two queries: each of the last 180 intervals of the 1h trend shows the join of what the 30m trend shows in its two buckets. |
| TrendMerge.TrendsMerge | internal/hub/trend.go:29-98 | The same for any two windows with one end in which a bucket of the longer covers whole buckets of the shorter. |
| TrendMerge.SubWindow | internal/hub/trend.go:33 | The rows of the shorter query are the window of the longer query's rows. |
| TrendMerge.RangeIsShown | internal/hub/trend.go:89-96 | Any range of buckets, empty ones included, is shown as one point: the join of the points in it, or none. |
| TrendMerge.JoinAverages | internal/hub/trend.go:71-93 | A join adds counts, and its average times its count is the sum of average times count. |
| TrendMerge.JoinPeaks | internal/hub/trend.go:81-83 | The peak of a join is the highest of the peaks. |
| TrendMerge.JoinNetwork | internal/hub/trend.go:62-69 | A join is unavailable if and only if some point is or two points differ in scope. |
| TrendMerge.RangeOfTwo | internal/hub/trend.go:89-97 | Merging two neighbouring buckets is merging their two summaries, as the 1h trend does with the 30m one. |
| TrendMerge.FinishMerges | internal/hub/trend.go:89-95 | The point of a merge has added counts, count-weighted averages, maximum peaks, and is unavailable if either is or their scopes differ. |
| TrendMerge.WindowShowsSameBuckets | internal/hub/trend.go:33 | Querying only the window's rows gives the same buckets as all rows, so trends of different ranges can be compared. |
| Network.ParseMeans | internal/collector/network.go:43-81 | Reading fails if and only if a line in scope is unreadable; otherwise it finds exactly the interfaces in scope, never the loopback. |
| Network.LastLineCounts | internal/collector/network.go:80 | Of several lines for an interface the last one counts. |
| Network.MissingMeans | internal/collector/network.go:82-88 | Missing are exactly the selected interfaces without counters, in the order of the selection. |
| Network.AvailableMeans | internal/collector/network.go:90-106 | The size test together with a baseline for each interface is equality of the interface sets: rates are available iff the sets coincide, are non-empty with none missing, time advanced and no counter went back. |
| Network.NetworkState.Summarize | internal/collector/network.go:82-107 | Whatever the map order: interfaces sorted, the received total is the sum of the received counters and the sent total that of the sent ones, each rate times time is the growth of its counter over the comparable interfaces, the flag is right. |
| Network.NetworkState.Sample | internal/collector/network.go:41-110 | A failed sample drops the baseline and keeps its time; a good one becomes the next baseline. |
| Network.RateTimesElapsed | internal/collector/network.go:95-99 | An available sample's rates account for exactly the bytes since the sample before it, over the same interfaces. |
| Network.Conservation | internal/collector/network.go:89-109 | Over any run of available samples, rate times time adds up to last total minus first total, in each direction. |
| Network.ReceivedIsConserved | internal/collector/network.go:93-98 | Received rate times time adds up to last received total minus first. |
| Network.SentIsConserved | internal/collector/network.go:94-99 | Sent rate times time adds up to last transmitted total minus first. |
| Network.FailureLosesBaseline | internal/collector/network.go:66-78 | The sample after an unreadable one has no rates. |
| Auth.AuthState.Attempt | internal/hub/auth.go:91-99 | An attempt is limited exactly when twenty attempts of its window came before; window and count move accordingly. |
| Auth.AuthState.Issue | internal/hub/auth.go:115-126 | Expired sessions go; then the new one is added exactly when fewer than 128 are left. |
| Auth.IssuedMeans | internal/hub/auth.go:115-126 | A session is given exactly when fewer than 128 are alive; those stay as they are, and only they. |
| Auth.AtMost39 | internal/hub/auth.go:91-97 | With a clock that does not go back, at most 39 attempts pass in any half-open minute. |
| Auth.Reaches39 | internal/hub/auth.go:91-97 | That bound is reached by some run. |
| Auth.NoLockOut | internal/hub/auth.go:93-96 | Of attempts that reach a minute or more past another, at least one passes. |
| Auth.LoginsAddUp | internal/hub/auth.go:97-125 | Sessions given, logins turned away for lack of room and logins still waiting are together exactly the attempts with the right credential that passed. |
| Auth.SessionsUsePasses | internal/hub/auth.go:97-125 | Sessions given to logins of a minute, plus logins still waiting, never exceed the attempts that passed. |
| Auth.AtMost39Sessions | internal/hub/auth.go:91-126 | No minute of logins yields more than 39 sessions, however the two locked sections interleave. |
| Auth.AtMost128 | internal/hub/auth.go:116-125 | The session table never holds more than 128 entries. |
| Auth.AcceptedWhileAlive | internal/hub/auth.go:47-59 | A session is accepted if and only if its token was given to a login less than eight hours old and not logged out since, in spite of purges with stale clock readings. |
| Auth.NeverRevives | internal/hub/auth.go:47-59 | A token that was given and is no longer accepted is never accepted again. |
| AgentUpdate.Installation.AtomicCopy | scripts/agent-setup.py:312-322 | A replaced file is entirely old or entirely new, at whatever step copying ends. |
| AgentUpdate.Installation.CopyAll | scripts/agent-setup.py:413 | Replacing the package file by file leaves a mixture of two packages at worst, and the new one when it finishes. |
| AgentUpdate.Installation.VerifyRunning | scripts/agent-setup.py:398-407 | Verification passes only if the hub accepts the heartbeat that it sends. |
| AgentUpdate.Installation.Prepare | scripts/agent-setup.py:377-410 | The marker exists only once candidate/ and previous/ are complete. |
| AgentUpdate.Installation.Exchange | scripts/agent-setup.py:412-424 | After an exception the old files come back; a single exception is always undone with an accepted heartbeat; without the marker the old package is in. |
| AgentUpdate.Installation.Rotate | scripts/agent-setup.py:426-429 | At every step the old package is complete in previous/ or rollback/; the marker goes only after rollback/ holds it. |
| AgentUpdate.Installation.Close | scripts/agent-setup.py:339-344 | The workspace is kept while the marker is there. |
| AgentUpdate.Installation.Update | scripts/agent-setup.py:346-431 | For an exception or crash at any step: marker means recoverable, no marker means entirely new and verified with the old package in rollback/, or entirely old; a leftover workspace refuses the update; a single exception never leaves a mixture. Passed and Restored mean that the last heartbeat sent was accepted; without faults the first answer decides between Passed and restoring, and the second between Restored and Failed. |
| AgentUpdate.EveryHistoryIsSound | scripts/agent-setup.py:333-431 | Over any sequence of updates with any faults: without the marker the installed files are the package of the latest update that went through, running, with its predecessor in rollback/; with the marker that package is complete in previous/ or rollback/. |
| AgentUpdate.LeftoverBlocks | scripts/agent-setup.py:335-336 | Once a workspace is left, every later update is refused and nothing changes. |
| BackupNames.DecodeEncode | internal/backup/backup.go:132-148 | A time written in the fixed-width layout is read back unchanged. |
| BackupNames.EncodeDecode | internal/backup/backup.go:146 | Text that parses, without a comma, is the layout's text of the time it parses to. |
| BackupNames.NameRoundTrip | internal/backup/backup.go:132-148 | Every name the program gives is recognised in rotation. |
| BackupNames.RecognisedIsPossible | internal/backup/backup.go:146 | Names with an impossible date or time are not recognised. |
| BackupNames.PlainNamesOnly | internal/backup/backup.go:143-148 | Every recognised name is one the program gives, but for a comma in place of the decimal point. |
| BackupNames.NameOrder | internal/backup/backup.go:150 | The lexicographic order of names is exactly the order of their times. |
| Backup.Folder.ListBackups | internal/backup/backup.go:140-150 | Lists exactly the regular files with such names, once each, oldest first. |
| Backup.Folder.RemoveOld | internal/backup/backup.go:151-168 | Removes the oldest names that are not the live source, and `removed` counts the files that are gone, also when it stops half-way. |
| Backup.Folder.Create | internal/backup/backup.go:128-170 | When it fails and what is then left; on success the folder is the rotation of the folder with the new backup. |
| Backup.OutdatedByPosition | internal/backup/backup.go:150-154 | The names the loop pops are exactly those with at least `keep` later backups. |
| Backup.KeepsTheNewest | internal/backup/backup.go:152-154 | Exactly `keep` backups are kept, or all if there are fewer, and none that goes is newer than one that stays. |
| Backup.TargetSurvives | internal/backup/backup.go:152-167 | The backup just made outlives its own rotation if and only if fewer than `keep` backups carry later times. |
| Backup.ClockWentBack | internal/backup/backup.go:152-167 | A folder with one backup of a later time, and keep 1: the backup just made is gone after its rotation, the other one is there. |
| Backup.SteadyClockKeepsTarget | internal/backup/backup.go:132-167 | With a clock that does not go back it always does. |
| Backup.SeriesKeepsTheLast | internal/backup/backup.go:128-170 | A series of successful backups at ascending times leaves exactly the last `keep`, and every other file. |
| DiskTree.NearestListed | internal/hub/web/index.html:184-185 | The parent found by the loop is the nearest proper ancestor that is listed, or the root. |
| DiskTree.OneParent | internal/hub/web/index.html:182-187 | Every node but the root hangs under exactly one parent, once. |
| DiskTree.RowsMean | internal/hub/web/index.html:178-181 | Which paths have an entry: nodes, paths only the changes know (as removed), and the root; with which size and delta. |
| DiskTree.Page.Link | internal/hub/web/index.html:182-187 | The children lists are those of the nearest listed ancestors, without repetition. |
| DiskTree.Page.SortChildren | internal/hub/web/index.html:188-189 | Each list of children still holds the same paths, by size the largest first or by growth those that grew most, ties in the order of the paths' language. |
| DiskTree.Page.Visit | internal/hub/web/index.html:191-192 | The recursion appends the preorder of the unfolded part. |
| DiskTree.Page.Render | internal/hub/web/index.html:176-192 | From node list and changes to the visible rows: sorting by growth needs changes, and the rows are the preorder from the root. |
| DiskTree.ShowsReached | internal/hub/web/index.html:191 | A path is shown if and only if all its tree ancestors are unfolded, indented by their number. |
| DiskTree.PreorderInOrder | internal/hub/web/index.html:191 | Rows come in tree order: ancestors first, subtrees of earlier siblings entirely before those of later ones. |
| DiskTree.BeforeIsStrict | internal/hub/web/index.html:191 | That order is strict. |
| DiskTree.ShownOnce | internal/hub/web/index.html:190-192 | No path is shown twice. |
| DiskTree.PageShowsTree | internal/hub/web/index.html:181-192 | When the listed paths are the directories of scanned trees, the page shows exactly the directories whose ancestors are unfolded, indented by their depth. |
| DiskTree.SnapshotListsTree | internal/hub/web/index.html:179 | A complete snapshot shown by itself lists the scanned tree, cut at the display depth. |
| DiskTree.ComparisonListsTrees | internal/hub/web/index.html:179-180 | A complete snapshot shown with its changes to an earlier one lists the two trees together. |

## Left out

- ScanRate: requires that sibling names are distinct and contain no "/", as a file system guarantees; `EvalSymlinks` and `Abs` are not part of this model.
- SaveSnapshot: requires distinct node paths, which the upload handler checks before (`UploadSnapshot`).
- SharedTokenRefused: is about the check that names the device; the id-less check of an upload before it (in `UploadSnapshot`) never decides.
- AdmittedExactly: is about non-empty device ids; requests without one are refused by the field checks before (internal/hub/disk.go:88).
- RecomputedAlertsAgree: the page's threshold is the one in force when the newest snapshot arrived; a hub restarted with another one shows other alerts for that reason. Nothing is said once a cleanup has taken the snapshot before the newest.
- IntervalsAreDisjoint: assumes cleanups that keep pace; `OverrunOverlaps` is a run with one that does not.
- SeriesKeepsTheLast: the live database is outside the backups; `RotationLeaves` says that it stays if it is among them.
- PlainNamesOnly: `time.Parse` also takes a sign for the first of the nine digits after the point; names with one are not recognised here.
- SteadyClockKeepsTarget: assumes that the names present were given by the program (no decimal comma).
- Visit: rows beyond the display limit are cut off by the page afterwards.
- SortChildren: `localeCompare` is any total preorder on paths; ties under it keep some order.
- Integer width: byte sums are unbounded, and times do not leave the range of 64-bit nanoseconds.
- Floating point: rates, percentages and averages are real numbers, without rounding.
- JSON, HTTP, cookies, headers and field validation before the checks modelled here; a missing and an empty interface list are the same scope.
- Calendar: times in backup names are compared field by field as UTC; years beyond 9999 do not occur.
- Copying a backup (`VACUUM INTO`, verification, hard link) is one step that succeeds or fails.
- Loss of unsynced writes when the machine itself goes down during an update: only the replaced files are synced (scripts/agent-setup.py:319), `previous` and the marker are not (scripts/agent-setup.py:396, 410). In the model a crash keeps every write made so far.
- What an update only reads (ownership, manifests, service arguments) is one yes or no; temporary files of interrupted copies are not counted.
- Concurrent changes by others to the files an update or a rotation works on.
- `handleAck`, `handleDevices`, `List`, `History`, `SaveDisk`, `CompleteDiskReference`, `SetNetworkInterfaces`, `Schedule`: short, they would add only easy members.
- Deletion after which the id registers again: late writes are then accepted, as in the code, and nothing is claimed about them.
- `install`, `register`, downloads, and the binary checks of the setup script.

# Verified model of the metadata scan, the account rules and the previews

This project models the parts of the data platform whose correctness spans many functions, and proves what they keep.
It is written in Dafny 4.11; `dafny verify dfyconfig.toml` checks all of it.

**Scanning object storage** is the centre. A flat listing of a bucket goes through the S3 scanner (`ObjectStorageScanner`),
which aggregates it per directory, and through the scan service (`ScanService`), which turns the scanner's rows into two
tables: a forest of `meta_node` rows with materialised id-paths, full names and counters, and `meta_item` leaves
(`MetadataForest`, `MetadataStore`). The store refuses whatever its keys forbid and, unless it is `reliable`, any statement at
any time, so every contract of the service also says what a failure leaves behind. What holds between the stored rows and the
counters in memory while a scan is under way is a subset type, `ScanSession.Scan`; each statement the service issues carries
it forward (`ScanSteps`, `ScanBuckets`, `ScanRuns`).

**The explorer** queries those rows (`ExplorerQueries`) and rebuilds a tree from them (`ExplorerTree`, `ExplorerContents`);
the live listing it stands in for is `LiveListing`. `EndToEnd` runs a scan and then the explorer. **Schemas** of relational
sources and the automatic scan are in `SchemaScans`, `AutoScans` and `AutoOutcomes`. **Accounts** are a state machine over users,
tenants and resources (`Accounts`), with the three services proved to follow it (`SystemServices`), to write exactly the columns
asked for (`AccountRules`) and to page through their lists without gaps (`AccountPages`). Table paging, the stale-response
guard and the CSV plugin have a module each; `ScannerPaths`, `ListedPaths` and `PathRoundTrips` follow paths through the
system, `BlankPaths` those that sanitising leaves blank, and `PrefixAnswers` reads the answer to a directory's path off the bucket's keys.

The main results, in words:

- The id-path wipe `LIKE 'path/%'` is the tree relation: it can confuse neither 7 with 71 nor one bucket, resource or tenant
  with another.
- Every public operation of the scan service keeps the forest, and no run changes anything outside the trees of the buckets it
  scans, whichever write fails.
- A finished row counts exactly its subtree if and only if no name was delivered twice below it; the service's recount and the
  scanner's own aggregates agree for every directory.
- A scan of a whole bucket of well-formed keys, followed by the rebuilding of the explorer tree, gives exactly the listed
  objects: `EndToEnd.ScanThenBrowse` runs the two, whatever forest the tables held. Directory by directory the tree agrees with
  the live listing of the directory's path.
- A scan of one directory shows exactly what lies below it, and never what lies below a sibling whose name starts alike
  (`PrefixAnswers.DirectoryAnswered`).
- A rescan depends on its answers alone, not on what the tables held, nor on the order in which the scanner emits its
  directories. An automatic scan takes on exactly what has no row yet, reports exactly that, and leaves everything else alone; a
  second one does nothing.
- On every run of requests the account rules, spread over three services, keep one super administrator and at most one
  administrator for each live tenant, and confine everyone else to their own tenant. Pages of a list, put together, are the list.
- Stale preview responses never win; pages tile the capped table; reading a CSV line inverts writing it exactly for the fields
  the format can carry.

Some things one might expect are not so. The model keeps the code's behaviour, and the exact condition is proved:

- A row whose second write failed has no path. Such a row survives the wipe of its parent, because no pattern matches it, until
  a later scan repairs it (`MetadataForest.WipeRemovesDescendants`, `MetadataForest.PathlessRowSurvives`). Results about directories
  therefore speak of labelled rows.
- `scanBucket` panics exactly when a counted key has an empty segment above its last one (`ObjectStorageScanner.ScanBucket`); one key
  "a//b" is enough (`WholeBucketRun.DoubledSlashPanics`), and the run stops with its buckets still marked as being scanned
  (`ScanService.ScanServiceNew.ScanObjectStoragePaths`).
- The row of the bucket itself is always filtered out of an answer, so a bucket without unreserved keys yields nothing and is
  skipped without a row or a reset (`EndToEnd.AnswerYields`, `EndToEnd.ScanThenBrowse`).
- A scan limited to a prefix files its objects below the bucket as if the prefix were not there
  (`PrefixScans.PlacedByWholeScansOnly`); a path that names a single object does not (`PrefixScans.PlacedByStat`).
- Deleting a tenant leaves its resources to the super administrator alone, for good (`TenantIsolation.OrphansStayOrphans`).
- An object whose key starts with its bucket's name and a slash is not found by its preview (`PathRoundTrips.OwnItemLookedUp`),
  which may show another object instead (`PathRoundTrips.OtherItemLookedUp`); nor is one behind an item of another bucket's tree that
  names this bucket, as scans of a blank path can leave (`PathRoundTrips.LeafLeadsToItem`).
- The path under which a listing shows an object does not lead back to it when a space was trimmed from either end, or when its key
  has a leading slash, or a doubled one before the name (`ListedPaths.LeafLeadsBack`, `ListedPaths.SpaceLost`,
  `ListedPaths.SlashLost`).
- A path that is a run of blanks between slashes, such as "/ /", is read as every bucket (`BlankPaths.SanitizedBlank`), and
  everything found is filed under the first of them (`BlankPaths.BlankPathFiling`).
- A page number large enough to overflow can show the first rows again (`TablePreview.OverflowingPage`), a reload of the tree
  slips past the stale-response guard while a request is under way (`PreviewGuard.SettledShowsLast`,
  `PreviewGuard.ShownUnselected`), and a quote inside a CSV field is lost (`CsvPreview.ReadsBackIffWritable`).

Heavy proofs begin with a `hide` statement, so that the solver sees predicates by name only and the reasoning sits in small
lemmas. "Without faults" in the table below means with a reliable store.

## Model

| member | source | states |
|---|---|---|
| MetadataStore.Database.constructor | scripts/init-db.sql:84-137 | A new store is an empty forest. |
| MetadataStore.Database.FindNode | meta/backend/internal/service/scan_service_new.go:154-162 | Returns the first row, by id, at the address asked for, or reports that there is none at all; without faults it never fails. |
| MetadataStore.Database.FindNamed | meta/backend/internal/service/scan_service_new.go:530-534 | The same without a parent condition. |
| MetadataStore.Database.CreateNode | scripts/init-db.sql:84-110 | Adds exactly one row under an unused id ahead of the sequence, and only below a stored parent and under a name unused there (at top level under any name); without faults exactly then. |
| MetadataStore.KeysAreExact | scripts/init-db.sql:84-110 | CreateNode's keys accept a new row if and only if, with it, every parent is stored and no name comes twice below one parent of a resource. |
| MetadataStore.Database.UpdateNode | meta/backend/internal/service/scan_service_new.go:246-260 | Changes the named columns of one row and nothing else. |
| MetadataStore.Database.DeleteNodesLike | meta/backend/internal/service/scan_service_new.go:272-275 | Removes the matching rows, everything below them by both cascades, and nothing else; the forest stays a forest. |
| MetadataStore.Database.FindItem | meta/backend/internal/service/scan_service_new.go:287-289 | Returns the first item, by id, at the slot asked for, or reports that there is none. |
| MetadataStore.Database.CreateItem | scripts/init-db.sql:116-137 | Adds exactly one item; refused exactly by a missing node, the unique key (node_id, name), or a fault. |
| MetadataStore.Database.UpdateItem | meta/backend/internal/service/scan_service_new.go:327-329 | Overwrites the data columns of one item and nothing else. |
| MetadataStore.Database.DeleteItemsOf | meta/backend/internal/service/scan_service_new.go:263-265 | Removes exactly the items of one node. |
| MetadataForest.PathIsIdChain | meta/backend/internal/service/scan_service_new.go:66-75 | The stored path of a labelled row is the slash-joined chain of ids from its root, with exactly depth segments. |
| NodeNames.FullNameIsJoin | meta/backend/internal/service/scan_service_new.go:77-85 | The stored full name of a labelled row is the slash-joined chain of names from its bucket. |
| MetadataForest.LikeIsDescendant | meta/backend/internal/service/scan_service_new.go:267-276 | `path LIKE <path of a>/%` holds of exactly the labelled proper descendants of a, whatever digits ids share and although the query names no bucket, resource or tenant. |
| MetadataForest.WipeRemovesDescendants | meta/backend/internal/service/scan_service_new.go:267-276 | With cascades, the deletion removes every proper descendant except direct children that have no path yet. |
| MetadataForest.PathlessRowSurvives | meta/backend/internal/service/scan_service_new.go:267-276 | Witness: in a forest of a bucket and one directory without a path, the directory outlives the bucket's wipe. |
| MetadataForest.DeleteKeepsForest | scripts/init-db.sql:88-120 | Deleting any set of rows with both cascades leaves a forest. |
| MetadataForest.InsertKeepsForest | meta/backend/internal/service/scan_service_new.go:162-180 | A row at an unused address below a labelled parent joins the forest, with or without its path. |
| MetadataForest.RepairKeepsForest | meta/backend/internal/service/scan_service_new.go:195-231 | Rewriting a row's labels to what its parent prescribes keeps the forest. |
| NodePlacement.UpsertedKeepsForest | meta/backend/internal/service/scan_service_new.go:146-234 | Whatever upsertNode reports, the forest invariant holds afterwards and the row is labelled. |
| NodePlacement.StrandedKeepsForest | meta/backend/internal/service/scan_service_new.go:180-192 | A creation whose second write fails leaves a forest with one row that has no path. |
| NodePlacement.PlacedNameIsFree | scripts/init-db.sql:108 | Below a row of the resource, the unique key never refuses an insert after the lookup found nothing. |
| NodePlacement.UpsertedItemKeepsForest | meta/backend/internal/service/scan_service_new.go:278-342 | upsertItem keeps the forest and one item per name and node. |
| ObjectKeys.ReservedBySegments | meta/backend/internal/scanner/s3_scanner.go:53-71 | The reserved test is a test of the segments of the untrimmed path. |
| ObjectStorageScanner.CreditDirectory | meta/backend/internal/scanner/s3_scanner.go:361-367 | One ancestor is credited, or the lookup of the untrimmed path finds nothing and the dereference panics. |
| ObjectStorageScanner.CreditDirectories | meta/backend/internal/scanner/s3_scanner.go:360-368 | All proper ancestors of a key are credited once; a panic happens exactly when a segment above the last is empty. |
| ObjectStorageScanner.CollectEntry | meta/backend/internal/scanner/s3_scanner.go:324-369 | One listed key adds its row and its ancestors' sums, or marks one directory, or nothing. |
| ObjectStorageScanner.CollectListing | meta/backend/internal/scanner/s3_scanner.go:324-369 | After the loop the rows are the counted objects and every table entry is the exact sum over the objects below its path. |
| ObjectStorageScanner.DirectoryRows | meta/backend/internal/scanner/s3_scanner.go:390-398 | One row for each aggregate, with its path filled in, in any order. |
| ObjectStorageScanner.SortByPath | meta/backend/internal/scanner/s3_scanner.go:401 | A permutation ordered by relative path. |
| ObjectStorageScanner.ScanBucket | meta/backend/internal/scanner/s3_scanner.go:307-405 | Panics exactly when a counted key has an empty segment above its last; otherwise answers the exact directory aggregates, then every counted object once, sorted. For a directory of well-formed keys PrefixAnswers.DirectoryAnswered says which rows these are. |
| ObjectStorageScanner.ScanPath | meta/backend/internal/scanner/s3_scanner.go:256-305 | A blank path is answered with every allowed bucket; any other is refused, skipped, answered by one stat, or answered by the scan of its bucket or prefix. For the path of a directory PrefixAnswers.DirectoryAnswered reads the answer off the bucket's keys. |
| ObjectStorageScanner.ScanAllBuckets | meta/backend/internal/scanner/s3_scanner.go:256-270 | Panics exactly when some allowed bucket makes a scan panic; otherwise brings the rows of each allowed bucket's scan, once, in any order. |
| PrefixAnswers.DirectoryAnswered | meta/backend/internal/scanner/s3_scanner.go:272-405 | The path of a bucket, or of a clean directory in it that is not itself the key of an object, is answered with: a row for the directory (none for the whole bucket) with the number and bytes of the unreserved objects whose key segments properly extend its own; one row for each directory that some key makes known there, with the number and bytes below it; and each of those objects once, by its path from there, in order. A directory under a reserved segment is answered with nothing. |
| ScanSession.CreditedOnce | meta/backend/internal/service/scan_service_new.go:798-802 | Crediting a parent chain adds one object and its size to each row on it once, and to no other. |
| ScanSession.ChainIsAncestors | meta/backend/internal/service/scan_service_new.go:738-764 | The parent chain of an object consists of exactly the rows at or above its directory. |
| ScanSession.ChildKeepsScan | meta/backend/internal/service/scan_service_new.go:756-764 | Finding, creating or stranding a prefix row keeps rows, naming, counters and deliveries in step. |
| ScanSession.DeliveryKeepsScan | meta/backend/internal/service/scan_service_new.go:790-802 | Storing an item and then crediting its chain keeps every counter equal to what was delivered at or below its row. |
| ScanBuckets.BucketKeepsScan | meta/backend/internal/service/scan_service_new.go:679-703 | Taking on a bucket, marked and cleared, keeps the scan consistent and leaves every row of other trees as at the start. |
| Deliveries.CountIsExact | meta/backend/internal/service/scan_service_new.go:797-802 | A directory's counter is never below the number of items stored in its subtree; the two are equal if and only if no key below it was delivered twice. |
| Deliveries.SizeIsExact | meta/backend/internal/service/scan_service_new.go:797-802 | When no key at or below a directory was delivered twice, its byte counter is the sum of the sizes stored in its subtree. |
| ScanService.ScanServiceNew.InsertNode | meta/backend/internal/service/scan_service_new.go:162-193 | The creation branch places and labels a new row, or leaves the table as it was, or leaves one row without a path. |
| ScanService.ScanServiceNew.RefreshNode | meta/backend/internal/service/scan_service_new.go:198-233 | The update branch brings a row to the labels its parent prescribes, whatever was stored, and changes no other row. |
| ScanService.ScanServiceNew.UpsertNode | meta/backend/internal/service/scan_service_new.go:146-234 | Afterwards exactly the returned row may differ; it is placed and labelled as asked, carries the attributes passed unless there were none, and keeps its scan state if it was there. |
| ScanService.ScanServiceNew.ResetNodeState | meta/backend/internal/service/scan_service_new.go:236-247 | Changes status and message of one row. |
| ScanService.ScanServiceNew.FinalizeNodeState | meta/backend/internal/service/scan_service_new.go:249-261 | Changes status, counters and message of one row. |
| ScanService.ScanServiceNew.HardDeleteItemsByNode | meta/backend/internal/service/scan_service_new.go:263-265 | Removes exactly the items of one node. |
| ScanService.ScanServiceNew.HardDeleteDescendantNodes | meta/backend/internal/service/scan_service_new.go:267-276 | Removes the rows and items below a node, all but direct children without a path, and touches nothing else. |
| ScanService.ScanServiceNew.UpsertItem | meta/backend/internal/service/scan_service_new.go:278-342 | Inserts or overwrites the one item at a slot. |
| ScanService.ScanServiceNew.UpsertPrefix | meta/backend/internal/service/scan_service_new.go:751-763 | One turn of the segment loop: the child row and its counter, or a consistent failure. |
| ScanService.ScanServiceNew.UpsertPrefixes | meta/backend/internal/service/scan_service_new.go:744-764 | The loop makes exactly the directories the row's segments spell and returns the rows from the bucket down; an object's last segment is left out. |
| ScanService.ScanServiceNew.NameObject | meta/backend/internal/service/scan_service_new.go:773-780 | The name an object is stored under. |
| ScanSteps.ObjectNameIs | meta/backend/internal/service/scan_service_new.go:770-780 | The name is the last segment of the path without slashes at its ends, "." for a path of slashes; it is never empty and never holds a slash, so that the fallbacks are not reached. |
| ScanService.ScanServiceNew.CreditChain | meta/backend/internal/service/scan_service_new.go:798-802 | The counters after the loop over the parent chain. |
| ScanService.ScanServiceNew.PersistObject | meta/backend/internal/service/scan_service_new.go:773-802 | Stores one item under the full name of its directory and credits the chain only if that succeeded. |
| ScanService.ScanServiceNew.PersistMeta | meta/backend/internal/service/scan_service_new.go:738-803 | One row files exactly its directories and its object, or fails leaving a consistent scan. |
| ScanService.ScanServiceNew.PersistObjectMetas | meta/backend/internal/service/scan_service_new.go:729-807 | A batch delivers exactly its objects, in order, and makes exactly its directories; the bucket has a counter in the end. |
| ScanService.ScanServiceNew.OpenBucket | meta/backend/internal/service/scan_service_new.go:679-703 | The bucket's row is labelled, marked as being scanned and emptied; a failure at any write leaves other trees untouched. |
| ScanService.ScanServiceNew.FinalizeCounted | meta/backend/internal/service/scan_service_new.go:712-716 | Every counter is written to its row and no other row changes. |
| ScanService.ScanServiceNew.FinalizeBuckets | meta/backend/internal/service/scan_service_new.go:718-724 | Buckets without a counter are finished with zeros. |
| ScanService.ScanServiceNew.Finalize | meta/backend/internal/service/scan_service_new.go:712-724 | The finished tables: see ScanRuns.RunConcluded. |
| ScanService.ScanServiceNew.FileBatch | meta/backend/internal/service/scan_service_new.go:675-709 | One answer is filed under the bucket of its first row, which is opened once in a run; without faults exactly its items are delivered, its directories made, and their attributes written. |
| ScanService.ScanServiceNew.FileAnswer | meta/backend/internal/service/scan_service_new.go:665-709 | One turn of the loop over paths: an answer without rows, or whose first row names no bucket, is passed over, any other is filed. |
| ScanService.ScanServiceNew.ScanPaths | meta/backend/internal/service/scan_service_new.go:665-709 | The loop over paths: what the answers so far ask for is done and their buckets are registered and in progress, or a panic or a failed write has left every other tree alone. |
| ScanService.ScanServiceNew.ScanObjectStoragePaths | meta/backend/internal/service/scan_service_new.go:657-727 | Always: the tables stay a forest and nothing outside the scanned buckets' trees changes.  Completed: every labelled row is finished and counts what was delivered below it.  Cut short by the scanner's panic: exactly the buckets of the earlier answers are still in the scanning state, the directories below them are unscanned and without counters, and every delivered item is stored.  Without faults: the run completes unless the scanner panics, and delivers, makes and describes exactly what the answers before that ask for. |
| ScanRuns.RunConcluded | meta/backend/internal/service/scan_service_new.go:712-724 | After the last loops no labelled row of a scanned tree is left unfinished. |
| ScanRuns.PrepareObjectPaths | meta/backend/internal/service/scan_service_new.go:809-842 | The cleaned paths asked for, or else the fallback, or else every bucket; each once, sorted. |
| ScanRuns.ChosenPathsAre | meta/backend/internal/service/scan_service_new.go:809-842 | A path is chosen if and only if it is not empty and is the cleaned form of one asked for, or, if none of those is left, of a fallback, or, if none of these either, of a bucket. |
| BlankPaths.SanitizedBlank | meta/backend/internal/service/scan_service_new.go:844-848 | Sanitising leaves a path that is blank but not empty if and only if the trimmed path is a run of slashes, a run of blanks and a run of slashes, none of them empty. |
| BlankPaths.BlankPathChosen | meta/backend/internal/service/scan_service_new.go:809-842 | A run is given a blank path if and only if the list it takes its paths from holds one of that shape. |
| BlankPaths.BlankPathSurvives | meta/backend/internal/service/scan_service_new.go:844-848 | Such a path exists: "/ /". |
| BlankPaths.BucketsNamed | meta/backend/internal/scanner/s3_scanner.go:256-270 | The rows that answer a blank path name exactly the allowed buckets that yield a row. |
| BlankPaths.BlankPathFiling | meta/backend/internal/service/scan_service_new.go:667-705 | All of them are filed under the bucket of the first; each is then filed under its own bucket if and only if no two allowed buckets yield rows. |
| ScanOutcomes.OthersUntouched | meta/backend/internal/service/scan_service_new.go:657-727 | No run, not even a failed one, changes a row or item of another resource or tenant, or of a schema. |
| ScanOutcomes.BelowIsSubtree | meta/backend/internal/service/scan_service_new.go:797-802 | What a counter counts is the row's whole subtree under parent_node_id. |
| ScanOutcomes.CountersExact | meta/backend/internal/service/scan_service_new.go:712-716 | A finished row's count is at least its subtree's, and equal if and only if no key below it was delivered twice; then its bytes are exact too. |
| ScanOutcomes.NoneScanning | meta/backend/internal/service/scan_service_new.go:712-724 | A completed run leaves no row of its trees in the scanning state; all but rows without a path are scanned. |
| ScanOutcomes.OutcomeFullNames | meta/backend/internal/service/scan_service_new.go:77-85 | Depth and full name of a finished row follow from its chain of names. |
| ScanOutcomes.HistoryFree | meta/backend/internal/service/scan_service_new.go:690-710 | Two runs that delivered the same items and made the same directories with the same attributes leave the same trees up to ids, in every column the scan writes, whatever the tables held before. |
| ScanOutcomes.RescanHistoryFree | meta/backend/internal/service/scan_service_new.go:657-727 | Two runs over the same answers leave the same directories, labels, attributes, counters and items, and exactly the directories the answers ask for. |
| BucketScans.ClassifyKey | meta/backend/internal/scanner/s3_scanner.go:328-342 | A well-formed key is skipped, marks its directory, or is counted with its own segments. |
| BucketScans.NeverPanics | meta/backend/internal/scanner/s3_scanner.go:360-368 | A listing of well-formed keys never makes the scan panic. |
| BucketScans.RowOfKey | meta/backend/internal/service/scan_service_new.go:744-795 | The service reads back from the scanner's row the directory, name, size and full name that the key spells. |
| BucketScans.ReservedBucketHasNoDirectories | meta/backend/internal/scanner/s3_scanner.go:390-445 | Where the bucket's own name is reserved, a scan shows its objects and no directory. |
| BucketRoundTrip.LogIsKeys | meta/backend/internal/service/scan_service_new.go:729-807 | A whole-bucket scan asks for exactly the listed objects outside reserved segments, each once, no two under one name. |
| BucketRoundTrip.UnderIsCredit | meta/backend/internal/scanner/s3_scanner.go:360-368 | The scanner's string test for "below this directory" and the service's walk along rows agree. |
| BucketRoundTrip.AggregationsAgree | meta/backend/internal/scanner/s3_scanner.go:344-368 | For every directory path, what the service recounts equals the count and bytes the scanner aggregated. |
| BucketRoundTrip.TreeIsSpelled | meta/backend/internal/service/scan_service_new.go:744-764 | The directories made are exactly those that some unreserved key spells. |
| BucketRoundTrip.OrderIrrelevant | meta/backend/internal/scanner/s3_scanner.go:390-402 | Whatever order the scanner ranges over its table in, the same items are delivered in the same order and the same directories made. |
| PrefixScans.PlacedByWholeScansOnly | meta/backend/internal/scanner/s3_scanner.go:328-351 | A scan of a prefix files an object in the directory its key spells if and only if the prefix is empty. |
| PrefixScans.PlacedByStat | meta/backend/internal/scanner/s3_scanner.go:283-302 | A path that names a single object is answered with the row a scan of the whole bucket gives that object, and so files it where its key spells. |
| WholeBucketRun.WholeBucketAnswer | meta/backend/internal/scanner/s3_scanner.go:276-305 | The path of a bucket is answered by the scan of the whole bucket. |
| WholeBucketRun.BucketRunCompleted | meta/backend/internal/service/scan_service_new.go:657-727 | A completed fault-free run over a bucket's path satisfies the hypotheses of the four results below. |
| WholeBucketRun.ItemsAreListing | meta/backend/internal/service/scan_service_new.go:729-807 | The stored items are exactly the listed objects outside reserved segments, with directory, name, size and full name. |
| WholeBucketRun.DoubledSlashPanics | meta/backend/internal/scanner/s3_scanner.go:360-368 | Witness: a bucket that holds the key "a//b" makes every scan of it panic, whatever else it holds. |
| WholeBucketRun.RowsAreSpelled | meta/backend/internal/service/scan_service_new.go:744-764 | The labelled rows are exactly the bucket and the directories its unreserved keys spell; none for a listing without such keys. |
| WholeBucketRun.AttributesAreSpelled | meta/backend/internal/service/scan_service_new.go:750-754 | The attributes of every labelled row name the bucket and, for a directory, its path in it. |
| WholeBucketRun.CountersAgree | meta/backend/internal/service/scan_service_new.go:712-716 | Every labelled row counts exactly the items and bytes of its subtree, and a directory's counters equal the scanner's aggregate. |
| ScanService.ScanServiceNew.PersistTables | meta/backend/internal/service/scan_service_new.go:871-899 | Persists the tables that can be, in order, and counts exactly them; without faults exactly those whose columns can be read. |
| ScanService.ScanServiceNew.ScanDatabaseSchema | meta/backend/internal/service/scan_service_new.go:850-907 | Only the schema's row and items change.  It ends unscanned and empty, with the reason, if its tables cannot be listed, else scanned with exactly the persisted tables counted. |
| SchemaScans.SchemaCountExact | meta/backend/internal/service/scan_service_new.go:895-902 | A scanned schema's count and bytes equal its items' if and only if no table name was persisted twice (bytes: if). |
| ScanService.ScanServiceNew.ScanUnscannedSchemas | meta/backend/internal/service/scan_service_new.go:543-571 | For every start: rows and items that were there stay as they were, and no rows join but one for each listed schema that had none. Without faults each of those ends with the tables that can be read, or unscanned with the reason its tables cannot be listed; the totals are the number of those that could be listed, of their readable tables and of these tables' fields. If every schema had a row, nothing changes and all totals are zero. |
| ScanService.ScanServiceNew.ScanUnscannedBuckets | meta/backend/internal/service/scan_service_new.go:519-541 | For every start, with a store that works: rows and items that were there stay as they were; each bucket that had no row ends as a run over it leaves it, or yields nothing; the totals are the number of those that yield a row and of the objects counted in them. If every bucket had a row or yields nothing, nothing changes and all totals are zero. |
| ScanService.ScanServiceNew.ScanResource | meta/backend/internal/service/scan_service_new.go:501-572 | The automatic scan settles its resource and does nothing to a settled one; with a store that works it has exactly the outcome and the totals of the two rows above. |
| AutoOutcomes.SchemaAdded | meta/backend/internal/service/scan_service_new.go:555-569 | Taking on one more schema without a row leaves the rows there were alone and adds exactly what that schema's listing asks for. |
| AutoOutcomes.SchemaItemsAreTables | meta/backend/internal/service/scan_service_new.go:871-899 | The items of a schema taken on are exactly the tables of its listing whose columns can be read, under schema.table, with their row counts and sizes. |
| AutoOutcomes.BucketReport | meta/backend/internal/service/scan_service_new.go:519-541 | A run over one bucket counts one bucket and its objects outside reserved segments, unless the bucket yields no row. |
| AutoOutcomes.ObjectsDelivered | meta/backend/internal/service/scan_service_new.go:729-807 | Whatever the keys, a scan of a whole bucket asks for one item for each object it counts. |
| EndToEnd.TakenYields | meta/backend/internal/service/scan_service_new.go:519-541 | With well-formed keys a bucket taken on yields a row if and only if some key is unreserved, and what is counted in it are the unreserved objects. |
| ScanService.ScanServiceNew.ScanResourceTwice | meta/backend/internal/service/scan_service_new.go:501-572 | The second of two automatic scans reports zero and leaves both tables as they are, also after failed schemas and for empty buckets. |
| AutoScans.OnceNothingAlwaysNothing | meta/backend/internal/scanner/s3_scanner.go:276-305 | Whether a bucket yields any row depends on its listing alone, not on the order of an answer. |
| AutoScans.NothingChanged | meta/backend/internal/service/scan_service_new.go:671-673 | A run whose answer yields no row changes no table. |
| ExplorerTree.GroupChildren | manager/backend/internal/service/metadata_service.go:130-137 | The map holds under each id exactly its child rows, in query order. |
| ExplorerTree.GroupItems | manager/backend/internal/service/metadata_service.go:139-143 | The map holds under each id exactly its items, in query order. |
| ExplorerTree.AppendItems | manager/backend/internal/service/metadata_service.go:239-262 | Appends one entry for each object item. |
| ExplorerTree.BuildObjectStorageTree | manager/backend/internal/service/metadata_service.go:219-272 | Terminates on every layered table and computes the level of a node, stably sorted. |
| ExplorerTree.ListBucketTrees | manager/backend/internal/service/metadata_service.go:130-166 | For each bucket row that holds anything, its tree, from the grouped queries. |
| ExplorerContents.SnapshotLayered | manager/backend/internal/service/metadata_service.go:219-222 | On a forest the recursion goes strictly deeper. |
| ExplorerContents.GroupedSnapshot | manager/backend/internal/repository/metadata_repository.go:367-408 | The grouped maps represent the queried tables. |
| ExplorerContents.TreeConserves | manager/backend/internal/service/metadata_service.go:219-272 | The tree of a row holds each descendant row once and each object of its subtree once. |
| ExplorerContents.TreeIsWellMade | manager/backend/internal/service/metadata_service.go:224-269 | Every level is sorted, directories first, and every entry shows its row's or item's own data. |
| ExplorerContents.LevelInOrder | manager/backend/internal/service/metadata_service.go:264-269 | In every level no object comes before a directory, and the names of each kind ascend character by character. |
| ExplorerContents.ObjectsShowItems | manager/backend/internal/service/metadata_service.go:239-262 | An object entry shows its item's id and name, its object size or else its size or else 0, and its full name or else its relative path. |
| ExplorerContents.LevelIsExact | manager/backend/internal/service/metadata_service.go:219-262 | A level consists of exactly the child rows and own objects of its row. |
| Sequences.SortStable | manager/backend/internal/service/metadata_service.go:264-269 | Entries the order does not separate keep their order. |
| GoStrings.StrLeIsAtMost | manager/backend/internal/service/metadata_service.go:264-269 | The order of names: a prefix comes first, otherwise the first character that differs decides. |
| LiveListing.CollectNodes | meta/backend/internal/scanner/s3_scanner.go:204-241 | One directory node for each first segment that leads further, one object node for each key of the directory. |
| LiveListing.DirNodes | meta/backend/internal/scanner/s3_scanner.go:243-246 | Each directory node once, in any order. |
| LiveListing.ListDirectory | meta/backend/internal/scanner/s3_scanner.go:243-253 | The filtered nodes, sorted by name. |
| LiveListing.ListBuckets | meta/backend/internal/scanner/s3_scanner.go:175-186 | Every allowed bucket once, sorted. |
| LiveListing.ListNodes | meta/backend/internal/scanner/s3_scanner.go:172-254 | The bucket list for a blank path; else a refusal, or the nodes of one directory. |
| LiveListing.ListedInOrder | meta/backend/internal/scanner/s3_scanner.go:252-252 | In every answer the names ascend character by character. |
| ListingAgreement.ListedDirs | meta/backend/internal/scanner/s3_scanner.go:210-228 | A live listing shows exactly the sub-directories that unreserved keys spell. |
| ListingAgreement.ListedObjects | meta/backend/internal/scanner/s3_scanner.go:230-240 | A live listing shows exactly the objects of the directory, with their sizes. |
| ListingAgreement.ReservedDirectoryIsEmpty | meta/backend/internal/scanner/s3_scanner.go:205-253 | A directory below a reserved segment is listed as empty. |
| CacheAgreement.CacheAgreesWithListing | manager/backend/internal/service/metadata_service.go:219-262 | After a whole-bucket scan, a directory's level in the rebuilt tree and the answer of ListNodes to the directory's path show the same labelled sub-directories and the same objects with the same sizes. |
| CacheAgreement.ListNodesOfDirectory | meta/backend/internal/scanner/s3_scanner.go:172-254 | Asked for the path of a directory of an allowed bucket, ListNodes lists that directory. |
| CacheAgreement.WholeLevelAgrees | manager/backend/internal/service/metadata_service.go:219-262 | All sub-directories of the level, labelled or not, are those of the listing if and only if no row without a path is left over under a name that the listing does not show. |
| CacheAgreement.TreeRoundTrip | manager/backend/internal/service/metadata_service.go:219-272 | End to end: the leaves of the bucket's tree are exactly the listed objects, each once, in the directory its key spells, under full name bucket/key and with its size. |
| ExplorerQueries.MetadataRepository.SelectTopNodes | manager/backend/internal/repository/metadata_repository.go:368-377 | Exactly the scanned rows at top level, each once, by resource and name. |
| ExplorerQueries.MetadataRepository.SelectChildNodes | manager/backend/internal/repository/metadata_repository.go:388-397 | Exactly the rows below top level of the given resources, each once, by depth and name. |
| ExplorerQueries.MetadataRepository.SelectItems | manager/backend/internal/repository/metadata_repository.go:399-406 | Exactly the items of the given resources, each once. |
| ExplorerQueries.MetadataRepository.ListScannedNodesAndItems | manager/backend/internal/repository/metadata_repository.go:366-409 | The three answers, for the resources of the scanned top rows. |
| ExplorerQueries.RowsInOrder | manager/backend/internal/repository/metadata_repository.go:366-409 | Top rows ascend by resource, the others by depth, and equal ones by name, character by character. |
| EndToEnd.TopNodesOf | manager/backend/internal/service/metadata_service.go:124-128 | Exactly the top rows of one resource. |
| EndToEnd.LevelPlaced | manager/backend/internal/service/metadata_service.go:219-262 | Every entry of a rebuilt level hangs under the names on its row's chain. |
| EndToEnd.LeavesAreListing | manager/backend/internal/service/metadata_service.go:219-272 | Flattening the rebuilt tree of a scanned bucket gives, as a multiset, one leaf for each listed object outside reserved segments: its key's directories and last segment, full name bucket/key, its size. |
| EndToEnd.ScanThenBrowse | meta/backend/internal/service/scan_service_new.go:657-727 | On any tables that are a forest, with a store that works and well-formed keys: the explorer shows exactly those leaves, and for markers alone none, in every group of the bucket's name if the resource has only its own buckets at top level; without a key outside reserved segments every table, so every shown tree, stays as it was. |
| EndToEnd.AnswerYields | meta/backend/internal/scanner/s3_scanner.go:400-445 | The scan of a bucket yields rows if and only if some key, an object's or a marker's, lies outside reserved segments. |
| EndToEnd.SameListingSameTrees | meta/backend/internal/service/scan_service_new.go:690-710 | Two runs over one listing leave the same directories, attributes included, and files, whatever the emission order and whatever the tables held before. |
| ScannerPaths.SplitInvertsJoin | meta/backend/internal/scanner/s3_scanner.go:469-491 | splitPath recovers bucket and inner path from what joinPath makes if and only if the bucket has no slash and no leading space and the name has no trailing slash or space. |
| ListedPaths.NodeOrigin | meta/backend/internal/scanner/s3_scanner.go:205-253 | Every listed node shows an object of the bucket, or a sub-directory that such an object's key makes known. |
| ListedPaths.LeafLeadsBack | meta/backend/internal/scanner/s3_scanner.go:193-253 | Whatever the keys, splitPath gives the bucket and the listed object's own key if and only if the bucket does not start and the name does not end with a space, and the key has neither a leading slash nor a doubled one before the name. |
| ListedPaths.DirLeadsBack | meta/backend/internal/scanner/s3_scanner.go:193-253 | Whatever the keys, a sub-directory's path splits into the bucket and the listed prefix with its name if and only if no space was trimmed and the prefix has no leading slash; the key that made it known lies in it if and only if that key has no doubled slash before the name. |
| ListedPaths.ListedPathSplits | meta/backend/internal/scanner/s3_scanner.go:469-491 | For every listed node splitPath undoes joinPath if and only if the bucket does not start and the name does not end with a space; where the joined path leads is the matter of the two rows above. |
| ListedPaths.ListedPathsLeadBack | meta/backend/internal/scanner/s3_scanner.go:193-253 | For well-formed keys in a bucket without leading space every listed path leads back: an object's to its own key, with its size, a sub-directory's to a directory that some listed key lies in. |
| ListedPaths.ListedBucketsSplit | meta/backend/internal/scanner/s3_scanner.go:175-186 | An entry of the bucket list leads back to its bucket if and only if the name has no slash and no outer space. |
| ListedPaths.SpaceLost | meta/backend/internal/scanner/s3_scanner.go:469-491 | Counterexample: the key "report " is listed under a path that does not lead back to it. |
| ListedPaths.SlashLost | meta/backend/internal/scanner/s3_scanner.go:469-491 | Counterexample: the listing of "b/a" shows the key "a//f" as "b/a/f", which leads to the key "a/f". |
| PathRoundTrips.PreviewFindsKey | manager/backend/internal/service/object_preview.go:55-62 | An object's full name comes back as its key if and only if the key does not start with the bucket's name and a slash; else without them. |
| PathRoundTrips.OwnItemLookedUp | manager/backend/internal/repository/metadata_repository.go:411-420 | An object's preview finds the object's own item if and only if its key does not start with the bucket's name and a slash. |
| PathRoundTrips.OtherItemLookedUp | manager/backend/internal/repository/metadata_repository.go:411-420 | It finds the item of another key if and only if the key is that other one behind the bucket's name and a slash, once or twice. |
| PathRoundTrips.LookedUpByBucketAndKey | manager/backend/internal/repository/metadata_repository.go:411-420 | A lookup meets an object if and only if it asks for the object's own bucket and for its key, alone or behind the bucket's name. |
| PathRoundTrips.WrongObjectShown | manager/backend/internal/service/object_preview.go:55-62 | Counterexample: in a bucket "b" the preview of "b/x" misses its item and finds that of "x". |
| PathRoundTrips.LookupIsExact | manager/backend/internal/repository/metadata_repository.go:411-420 | The lookup of such a key matches its own item and no other. |
| PathRoundTrips.LeafLeadsToItem | manager/frontend/src/utils/treeTransform.js:27-78 | Of the scanned trees' items the path sent for a leaf of the rebuilt tree meets that leaf's own item and no other if and only if the key does not start with the bucket's name and a slash; of all the resource's items the lookup answers that one if and only if, besides, none outside those trees that names this bucket and key has a smaller id. |
| AccountInvariants.RunKeeps | system/backend/internal/repository/database.go:62-109 | In every state reachable from the first start: SuperAdmin exists, is the only super administrator and has no tenant; tenant administrators have a tenant, at most one each; user tenants are alive; usernames, emails and tenant names are unique. |
| AccountInvariants.StepKeeps | system/backend/internal/service/user_service.go:20-297 | Every request, accepted or refused, keeps that invariant. |
| AccountInvariants.InitKeeps | system/backend/internal/repository/database.go:62-109 | Later starts of the system change nothing. |
| AccountInvariants.CreateTenantKeeps | system/backend/internal/service/tenant_service.go:26-92 | A tenant and its administrator join together. |
| AccountInvariants.DeleteTenantKeeps | system/backend/internal/service/tenant_service.go:163-194 | A tenant leaves together with all its users. |
| AccountInvariants.UpdateUserKeeps | system/backend/internal/service/user_service.go:143-227 | No update makes or moves an administrator, or takes a username or email already in use. |
| AccountInvariants.DeleteUserKeeps | system/backend/internal/service/user_service.go:229-266 | No deletion removes SuperAdmin. |
| AccountRules.WhoMayDelete | system/backend/internal/service/user_service.go:229-266 | In a reachable state an account is deleted by SuperAdmin or by the administrator of its tenant, never SuperAdmin's own nor the administrator's own; by nobody else. |
| AccountRules.WhoMayUpdate | system/backend/internal/service/user_service.go:143-227 | In a reachable state an update is accepted if and only if its email is free, its password can be hashed, and it comes from SuperAdmin without a change of type, from the administrator of the account's tenant making it a plain user at most, or from the account's own user without active flag or type. |
| AccountRules.WhoMayChangeResource | system/backend/internal/service/resource_service.go:121-191 | In a reachable state a resource is changed or deleted by SuperAdmin or by an administrator of its tenant, and by nobody else. |
| AccountRules.WhoMayAdd | system/backend/internal/service/user_service.go:20-66 | In a reachable state registrations and an administrator's new plain users are accepted if and only if name and email are free and the password can be hashed, and resources exactly from SuperAdmin and administrators. |
| AccountRules.WhoKeepsTenants | system/backend/internal/service/tenant_service.go:26-194 | In a reachable state tenants are created, updated and deleted by SuperAdmin and nobody else, under free names, with an administrator whose name and email are free. |
| TenantIsolation.WritesStayInTenant | system/backend/internal/service/user_service.go:198-266 | A request of anyone but the super administrator changes only rows of the actor's tenant or the actor's own row. |
| TenantIsolation.PlainUsersWriteThemselves | system/backend/internal/service/user_service.go:217-226 | A plain user changes at most the own row. |
| TenantIsolation.TenantsAreFixed | system/backend/internal/service/resource_service.go:121-166 | No request moves an existing user or resource to another tenant. |
| TenantIsolation.DeletedTenantsResources | system/backend/internal/service/tenant_service.go:181-193 | Whatever follows the deletion of a tenant, each of its resources that still exists can be reached by a super administrator and by nobody else. |
| TenantIsolation.OrphansStayOrphans | system/backend/internal/service/resource_service.go:362-376 | A resource of a deleted tenant can be reached by a super administrator and by nobody else, after any further requests. |
| TenantIsolation.ListsDoNotInterfere | system/backend/internal/service/resource_service.go:87-119 | What anyone but a super administrator may be shown depends on the resources of that user's tenant alone, for every offset and limit and whatever order rows come in. |
| TenantIsolation.UserPagesStayInTenant | system/backend/internal/service/user_service.go:120-141 | A page of users shows rows of the administrator's tenant, or the actor's own. |
| TenantIsolation.PagesAreClean | system/backend/internal/service/resource_service.go:328-352 | No page shows another tenant's resource or a sensitive value. |
| SystemServices.UserService.Register | system/backend/internal/service/user_service.go:268-297 | Reports success exactly when it has taken its step of the account state machine, else leaves every row; with a reliable database it succeeds exactly when the machine accepts the request. On success one row under a new id joins, a plain active user without tenant with the name, email, full name and password hash given; no other row changes. |
| SystemServices.UserService.Create | system/backend/internal/service/user_service.go:20-66 | The same; the row that joins is a plain active user of the administrator's tenant. |
| SystemServices.UserService.Update | system/backend/internal/service/user_service.go:143-195 | The same; on success each of email, full name and password hash, and for administrators of active flag, type and superuser flag, is the value given if one was given, else the old one; every other column and row stays. |
| SystemServices.UserService.Delete | system/backend/internal/service/user_service.go:229-266 | The same; on success exactly that row is gone. |
| SystemServices.UserService.List | system/backend/internal/service/user_service.go:120-141 | Answers a page of the administrator's tenant, nobody to a super administrator, the own row to anyone else; a page is the stretch of one order of the rows that its offset and limit mark, negative ones being left out; in reachable states the unchecked tenant pointer is set. |
| SystemServices.UserService.InitSuperAdmin | system/backend/internal/repository/database.go:62-109 | The same; on success the root row has the constant columns if it was missing, is given its type, flag and missing tenant if they were wrong, and is left alone otherwise. |
| SystemServices.TenantService.Create | system/backend/internal/service/tenant_service.go:26-92 | The same; tenant and administrator are both inserted or neither, with the columns given, the administrator active, in that tenant and of that type. |
| SystemServices.TenantService.Update | system/backend/internal/service/tenant_service.go:123-161 | The same; on success name, description and active flag are the values given, else the old ones, and nothing else changes. |
| SystemServices.TenantService.Delete | system/backend/internal/service/tenant_service.go:163-194 | The same; on success exactly the tenant and all its users are gone, otherwise nothing is. |
| SystemServices.ResourceService.Create | system/backend/internal/service/resource_service.go:32-64 | The same; the row that joins has the name, type, description and encrypted connection given, is active, and belongs to its creator and the creator's tenant. |
| SystemServices.ResourceService.List | system/backend/internal/service/resource_service.go:87-119 | Answers a masked page of the user's tenant, or of everything to a super administrator; with a type filter exactly the resources of that type take part; a page is the stretch of one order of the rows that its offset and limit mark. |
| AccountPages.PagesTile | system/backend/internal/repository/resource_repository.go:29-52 | For one order of the rows and size n >= 1, pages 1 to k, one after the other, are its first min(k n, all) rows. |
| AccountPages.PageBounds | system/backend/internal/repository/resource_repository.go:29-52 | A page past the end is empty, none is longer than its limit, and a negative offset or limit is as good as none. |
| AccountPages.ResourcePagesTile | system/backend/internal/service/resource_service.go:87-119 | Pages 1 to k of a user's resource list together show the first min(k n, all) of exactly the resources that user may see, of the filtered type if there is a filter, none left out and none twice. |
| AccountPages.ShownRows | system/backend/internal/service/resource_service.go:87-119 | Every answer of the resource list is such a page with its rows masked; it is refused exactly to an unknown user and to a user without tenant who is no super administrator. |
| AccountPages.MaskedRows | system/backend/internal/service/resource_service.go:328-352 | A masked row keeps every column and every field of its connection, but for the sensitive ones, which are struck out. |
| AccountPages.UserPagesTile | system/backend/internal/service/user_service.go:120-141 | Pages 1 to k of an administrator's user list together show the first min(k n, all) of exactly the accounts of the tenant. |
| SystemServices.SkippedIsStep | system/backend/internal/service/tenant_service.go:51-85 | What a refused or undone insert leaves behind, skipped ids, is a step of the state machine too, so every run of service calls is one of its runs. |
| SystemServices.ResourceService.Update | system/backend/internal/service/resource_service.go:121-166 | The same; on success name, description, active flag and connection are the values given, else the old ones, and nothing else changes. |
| SystemServices.ResourceService.Delete | system/backend/internal/service/resource_service.go:168-191 | The same; on success exactly that row is gone. |
| TablePreview.QueryTablePreview | manager/backend/internal/repository/metadata_repository.go:457-618 | The answer to a page in 64-bit arithmetic, and the limit and offset of the query issued for it, if any. |
| TablePreview.Select | manager/backend/internal/repository/metadata_repository.go:582-616 | What LIMIT and OFFSET select; negative values are refused. |
| TablePreview.PageIsRight | manager/backend/internal/repository/metadata_repository.go:547-571 | Without overflow a page shows its slice of the capped table, and the issued query has 0 <= offset, 0 < limit and offset + limit <= total; no query is issued for an empty slice. |
| TablePreview.PagesTile | manager/backend/internal/repository/metadata_repository.go:547-616 | The answers to pages 1 to n bring, one after the other, exactly the first n times page size rows below the cap. |
| TablePreview.LaterPagesEmpty | manager/backend/internal/repository/metadata_repository.go:547-571 | The answer to a page past the cap is empty. |
| TablePreview.OverflowingPage | manager/backend/internal/repository/metadata_repository.go:551-554 | If the product of page and size overflows, the answer is right if and only if the wrapped offset is past the cap. |
| TablePreview.FirstRowsReappear | manager/backend/internal/repository/metadata_repository.go:551-554 | Counterexample: a far page that shows the first rows again. |
| PreviewGuard.DataExplorer.LoadPreview | manager/frontend/src/views/DataExplorer.vue:73-87 | Issues the request of the current selection and page under the next id. |
| PreviewGuard.DataExplorer.ResumePreview | manager/frontend/src/views/DataExplorer.vue:88-110 | Asks for nothing; ignores all but the latest request, and otherwise shows its outcome and ends loading. |
| PreviewGuard.DataExplorer.HandleNodeClick | manager/frontend/src/views/DataExplorer.vue:116-120 | Asks for page 1 of the clicked node, with its resource and schema and its path, or its table if it has no path; the node becomes the selection. |
| PreviewGuard.DataExplorer.HandlePageChange | manager/frontend/src/views/DataExplorer.vue:125-128 | With a node selected asks for that page of it, with page size and ids as they were; else asks for nothing. |
| PreviewGuard.DataExplorer.HandleNavigate | manager/frontend/src/views/DataExplorer.vue:133-161 | With a node selected that has a schema and a resource asks for page 1 of that resource and schema under the child's path, or its name if it has none; else asks for nothing. |
| PreviewGuard.DataExplorer.ReloadTree | manager/frontend/src/views/DataExplorer.vue:53-62 | Asks for nothing, clears the selection and leaves the request counter as it was. |
| PreviewGuard.StaleResponsesNeverWin | manager/frontend/src/views/DataExplorer.vue:73-161 | Over every interleaving: when a node is selected and nothing is loading, the preview is the outcome of the last request, which was issued for that node and page, with that node's table metadata. |
| PreviewGuard.SettledShowsLast | manager/frontend/src/views/DataExplorer.vue:53-110 | Over every interleaving with tree reloads, once the last request has settled its outcome is shown if and only if a node is selected, or it failed, or the latest reload came while it was under way and it brought no table. |
| PreviewGuard.ShownUnselected | manager/frontend/src/views/DataExplorer.vue:53-110 | A preview is shown with nothing selected if and only if the latest reload came while the last request was under way and that request brought something other than a table. |
| PreviewGuard.ReloadBreaksTheGuard | manager/frontend/src/views/DataExplorer.vue:53-62 | Witness: a response after a tree reload is shown with nothing selected, or a table taken for a failure. |
| CsvPreview.ParseCSVLine | manager/frontend/public/plugins/example-csv-preview.js:134-154 | The loop computes the recursive parse. |
| CsvPreview.ParseReadsPieces | manager/frontend/public/plugins/example-csv-preview.js:134-154 | Every line, well formed or not, is read as its stretches between commas outside quotes, each without its quotes and the blanks around it. |
| CsvPreview.PiecesMakeLine | manager/frontend/public/plugins/example-csv-preview.js:134-154 | Those stretches, joined by commas, are the line. |
| CsvPreview.PiecesAreWhole | manager/frontend/public/plugins/example-csv-preview.js:134-154 | None of them holds a comma outside quotes. |
| CsvPreview.FieldCount | manager/frontend/public/plugins/example-csv-preview.js:134-154 | On every line there is one field more than there are commas outside quotes. |
| CsvPreview.ParseInvertsWrite | manager/frontend/public/plugins/example-csv-preview.js:134-154 | Reading inverts writing for every mixture of quoted and bare fields without quotes, surrounding blanks or bare commas. |
| CsvPreview.FieldsAreClean | manager/frontend/public/plugins/example-csv-preview.js:134-154 | No field read from any line holds a quote or has blanks around it. |
| CsvPreview.ReadsBackIffWritable | manager/frontend/public/plugins/example-csv-preview.js:134-154 | A line comes back if and only if every field has no quote, no surrounding blank and, when bare, no comma. |
| CsvPreview.CsvTable.ParseCSV | manager/frontend/public/plugins/example-csv-preview.js:97-131 | A blank file reports an error and leaves the former table in place; any other sets the header and one record for each further line. |
| CsvPreview.SplitLinesIsExact | manager/frontend/public/plugins/example-csv-preview.js:97-131 | Lines end exactly where the text has line ends: joined by them they are the text, and none holds one. |
| CsvPreview.ParseRecord | manager/frontend/public/plugins/example-csv-preview.js:115-121 | One record, a missing value being empty. |
| CsvPreview.RecordIsExact | manager/frontend/public/plugins/example-csv-preview.js:115-121 | With distinct columns a record has exactly them, each with its own value, but for a column named `__proto__`, which JavaScript drops. |

## Left out

- Timestamps, scan logs, soft deletion, the `status` and schedule columns, and the upsert of the `meta_resource` row: no property rests on them.
- Column widths and 64-bit counters of the metadata tables: counts and sizes are unbounded here; a name the database finds too long is one of its refusals.
- Attributes hold strings only; an object's file type, object count and modification time are not stored.
- Listing errors inside a channel of objects, which the scanner skips: a listing is complete here, so is the scanner's bucket configuration.
- The order in which SQL returns rows without ORDER BY: first rows are those with the least id, and the explorer's items are in id order; pages of users and resources may come in any order.
- Letter case in `node_type`, `item_type` and resource types: they are datatypes here.
- The relational half of the explorer tree (one sorted list per schema), the list of active resources around the buckets of one, and previews of schemas, buckets and prefixes.
- `makeNodeId` and other presentation of the browser tree; the page that the CSV component cuts from its table.
- Encryption, password hashing, tokens and authentication: their outcome, success or failure, is a parameter of the request.
- `GetByID`, `GetForConnection` and the internal, unauthorised variants of the resource service: one branch each.
- HTTP handlers, the gateway, configuration, database drivers, PostgreSQL and MySQL catalogue scanners, map views and the transfer module.
- Wrap-around of `(page - 1) * pageSize` in the lists of users and resources: offsets are unbounded there; what a page may hold is proved for every offset, negative ones included, which the database library leaves out of its queries.
- BucketScans.NeverPanics: for well-formed keys only; for arbitrary keys `ObjectStorageScanner.ScanBucket` states exactly when a panic happens.
- WholeBucketRun.ItemsAreListing: for runs over the path of one whole bucket with well-formed, distinct keys; over several buckets or prefixes the general results of `ScanRuns` and `ScanOutcomes` apply.
- ScanService.ScanServiceNew.ScanUnscannedBuckets: settles buckets whose names are single clean segments; other names are scanned again each time.
- TablePreview.PageIsRight: for caps up to half the integer range; the only caller passes 50.

/** A whole run of `scanObjectStoragePaths`: what the answers of the scanner ask for, and what the finished tables hold. */
module ScanRuns {
  import opened Options
  import opened GoStrings
  import opened ObjectKeys
  import opened Sequences
  import opened MetadataForest
  import opened NodeNames
  import opened NodePlacement
  import opened Deliveries
  import opened ScanSession
  import opened ScanSteps
  import opened ScanBuckets
  import Scanner = ObjectStorageScanner

  type ScanAnswer = Scanner.ScanAnswer

  // ---- What the answers ask for ------------------------------------------------------

  /** The rows of an answer that are filed: all of them, unless there are none or the first names no bucket. */
  function BatchOf(a: ScanAnswer): seq<ObjectMetadata> {
    if a.Metas? && |a.metas| > 0 && a.metas[0].bucket != "" then a.metas else []
  }

  /** The items of a batch, all under the bucket of its first row. */
  function BatchLog(metas: seq<ObjectMetadata>): seq<Delivery> {
    if metas == [] then [] else DeliveriesOf(metas[0].bucket, metas)
  }

  function BatchTree(metas: seq<ObjectMetadata>): set<seq<string>> {
    if metas == [] then {} else {[metas[0].bucket]} + DirectoriesOf(metas[0].bucket, metas)
  }

  /** What a batch writes on the rows of its bucket and directories. */
  function BatchLabels(metas: seq<ObjectMetadata>): map<seq<string>, Attributes> {
    if metas == [] then map[] else map[[metas[0].bucket] := BucketAttributes(metas[0].bucket)] + LabelsOf(metas[0].bucket, metas)
  }

  function BucketAttributes(bucket: string): Attributes {
    map["bucket" := bucket]
  }

  function BatchBucket(metas: seq<ObjectMetadata>): set<string> {
    if metas == [] then {} else {metas[0].bucket}
  }

  function LogOf(answers: seq<ScanAnswer>): seq<Delivery> {
    if answers == [] then [] else LogOf(answers[..|answers| - 1]) + BatchLog(BatchOf(answers[|answers| - 1]))
  }

  function TreeOf(answers: seq<ScanAnswer>): set<seq<string>> {
    if answers == [] then {} else TreeOf(answers[..|answers| - 1]) + BatchTree(BatchOf(answers[|answers| - 1]))
  }

  /** What a run writes on the rows of its directories: the last answer that names one decides. */
  function LabelTable(answers: seq<ScanAnswer>): map<seq<string>, Attributes> {
    if answers == [] then map[] else LabelTable(answers[..|answers| - 1]) + BatchLabels(BatchOf(answers[|answers| - 1]))
  }

  function BucketsOf(answers: seq<ScanAnswer>): set<string> {
    if answers == [] then {} else BucketsOf(answers[..|answers| - 1]) + BatchBucket(BatchOf(answers[|answers| - 1]))
  }

  lemma OneMoreAnswer(answers: seq<ScanAnswer>, a: ScanAnswer)
    ensures LogOf(answers + [a]) == LogOf(answers) + BatchLog(BatchOf(a))
    ensures TreeOf(answers + [a]) == TreeOf(answers) + BatchTree(BatchOf(a))
    ensures LabelTable(answers + [a]) == LabelTable(answers) + BatchLabels(BatchOf(a))
    ensures BucketsOf(answers + [a]) == BucketsOf(answers) + BatchBucket(BatchOf(a))
  {
    assert (answers + [a])[..|answers|] == answers;
  }

  /** The answers given so far, one for each path; only the last can be a panic. */
  ghost predicate Answered(scanner: Scanner.S3Scanner, paths: seq<string>, answers: seq<ScanAnswer>) {
    && |answers| <= |paths|
    && (forall k :: 0 <= k < |answers| ==> Scanner.IsScanAnswer(scanner, paths[k], answers[k]))
    && (forall k :: 0 <= k < |answers| - 1 ==> !answers[k].Panicked?)
  }

  /** The last answer given was a panic. */
  predicate EndsInPanic(answers: seq<ScanAnswer>) {
    answers != [] && answers[|answers| - 1].Panicked?
  }

  /** All answers but the last. */
  function Earlier(answers: seq<ScanAnswer>): seq<ScanAnswer> {
    if answers == [] then [] else answers[..|answers| - 1]
  }

  // ---- The paths of a run -----------------------------------------------------------------

  /** The non-empty paths that sanitising leaves. */
  function CleanPaths(paths: seq<string>): set<string> {
    set k | 0 <= k < |paths| && SanitizeObjectPath(paths[k]) != "" :: SanitizeObjectPath(paths[k])
  }

  /** Which list a run takes its paths from: those asked for, or else the fallback, or else every bucket. */
  function ChosenList(paths: seq<string>, fallback: seq<string>, buckets: seq<string>): seq<string> {
    if CleanPaths(paths) != {} then paths else if CleanPaths(fallback) != {} then fallback else buckets
  }

  function ChosenPaths(paths: seq<string>, fallback: seq<string>, buckets: seq<string>): set<string> {
    CleanPaths(ChosenList(paths, fallback, buckets))
  }

  /** The paths of a run: the cleaned paths asked for; if none is left, the cleaned fallback; if none is left, the cleaned buckets. */
  lemma ChosenPathsAre(paths: seq<string>, fallback: seq<string>, buckets: seq<string>, p: string)
    ensures p in ChosenPaths(paths, fallback, buckets) <==>
              && p != ""
              && (|| IsCleaned(paths, p)
                  || (NoneLeft(paths) && IsCleaned(fallback, p))
                  || (NoneLeft(paths) && NoneLeft(fallback) && IsCleaned(buckets, p)))
  {
    hide SanitizeObjectPath;
    LeftPaths(paths, p);
    LeftPaths(fallback, p);
    LeftPaths(buckets, p);
  }

  ghost predicate IsCleaned(paths: seq<string>, p: string) {
    exists k :: 0 <= k < |paths| && SanitizeObjectPath(paths[k]) == p
  }

  ghost predicate NoneLeft(paths: seq<string>) {
    forall k :: 0 <= k < |paths| ==> SanitizeObjectPath(paths[k]) == ""
  }

  lemma LeftPaths(paths: seq<string>, p: string)
    ensures p in CleanPaths(paths) <==> p != "" && IsCleaned(paths, p)
    ensures CleanPaths(paths) == {} <==> NoneLeft(paths)
  {
    hide SanitizeObjectPath;
    forall k | 0 <= k < |paths| && SanitizeObjectPath(paths[k]) != "" ensures SanitizeObjectPath(paths[k]) in CleanPaths(paths) {
    }
  }

  method CollectPaths(pathSet0: set<string>, paths: seq<string>) returns (pathSet: set<string>)
    ensures pathSet == pathSet0 + CleanPaths(paths)
  {
    hide SanitizeObjectPath;
    pathSet := pathSet0;
    var k := 0;
    while k < |paths|
      invariant 0 <= k <= |paths|
      invariant pathSet == pathSet0 + CleanPaths(paths[..k])
    {
      var clean := SanitizeObjectPath(paths[k]);
      assert forall j :: 0 <= j < k ==> paths[..k + 1][j] == paths[..k][j];
      assert paths[..k + 1][k] == paths[k];
      assert CleanPaths(paths[..k + 1]) == CleanPaths(paths[..k]) + (if clean != "" then {clean} else {});
      if clean != "" {
        pathSet := pathSet + {clean};
      }
      k := k + 1;
    }
    assert paths[..k] == paths;
  }

  lemma StringOrder()
    ensures TotalPreorder(StrLe)
  {
    forall a: string, b: string ensures StrLe(a, b) || StrLe(b, a) {
      StrLeTotal(a, b);
    }
    forall a: string, b: string, c: string | StrLe(a, b) && StrLe(b, c) ensures StrLe(a, c) {
      StrLeTransitive(a, b, c);
    }
  }

  /** `prepareObjectPaths`: the chosen paths, each once, sorted. */
  method PrepareObjectPaths(paths: seq<string>, fallback: seq<string>, buckets: seq<string>) returns (result: seq<string>)
    ensures Sorted(result, StrLe) && NoDuplicates(result)
    ensures forall p :: p in result <==> p in ChosenPaths(paths, fallback, buckets)
  {
    hide CleanPaths, StrLe;
    var pathSet := CollectPaths({}, paths);
    if pathSet == {} {
      pathSet := CollectPaths(pathSet, fallback);
    }
    if pathSet == {} {
      pathSet := CollectPaths(pathSet, buckets);
    }
    result := [];
    var todo := pathSet;
    while todo != {}
      invariant todo <= pathSet && NoDuplicates(result)
      invariant forall p :: p in result <==> p in pathSet - todo
    {
      var p :| p in todo;
      NoDuplicatesSnoc(result, p);
      result := result + [p];
      todo := todo - {p};
    }
    StringOrder();
    var sorted := SortSlice(result, StrLe);
    PermutationKeepsDistinct(result, sorted);
    forall p: string ensures p in sorted <==> p in result {
      PermutationMembers(result, sorted, p);
    }
    result := sorted;
  }

  // ---- The buckets taken on ------------------------------------------------------------

  /** `bucketNodes` holds the scanned buckets' rows by name. */
  ghost predicate Registered(s: Scan, bucketNodes: map<string, Node>) {
    && (forall b {:trigger b in bucketNodes} :: b in bucketNodes ==>
          bucketNodes[b].name == b && IsScannedBucket(s, bucketNodes[b]))
    && (forall r {:trigger r in s.roots} :: r in s.roots ==>
          r in s.nodes && s.nodes[r].name in bucketNodes && bucketNodes[s.nodes[r].name].id == r)
  }

  lemma StillRegistered(s: Scan, s': Scan, bucketNodes: map<string, Node>)
    requires SameRun(s, s') && Registered(s, bucketNodes)
    ensures Registered(s', bucketNodes)
  {
    forall b | b in bucketNodes ensures bucketNodes[b].name == b && IsScannedBucket(s', bucketNodes[b]) {
      StillScanned(s, s', bucketNodes[b]);
    }
  }

  lemma ScannedStays(s: Scan, s': Scan, b: Node, m: Node)
    requires BucketAdded(s, s', b) && IsScannedBucket(s, m)
    ensures IsScannedBucket(s', m)
  {
    assert m.id in s.roots;
  }

  lemma RootRegistered(s: Scan, s': Scan, bucketNodes: map<string, Node>, b: Node, n: Node, r: nat)
    requires BucketAdded(s, s', b) && Registered(s, bucketNodes) && b.id == n.id && b.name == n.name && n.name !in bucketNodes
    requires r in s'.roots
    ensures r in s'.nodes && s'.nodes[r].name in bucketNodes[n.name := n] && bucketNodes[n.name := n][s'.nodes[r].name].id == r
  {
    hide IsScannedBucket;
  }

  lemma NewlyRegistered(s: Scan, s': Scan, bucketNodes: map<string, Node>, b: Node, n: Node)
    requires BucketAdded(s, s', b) && Registered(s, bucketNodes) && b.id == n.id && b.name == n.name && n.name !in bucketNodes
    requires IsScannedBucket(s', n)
    ensures Registered(s', bucketNodes[n.name := n])
  {
    hide IsScannedBucket, BucketAdded;
    var bucketNodes' := bucketNodes[n.name := n];
    forall r | r in s'.roots
      ensures r in s'.nodes && s'.nodes[r].name in bucketNodes' && bucketNodes'[s'.nodes[r].name].id == r
    {
      RootRegistered(s, s', bucketNodes, b, n, r);
    }
    forall c | c in bucketNodes' ensures bucketNodes'[c].name == c && IsScannedBucket(s', bucketNodes'[c]) {
      if c != n.name {
        assert c in bucketNodes;
        ScannedStays(s, s', b, bucketNodes[c]);
      }
    }
  }

  // ---- Taking on a bucket ----------------------------------------------------------------

  ghost predicate NotYetScanned(s: Scan, bucket: string) {
    forall r {:trigger r in s.roots} :: r in s.roots ==> r in s.nodes && s.nodes[r].name != bucket
  }

  /** The id sequence is past every row of the start. */
  ghost predicate StartIds(s: Scan, next: nat) {
    forall i {:trigger i in s.nodes0} :: i in s.nodes0 ==> i < next
  }

  /** The bucket's row is marked and cleared, and nothing else has changed. */
  ghost predicate BucketOpened(s: Scan, s': Scan, n: Node, bucket: string) {
    && n.id in s'.nodes && BucketAdded(s, s', s'.nodes[n.id]) && IsScannedBucket(s', n)
    && n.name == bucket && s'.nodes[n.id].name == bucket && s'.nodes[n.id].status == Scanning && s'.nodes[n.id].attrs == n.attrs
    && Chains(s'.nodes, s'.names) == Chains(s.nodes, s.names) + {[bucket]}
    && Relabelled(s, s', map[[bucket] := n.attrs])
  }

  /** Those of these rows that were there at the start were top-level buckets of the resource. */
  ghost predicate OnlyBuckets(nodes0: Nodes, metaRes: MetaResource, touched: set<nat>) {
    forall r {:trigger r in touched} :: r in touched && r in nodes0 ==>
      nodes0[r].parent == None && nodes0[r].kind == BucketNode && nodes0[r].tenant == metaRes.tenant && nodes0[r].res == metaRes.id
  }

  ghost predicate IsBucketUpsert(s: Scan, nodes': Nodes, n: Node, bucket: string) {
    IsUpserted(s.nodes, nodes', n, s.metaRes, None, BucketNode, bucket, bucket)
  }

  /** The bucket's row as its lookup left it. */
  ghost predicate IsBucketFound(s: Scan, nodes: Nodes, n: Node, bucket: string) {
    && nodes == s.nodes[n.id := n] && n.id !in s.roots && bucket != ""
    && n.parent == None && n.kind == BucketNode && n.tenant == s.metaRes.tenant && n.res == s.metaRes.id && n.name == bucket
    && !Stranded(n) && Forest(nodes, s.items)
    && (n.id in s.nodes ==> SameAddress(s.nodes[n.id], n))
    && (n.id in s.nodes0 ==> n.id in s.nodes)
  }

  lemma BucketUpserted(s: Scan, nodes': Nodes, n: Node, bucket: string, next: nat)
    requires IsBucketUpsert(s, nodes', n, bucket) && bucket != "" && NotYetScanned(s, bucket) && StartIds(s, next)
    requires n.id !in s.nodes ==> n.id >= next
    ensures IsBucketFound(s, nodes', n, bucket)
  {
    UpsertedKeepsForest(s.nodes, s.items, nodes', n, s.metaRes, None, BucketNode, bucket, bucket);
  }

  lemma ScanOnlyBuckets(s: Scan)
    ensures OnlyBuckets(s.nodes0, s.metaRes, s.roots)
  {
    forall r | r in s.roots && r in s.nodes0
      ensures s.nodes0[r].parent == None && s.nodes0[r].kind == BucketNode
      ensures s.nodes0[r].tenant == s.metaRes.tenant && s.nodes0[r].res == s.metaRes.id
    {
      assert r in s.nodes && SameAddress(s.nodes0[r], s.nodes[r]);
      assert LinkedRow(s.nodes, r);
    }
  }

  lemma FoundOnlyBuckets(s: Scan, nodes: Nodes, n: Node, bucket: string)
    requires IsBucketFound(s, nodes, n, bucket)
    ensures OnlyBuckets(s.nodes0, s.metaRes, s.roots + {n.id})
  {
    ScanOnlyBuckets(s);
    assert n.id in s.names ==> NamedRow(s.nodes, s.roots, s.names, n.id);
    if n.id in s.nodes0 {
      assert s.nodes[n.id] == s.nodes0[n.id];
    }
  }

  function Marked(n: Node): Node {
    n.(status := Scanning, errorMessage := "")
  }

  lemma MarkedForest(nodes: Nodes, items: Items, id: nat)
    requires Forest(nodes, items) && id in nodes && !Stranded(nodes[id])
    ensures Forest(nodes[id := Marked(nodes[id])], items)
  {
    assert LinkedRow(nodes, id) && LabelledRow(nodes, id);
    RepairKeepsForest(nodes, items, Marked(nodes[id]));
  }

  lemma BucketMarked(s: Scan, nodes: Nodes, n: Node, bucket: string)
    requires IsBucketFound(s, nodes, n, bucket)
    ensures n.id in nodes && IsBucketFound(s, nodes[n.id := Marked(nodes[n.id])], Marked(n), bucket)
    ensures IsFreshBucket(s.nodes, nodes[n.id := Marked(nodes[n.id])], s.metaRes, s.roots, Marked(n))
    ensures Current(nodes[n.id := Marked(nodes[n.id])], n) && Marked(nodes[n.id]) == nodes[n.id].(status := Scanning, errorMessage := "")
  {
    MarkedForest(nodes, s.items, n.id);
  }

  /** A failure before anything is deleted. */
  lemma BucketNotCleared(s: Scan, nodes: Nodes, n: Node, bucket: string)
    requires IsBucketFound(s, nodes, n, bucket)
    ensures Forest(nodes, s.items) && Linked(nodes)
    ensures OnlyBuckets(s.nodes0, s.metaRes, s.roots + {n.id})
    ensures Untouched(s.nodes0, s.items0, s.roots + {n.id}, nodes, s.items)
  {
    FoundOnlyBuckets(s, nodes, n, bucket);
    BucketRefused(s, n.id, nodes);
  }

  lemma BucketLost(s: Scan, nodes': Nodes, bucket: string)
    requires nodes' == s.nodes || LeftStranded(s.nodes, nodes', s.metaRes, None, BucketNode, bucket)
    ensures Forest(nodes', s.items) && OnlyBuckets(s.nodes0, s.metaRes, s.roots)
    ensures Untouched(s.nodes0, s.items0, s.roots, nodes', s.items)
  {
    ScanOnlyBuckets(s);
    ScanUntouched(s);
    if nodes' != s.nodes {
      var n: Node :| nodes' == s.nodes[n.id := n] && Stranded(n) && n.depth == 1 && IsNewRow(s.nodes, n, s.metaRes, None, BucketNode, bucket);
      StrandedKeepsForest(s.nodes, s.items, n, s.metaRes, None, BucketNode, bucket, bucket);
    }
  }

  lemma BucketCleared(s: Scan, nodes: Nodes, n: Node, bucket: string, nodes': Nodes, items3: Items, items': Items) returns (s': Scan)
    requires IsBucketFound(s, nodes, Marked(n), bucket) && IsFreshBucket(s.nodes, nodes, s.metaRes, s.roots, Marked(n))
    requires Current(nodes, n) && Linked(nodes) && ClearedBelow(nodes, s.items, n.id, nodes', items3)
    requires items' == ItemsOutside(items3, {n.id}) && Forest(nodes', items')
    ensures BucketOpened(s, s', n, bucket) && s'.nodes == nodes' && s'.items == items'
    ensures OnlyBuckets(s.nodes0, s.metaRes, s.roots + {n.id})
    ensures Untouched(s.nodes0, s.items0, s.roots + {n.id}, nodes', items3)
  {
    hide Forest, IsFreshBucket, Wiped, ClearedBelow, Untouched, OnlyBuckets, Linked, Chains, Labels, Relabelled;
    var b := Marked(n);
    ClearedThenWiped(nodes, s.items, n.id, nodes', items3);
    s' := BucketKeepsScan(s, b, nodes, nodes', items');
    BucketChainSet(s, b, nodes, nodes', items');
    BucketLabelSet(s, b, nodes, nodes', items', s');
    RelabelledOne(s, s', [bucket], n.attrs);
    FoundOnlyBuckets(s, nodes, b, bucket);
    BucketHalfCleared(s', nodes', items3);
  }

  // ---- Finishing -------------------------------------------------------------------------

  function Finished(n: Node, agg: Aggregate): Node {
    n.(status := Scanned, itemCount := agg.itemCount, totalSize := agg.totalSize, errorMessage := "")
  }

  /** The rows in `done` carry their counters, the others are untouched. */
  function FinishedNodes(nodes: Nodes, stats: Stats, done: set<nat>): Nodes {
    map i | i in nodes :: if i in done then Finished(nodes[i], AggregateOf(stats, i)) else nodes[i]
  }

  lemma FinishOneMore(nodes: Nodes, stats: Stats, done: set<nat>, id: nat)
    requires id in nodes
    ensures FinishedNodes(nodes, stats, done)[id := Finished(FinishedNodes(nodes, stats, done)[id], AggregateOf(stats, id))]
            == FinishedNodes(nodes, stats, done + {id})
  {
  }

  lemma FinishedPlaced(nodes: Nodes, stats: Stats, done: set<nat>, i: nat)
    requires Linked(nodes) && Labelled(nodes) && i in nodes && (i in done ==> !Stranded(nodes[i]))
    ensures i in FinishedNodes(nodes, stats, done)
    ensures LinkedRow(FinishedNodes(nodes, stats, done), i) && LabelledRow(FinishedNodes(nodes, stats, done), i)
  {
    assert LinkedRow(nodes, i) && LabelledRow(nodes, i);
  }

  lemma FinishedItems(nodes: Nodes, items: Items, stats: Stats, done: set<nat>)
    requires UniqueAddresses(nodes) && ItemsPlaced(nodes, items)
    ensures UniqueAddresses(FinishedNodes(nodes, stats, done)) && ItemsPlaced(FinishedNodes(nodes, stats, done), items)
  {
    var nodes' := FinishedNodes(nodes, stats, done);
    forall i, j | ShareAddress(nodes', i, j) ensures i == j {
      assert ShareAddress(nodes, i, j);
    }
    forall t | t in items ensures ItemRow(nodes', items, t) {
      assert ItemRow(nodes, items, t);
    }
  }

  /** Finishing labelled rows of the scanned trees keeps the forest. */
  lemma FinishedForest(s: Scan, done: set<nat>)
    requires done <= s.stats.Keys + s.roots
    ensures Forest(FinishedNodes(s.nodes, s.stats, done), s.items)
  {
    hide LinkedRow, LabelledRow, UniqueAddresses, ItemsPlaced;
    assert Rooted(s.nodes, s.metaRes, s.roots);
    FinishedItems(s.nodes, s.items, s.stats, done);
    forall i | i in s.nodes
      ensures LinkedRow(FinishedNodes(s.nodes, s.stats, done), i) && LabelledRow(FinishedNodes(s.nodes, s.stats, done), i)
    {
      assert i in done ==> i in s.stats || i in s.roots;
      FinishedPlaced(s.nodes, s.stats, done, i);
    }
  }

  lemma FinishedNaming(s: Scan, done: set<nat>)
    ensures IsNaming(FinishedNodes(s.nodes, s.stats, done), s.roots, s.names)
    ensures Rooted(FinishedNodes(s.nodes, s.stats, done), s.metaRes, s.roots)
  {
    hide Forest, Stored, Tallied, CountersPlaced, RowsKept, RootsKept, ItemsKept, Unfinished;
    var nodes' := FinishedNodes(s.nodes, s.stats, done);
    forall i | i in s.names ensures NamedRow(nodes', s.roots, s.names, i) {
      assert NamedRow(s.nodes, s.roots, s.names, i);
    }
    forall i | i in nodes' && nodes'[i].parent.Some? && nodes'[i].parent.value in s.names ensures i in s.names {
      assert s.nodes[i].parent == nodes'[i].parent;
    }
  }

  lemma FinishedKept(s: Scan, done: set<nat>)
    requires done <= s.stats.Keys + s.roots
    ensures RowsKept(s.nodes0, s.roots, FinishedNodes(s.nodes, s.stats, done), s.names)
    ensures RootsKept(s.nodes0, s.roots, FinishedNodes(s.nodes, s.stats, done))
  {
    var nodes' := FinishedNodes(s.nodes, s.stats, done);
    assert forall i {:trigger i in done} :: i in done ==> i in s.names;
    forall i: nat | i in nodes' && i !in s.names ensures Bystander(s.nodes0, s.roots, i) && nodes'[i] == s.nodes0[i] {
      assert s.nodes[i] == s.nodes0[i];
    }
  }

  lemma FinishedUntouched(s: Scan, done: set<nat>)
    requires done <= s.stats.Keys + s.roots
    ensures Untouched(s.nodes0, s.items0, s.roots, FinishedNodes(s.nodes, s.stats, done), s.items)
  {
    var nodes' := FinishedNodes(s.nodes, s.stats, done);
    ScanUntouched(s);
    FinishedKept(s, done);
    forall i: nat | Bystander(s.nodes0, s.roots, i) ensures i in nodes' && nodes'[i] == s.nodes0[i] {
      assert s.nodes[i] == s.nodes0[i];
    }
  }

  // ---- The outcome --------------------------------------------------------------------------

  /** A finished row: scanned, and counting what was delivered at or below its directory.  A stranded row is left unscanned. */
  ghost predicate FinishedRow(n: Node, chain: seq<string>, log: seq<Delivery>) {
    Stranded(n) || (n.status == Scanned && n.itemCount == TallyCount(log, chain) && n.totalSize == TallySize(log, chain) && n.errorMessage == "")
  }

  ghost predicate IsOutcome(s: Scan, nodes: Nodes, items: Items) {
    && Forest(nodes, items) && IsNaming(nodes, s.roots, s.names) && Rooted(nodes, s.metaRes, s.roots)
    && Stored(items, s.names, s.log)
    && RootsKept(s.nodes0, s.roots, nodes)
    && RowsKept(s.nodes0, s.roots, nodes, s.names) && ItemsKept(s.nodes0, s.items0, s.roots, items, s.names)
    && (forall i {:trigger s.names[i]} :: i in s.names ==> i in nodes && FinishedRow(nodes[i], s.names[i], s.log))
    && Chains(nodes, s.names) == Chains(s.nodes, s.names) && Labels(nodes, s.names) == Labels(s.nodes, s.names)
  }

  lemma FinishedRows(s: Scan, i: nat)
    requires i in s.names
    ensures i in s.nodes && FinishedRow(FinishedNodes(s.nodes, s.stats, s.stats.Keys + s.roots)[i], s.names[i], s.log)
  {
    assert NamedRow(s.nodes, s.roots, s.names, i);
  }

  lemma FinishedChains(s: Scan, done: set<nat>)
    ensures Chains(FinishedNodes(s.nodes, s.stats, done), s.names) == Chains(s.nodes, s.names)
  {
    var nodes' := FinishedNodes(s.nodes, s.stats, done);
    forall i | i in s.nodes ensures i in nodes' && Stranded(nodes'[i]) == Stranded(s.nodes[i]) {
    }
  }

  lemma FinishedLabels(s: Scan, done: set<nat>)
    ensures Labels(FinishedNodes(s.nodes, s.stats, done), s.names) == Labels(s.nodes, s.names)
  {
    DistinctNames(s);
    FinishedChains(s, done);
    hide Chains, Labels, ScanState.Consistent, DistinctChains;
    var nodes' := FinishedNodes(s.nodes, s.stats, done);
    LabelKeys(s.nodes, s.names);
    forall i | i in s.names && i in nodes' && !Stranded(nodes'[i]) && s.names[i] in Labels(s.nodes, s.names)
      ensures Labels(s.nodes, s.names)[s.names[i]] == nodes'[i].attrs
    {
      LabelOfRow(s.nodes, s.names, i);
    }
    LabelsAre(nodes', s.names, Labels(s.nodes, s.names));
  }

  lemma RunConcluded(s: Scan)
    ensures IsOutcome(s, FinishedNodes(s.nodes, s.stats, s.stats.Keys + s.roots), s.items)
  {
    hide Forest, IsNaming, Rooted, Stored, RowsKept, RootsKept, ItemsKept, Chains, FinishedRow, FinishedNodes, Labels;
    var done := s.stats.Keys + s.roots;
    FinishedForest(s, done);
    FinishedNaming(s, done);
    FinishedKept(s, done);
    FinishedChains(s, done);
    FinishedLabels(s, done);
    FinishedKeys(s, done);
    forall i | i in s.names
      ensures i in FinishedNodes(s.nodes, s.stats, done) && FinishedRow(FinishedNodes(s.nodes, s.stats, done)[i], s.names[i], s.log)
    {
      FinishedRows(s, i);
    }
  }

  lemma FinishedKeys(s: Scan, done: set<nat>)
    ensures FinishedNodes(s.nodes, s.stats, done).Keys == s.nodes.Keys
  {
  }

  lemma CounterRow(s: Scan, id: nat)
    requires id in s.stats
    ensures id in s.nodes
  {
  }

  /** The columns `finalizeNodeState` writes. */
  lemma FinishedStep(s: Scan, nodes: Nodes, done: set<nat>, id: nat, itemCount: int, totalSize: int)
    requires id in s.nodes && nodes == FinishedNodes(s.nodes, s.stats, done)
    requires AggregateOf(s.stats, id) == Aggregate(itemCount, totalSize)
    ensures id in nodes
    ensures nodes[id := nodes[id].(status := Scanned, itemCount := itemCount, totalSize := totalSize, errorMessage := "")]
            == FinishedNodes(s.nodes, s.stats, done + {id})
  {
    FinishOneMore(s.nodes, s.stats, done, id);
  }

  lemma NothingFinished(s: Scan)
    ensures FinishedNodes(s.nodes, s.stats, {}) == s.nodes
  {
  }

  lemma StatedAggregate(stats: Stats, id: nat)
    ensures id in stats ==> AggregateOf(stats, id) == Aggregate(stats[id].itemCount, stats[id].totalSize)
    ensures id !in stats ==> AggregateOf(stats, id) == Aggregate(0, 0)
  {
  }

  lemma RegisteredBucket(s: Scan, bucketNodes: map<string, Node>, b: string)
    requires Registered(s, bucketNodes) && b in bucketNodes
    ensures bucketNodes[b].id in s.roots && bucketNodes[b].id in s.nodes && bucketNodes[b].name == b && IsScannedBucket(s, bucketNodes[b])
  {
  }

  lemma AllBucketsDone(s: Scan, bucketNodes: map<string, Node>, done: set<nat>)
    requires Registered(s, bucketNodes) && s.stats.Keys <= done <= s.stats.Keys + s.roots
    requires forall b :: b in bucketNodes ==> bucketNodes[b].id in done
    ensures done == s.stats.Keys + s.roots
  {
  }

  // ---- Turns of the loop over paths ------------------------------------------------------------

  lemma StartScan(nodes: Nodes, items: Items, metaRes: MetaResource) returns (s: Scan)
    requires Forest(nodes, items)
    ensures s == ScanState(nodes, items, metaRes, nodes, items, {}, map[], [], map[])
    ensures Registered(s, map[]) && InProgress(s) && IsExact(s, [], {}, 0)
  {
    hide *;
    StartConsistent(nodes, items, metaRes);
    var raw := ScanState(nodes, items, metaRes, nodes, items, {}, map[], [], map[]);
    s := raw;
    NothingTaken(s);
    StartExact(s);
  }

  lemma NothingTaken(s: Scan)
    requires s.roots == {}
    ensures Registered(s, map[]) && InProgress(s)
  {
    hide ScanState.Consistent;
  }

  lemma StartExact(s: Scan)
    requires s.names == map[] && s.log == []
    ensures IsExact(s, [], {}, 0)
  {
    hide ScanState.Consistent, Labels;
    LabelKeys(s.nodes, s.names);
    assert Labels(s.nodes, s.names) == map[];
  }

  lemma StartConsistent(nodes: Nodes, items: Items, metaRes: MetaResource)
    requires Forest(nodes, items)
    ensures ScanState(nodes, items, metaRes, nodes, items, {}, map[], [], map[]).Consistent()
  {
  }

  ghost predicate SameOrigin(s: Scan, s': Scan) {
    s'.nodes0 == s.nodes0 && s'.items0 == s.items0 && s'.metaRes == s.metaRes
  }

  /** Everything the answers so far ask for, and nothing else, has been filed. */
  ghost predicate IsExact(s: Scan, answers: seq<ScanAnswer>, buckets: set<string>, objects: nat) {
    && s.log == LogOf(answers) && objects == |LogOf(answers)|
    && Chains(s.nodes, s.names) == TreeOf(answers) && buckets == BucketsOf(answers)
    && Labels(s.nodes, s.names) == LabelTable(answers)
  }

  /** One turn's share of it. */
  ghost predicate IsBatchExact(s0: Scan, s: Scan, metas: seq<ObjectMetadata>, objects: nat) {
    && s.log == s0.log + BatchLog(metas) && objects == |BatchLog(metas)|
    && Chains(s.nodes, s.names) == Chains(s0.nodes, s0.names) + BatchTree(metas)
    && Relabelled(s0, s, BatchLabels(metas))
  }

  lemma ExactTurn(s0: Scan, s: Scan, answers: seq<ScanAnswer>, a: ScanAnswer, buckets: set<string>, objects: nat, more: nat)
    requires IsExact(s0, answers, buckets, objects) && IsBatchExact(s0, s, BatchOf(a), more)
    ensures IsExact(s, answers + [a], buckets + BatchBucket(BatchOf(a)), objects + more)
  {
    hide Chains, Labels, ScanState.Consistent, BatchOf, BatchLog, BatchTree, BatchLabels, BatchBucket;
    OneMoreAnswer(answers, a);
  }

  lemma IdleTurn(s: Scan)
    ensures IsBatchExact(s, s, [], 0)
  {
    NothingRelabelled(s);
  }

  /** Every bucket taken on is marked as being scanned, and names itself. */
  ghost predicate InProgress(s: Scan) {
    forall r {:trigger r in s.roots} :: r in s.roots ==>
      r in s.nodes && s.nodes[r].status == Scanning && s.nodes[r].attrs == BucketAttributes(s.nodes[r].name)
  }

  /** What a run leaves that is cut short between two paths: the buckets of the answers so far are still being scanned, the
      directories below them unfinished and without counters, and every item delivered is stored. */
  ghost predicate IsInterrupted(s: Scan, nodes: Nodes, items: Items, answers: seq<ScanAnswer>) {
    && nodes == s.nodes && items == s.items && InProgress(s) && Unfinished(nodes, s.roots, s.names) && Stored(items, s.names, s.log)
    && forall b :: b in BucketsOf(answers) <==> exists r :: r in s.roots && r in nodes && nodes[r].name == b
  }

  lemma RunInterrupted(s: Scan, bucketNodes: map<string, Node>, answers: seq<ScanAnswer>)
    requires InProgress(s) && Registered(s, bucketNodes) && bucketNodes.Keys == BucketsOf(answers)
    ensures IsInterrupted(s, s.nodes, s.items, answers)
  {
    hide IsScannedBucket, Unfinished, Stored, BucketsOf;
    InterruptedParts(s);
    forall b ensures b in bucketNodes <==> exists r :: r in s.roots && r in s.nodes && s.nodes[r].name == b {
      if b in bucketNodes {
        RegisteredRow(s, bucketNodes, b);
      }
    }
  }

  /** The scanner's panic has cut a run short after its earlier answers. */
  ghost predicate IsPanicked(scanner: Scanner.S3Scanner, paths: seq<string>, answers: seq<ScanAnswer>, s: Scan, nodes: Nodes, items: Items,
                             objects: nat, exact: bool) {
    && Answered(scanner, paths, answers) && EndsInPanic(answers) && IsInterrupted(s, nodes, items, Earlier(answers))
    && (exact ==> IsExact(s, Earlier(answers), BucketsOf(Earlier(answers)), objects))
  }

  lemma PanickedMeans(scanner: Scanner.S3Scanner, paths: seq<string>, answers: seq<ScanAnswer>, s: Scan, nodes: Nodes, items: Items,
                      objects: nat, exact: bool)
    ensures IsPanicked(scanner, paths, answers, s, nodes, items, objects, exact) <==>
              && Answered(scanner, paths, answers) && EndsInPanic(answers) && IsInterrupted(s, nodes, items, Earlier(answers))
              && (exact ==> IsExact(s, Earlier(answers), BucketsOf(Earlier(answers)), objects))
  {
    hide Answered, EndsInPanic, Earlier, IsInterrupted, IsExact, BucketsOf, ScanState.Consistent;
  }

  /** A run cut short: its tables, and what lies outside its trees. */
  lemma CutShort(scanner: Scanner.S3Scanner, paths: seq<string>, answers: seq<ScanAnswer>, a: ScanAnswer, s: Scan, nodes: Nodes, items: Items,
                 bucketNodes: map<string, Node>, stats: Stats, objects: nat, exact: bool)
    requires IsAsked(scanner, paths, answers, s, bucketNodes.Keys, objects, exact) && |answers| < |paths|
    requires Scanner.IsScanAnswer(scanner, paths[|answers|], a) && a.Panicked?
    requires IsRunning(s, nodes, items, bucketNodes, stats)
    ensures IsPanicked(scanner, paths, answers + [a], s, nodes, items, objects, exact) && Forest(nodes, items)
    ensures OnlyBuckets(s.nodes0, s.metaRes, s.roots) && Untouched(s.nodes0, s.items0, s.roots, nodes, items)
  {
    hide *;
    LastAnswer(scanner, paths, answers, a, s, bucketNodes.Keys, objects, exact);
    RunningMeans(s, nodes, items, bucketNodes, stats);
    RunInterrupted(s, bucketNodes, answers);
    PanickedMeans(scanner, paths, answers + [a], s, nodes, items, objects, exact);
    ScanOnlyBuckets(s);
    ScanUntouched(s);
    ScanForest(s);
  }

  lemma InterruptedParts(s: Scan)
    ensures Unfinished(s.nodes, s.roots, s.names) && Stored(s.items, s.names, s.log)
  {
  }

  lemma RegisteredRow(s: Scan, bucketNodes: map<string, Node>, b: string)
    requires Registered(s, bucketNodes) && b in bucketNodes
    ensures bucketNodes[b].id in s.roots && bucketNodes[b].id in s.nodes && s.nodes[bucketNodes[b].id].name == b
  {
  }

  /** The bucket of a batch has its row: just opened, or opened by an earlier path. */
  ghost predicate BucketReady(s0: Scan, s: Scan, n: Node, bucket: string) {
    && SameOrigin(s0, s) && s.log == s0.log && s.stats == s0.stats && IsScannedBucket(s, n) && n.name == bucket
    && InProgress(s)
    && Chains(s.nodes, s.names) == Chains(s0.nodes, s0.names) + {[bucket]}
    && Relabelled(s0, s, map[[bucket] := BucketAttributes(bucket)])
  }

  lemma ReadyFacts(s0: Scan, s: Scan, n: Node, bucket: string)
    requires BucketReady(s0, s, n, bucket)
    ensures s.metaRes == s0.metaRes && s.stats == s0.stats && IsScannedBucket(s, n) && n.name == bucket
  {
  }

  lemma BucketAttributesAre(bucket: string)
    ensures BucketAttributes(bucket) == map["bucket" := bucket] && "bucket" in map["bucket" := bucket]
  {
  }

  lemma KnownBucketReady(s: Scan, n: Node, bucket: string)
    requires IsScannedBucket(s, n) && n.name == bucket && InProgress(s)
    ensures BucketReady(s, s, n, bucket)
  {
    hide Labels, Relabelled;
    BucketNamed(s, n);
    assert s.names[n.id] == [bucket];
    DistinctNames(s);
    LabelOfRow(s.nodes, s.names, n.id);
    LabelKeys(s.nodes, s.names);
    LabelledAlready(s, [bucket], BucketAttributes(bucket));
  }

  lemma LabelledAlready(s: Scan, d: seq<string>, attrs: Attributes)
    requires d in Labels(s.nodes, s.names) && Labels(s.nodes, s.names)[d] == attrs
    ensures Relabelled(s, s, map[d := attrs])
  {
    hide Labels, ScanState.Consistent;
  }

  lemma NewBucketReady(s0: Scan, s: Scan, bucketNodes: map<string, Node>, n: Node, bucket: string)
    requires BucketOpened(s0, s, n, bucket) && Registered(s0, bucketNodes) && bucket !in bucketNodes
    requires InProgress(s0) && n.attrs == BucketAttributes(bucket)
    ensures BucketReady(s0, s, n, bucket) && Registered(s, bucketNodes[bucket := n])
  {
    hide Chains, Relabelled, BucketAttributes;
    NewlyRegistered(s0, s, bucketNodes, s.nodes[n.id], n);
    StillInProgress(s0, s, n, bucket);
  }

  lemma StillInProgress(s0: Scan, s: Scan, n: Node, bucket: string)
    requires BucketOpened(s0, s, n, bucket) && InProgress(s0) && n.attrs == BucketAttributes(bucket)
    ensures InProgress(s)
  {
    hide Chains, IsScannedBucket, Relabelled, BucketAttributes;
  }

  lemma UnregisteredIsNew(s: Scan, bucketNodes: map<string, Node>, bucket: string)
    requires Registered(s, bucketNodes) && bucket !in bucketNodes
    ensures NotYetScanned(s, bucket)
  {
  }

  lemma BatchExact(s0: Scan, s1: Scan, s: Scan, n: Node, metas: seq<ObjectMetadata>, objects: nat)
    requires metas != [] && BucketReady(s0, s1, n, metas[0].bucket)
    requires Filed(s1, s, DeliveriesOf(n.name, metas), DirectoriesOf(n.name, metas)) && objects == |DeliveriesOf(n.name, metas)|
    requires Relabelled(s1, s, LabelsOf(n.name, metas))
    ensures IsBatchExact(s0, s, metas, objects) && SameOrigin(s0, s)
  {
    hide Chains, IsScannedBucket, Relabelled, BatchLabels, ScanState.Consistent;
    BatchLabelled(s0, s1, s, n.name, metas);
  }

  lemma BatchLabelled(s0: Scan, s1: Scan, s: Scan, bucket: string, metas: seq<ObjectMetadata>)
    requires metas != [] && bucket == metas[0].bucket
    requires Relabelled(s0, s1, map[[bucket] := BucketAttributes(bucket)]) && Relabelled(s1, s, LabelsOf(bucket, metas))
    ensures Relabelled(s0, s, BatchLabels(metas))
  {
    hide Relabelled, BucketAttributes, LabelsOf;
    RelabelledTwice(s0, s1, s, map[[bucket] := BucketAttributes(bucket)], LabelsOf(bucket, metas));
  }

  lemma RunGoesOn(s0: Scan, s1: Scan, s: Scan, n: Node, bucket: string, bucketNodes: map<string, Node>)
    requires BucketReady(s0, s1, n, bucket) && SameRun(s1, s) && Registered(s1, bucketNodes)
    ensures SameOrigin(s0, s) && Registered(s, bucketNodes) && InProgress(s)
  {
    hide Registered, IsScannedBucket, Chains, Relabelled;
    StillRegistered(s1, s, bucketNodes);
  }

  lemma FiledIsRun(s0: Scan, s: Scan, deliveries: seq<Delivery>, dirs: set<seq<string>>)
    requires Filed(s0, s, deliveries, dirs)
    ensures SameRun(s0, s)
  {
  }

  lemma SameStartIds(s0: Scan, s: Scan, next: nat, next': nat)
    requires StartIds(s0, next) && next <= next' && s.nodes0 == s0.nodes0
    ensures StartIds(s, next')
  {
  }

  lemma ScanForest(s: Scan)
    ensures Forest(s.nodes, s.items)
  {
  }

  lemma NoAnswers(scanner: Scanner.S3Scanner, paths: seq<string>)
    ensures Answered(scanner, paths, []) && BucketsOf([]) == {}
  {
  }

  lemma NextAnswer(scanner: Scanner.S3Scanner, paths: seq<string>, answers: seq<ScanAnswer>, a: ScanAnswer)
    requires Answered(scanner, paths, answers) && |answers| < |paths| && !EndsInPanic(answers)
    requires Scanner.IsScanAnswer(scanner, paths[|answers|], a)
    ensures Answered(scanner, paths, answers + [a])
  {
    hide Scanner.IsScanAnswer;
  }

  /** Between two paths: the tables are those of the scan, and every bucket asked for so far is registered and in progress. */
  ghost predicate IsRunning(s: Scan, nodes: Nodes, items: Items, bucketNodes: map<string, Node>, stats: Stats) {
    nodes == s.nodes && items == s.items && stats == s.stats && Registered(s, bucketNodes) && InProgress(s)
  }

  lemma RunningMeans(s: Scan, nodes: Nodes, items: Items, bucketNodes: map<string, Node>, stats: Stats)
    ensures IsRunning(s, nodes, items, bucketNodes, stats) <==>
              nodes == s.nodes && items == s.items && stats == s.stats && Registered(s, bucketNodes) && InProgress(s)
  {
  }

  /** What the answers so far have asked for is what has been done; `exact` says whether every write went through. */
  ghost predicate IsAsked(scanner: Scanner.S3Scanner, paths: seq<string>, answers: seq<ScanAnswer>, s: Scan, buckets: set<string>,
                          objects: nat, exact: bool) {
    && Answered(scanner, paths, answers) && !EndsInPanic(answers)
    && buckets == BucketsOf(answers) && (exact ==> IsExact(s, answers, BucketsOf(answers), objects))
  }

  lemma NothingAsked(scanner: Scanner.S3Scanner, paths: seq<string>, s: Scan, exact: bool)
    requires IsExact(s, [], {}, 0)
    ensures IsAsked(scanner, paths, [], s, {}, 0, exact)
  {
    NoAnswers(scanner, paths);
  }

  lemma AskedMeans(scanner: Scanner.S3Scanner, paths: seq<string>, answers: seq<ScanAnswer>, s: Scan, buckets: set<string>, objects: nat,
                   exact: bool)
    requires IsAsked(scanner, paths, answers, s, buckets, objects, exact)
    ensures Answered(scanner, paths, answers) && !EndsInPanic(answers)
    ensures buckets == BucketsOf(answers) && (exact ==> IsExact(s, answers, BucketsOf(answers), objects))
  {
  }

  /** The answer that makes the run panic. */
  lemma LastAnswer(scanner: Scanner.S3Scanner, paths: seq<string>, answers: seq<ScanAnswer>, a: ScanAnswer, s: Scan, buckets: set<string>,
                   objects: nat, exact: bool)
    requires IsAsked(scanner, paths, answers, s, buckets, objects, exact) && |answers| < |paths|
    requires Scanner.IsScanAnswer(scanner, paths[|answers|], a)
    ensures Answered(scanner, paths, answers + [a])
    ensures Earlier(answers + [a]) == answers && (EndsInPanic(answers + [a]) <==> a.Panicked?)
    ensures buckets == BucketsOf(answers) && (exact ==> IsExact(s, answers, BucketsOf(answers), objects))
  {
    hide *;
    AskedMeans(scanner, paths, answers, s, buckets, objects, exact);
    NextAnswer(scanner, paths, answers, a);
    LastPanic(answers, a);
  }

  lemma LastPanic(answers: seq<ScanAnswer>, a: ScanAnswer)
    ensures Earlier(answers + [a]) == answers && (EndsInPanic(answers + [a]) <==> a.Panicked?)
  {
    assert (answers + [a])[..|answers|] == answers;
  }

  lemma OneMoreAsked(scanner: Scanner.S3Scanner, paths: seq<string>, answers: seq<ScanAnswer>, a: ScanAnswer, s0: Scan, s: Scan,
                     buckets: set<string>, objects: nat, more: nat, exact: bool)
    requires IsAsked(scanner, paths, answers, s0, buckets, objects, exact) && |answers| < |paths|
    requires Scanner.IsScanAnswer(scanner, paths[|answers|], a) && !a.Panicked?
    requires exact ==> IsBatchExact(s0, s, BatchOf(a), more)
    ensures IsAsked(scanner, paths, answers + [a], s, buckets + BatchBucket(BatchOf(a)), objects + more, exact)
  {
    hide *;
    AskedMeans(scanner, paths, answers, s0, buckets, objects, exact);
    NextAnswer(scanner, paths, answers, a);
    LastPanic(answers, a);
    OneMoreAnswer(answers, a);
    if exact {
      ExactTurn(s0, s, answers, a, buckets, objects, more);
    }
    NowAsked(scanner, paths, answers + [a], s, buckets + BatchBucket(BatchOf(a)), objects + more, exact);
  }

  lemma NowAsked(scanner: Scanner.S3Scanner, paths: seq<string>, answers: seq<ScanAnswer>, s: Scan, buckets: set<string>, objects: nat,
                 exact: bool)
    requires Answered(scanner, paths, answers) && !EndsInPanic(answers)
    requires buckets == BucketsOf(answers) && (exact ==> IsExact(s, answers, BucketsOf(answers), objects))
    ensures IsAsked(scanner, paths, answers, s, buckets, objects, exact)
  {
  }

  lemma StartFacts(nodes: Nodes, items: Items, metaRes: MetaResource, s: Scan, next: nat)
    requires s == ScanState(nodes, items, metaRes, nodes, items, {}, map[], [], map[])
    requires forall i :: i in nodes ==> i < next
    ensures s.nodes0 == nodes && s.items0 == items && s.metaRes == metaRes && s.nodes == nodes && s.items == items && s.stats == map[]
    ensures StartIds(s, next)
  {
  }

  lemma SameAsItself(s: Scan)
    ensures SameOrigin(s, s)
  {
  }

  lemma OriginFacts(s0: Scan, s: Scan)
    requires SameOrigin(s0, s)
    ensures s.nodes0 == s0.nodes0 && s.items0 == s0.items0 && s.metaRes == s0.metaRes
  {
  }

  lemma BatchOfAnswer(a: ScanAnswer)
    ensures a.Metas? && |a.metas| > 0 && a.metas[0].bucket != "" ==> BatchOf(a) == a.metas && BatchBucket(a.metas) == {a.metas[0].bucket}
    ensures !(a.Metas? && |a.metas| > 0 && a.metas[0].bucket != "") ==> BatchOf(a) == [] && BatchBucket([]) == {}
  {
  }
}

/** Why the automatic scan of a resource has nothing left to do the second time. */
module AutoScans {
  import opened GoStrings
  import opened ObjectKeys
  import opened MetadataForest
  import opened NodeNames
  import opened NodePlacement
  import opened Deliveries
  import opened ScanSession
  import opened ScanSteps
  import opened ScanBuckets
  import opened ScanRuns
  import opened WholeBucketRun
  import opened SchemaScans
  import Scanner = ObjectStorageScanner

  /** Some row of the resource has this kind and name. */
  ghost predicate HasRow(nodes: Nodes, metaRes: MetaResource, kind: NodeKind, name: string) {
    exists i :: i in nodes && IsNamedRow(nodes[i], metaRes, kind, name)
  }

  predicate IsNamedRow(n: Node, metaRes: MetaResource, kind: NodeKind, name: string) {
    n.tenant == metaRes.tenant && n.res == metaRes.id && n.kind == kind && n.name == name
  }

  /** However the scanner orders its answer, the path yields no rows. */
  ghost predicate YieldsNothing(scanner: Scanner.S3Scanner, path: string) {
    forall a :: Scanner.IsScanAnswer(scanner, path, a) ==> !a.Panicked? && BatchOf(a) == []
  }

  /** The automatic scan skips this bucket, or scans it in vain. */
  ghost predicate Settled(nodes: Nodes, metaRes: MetaResource, scanner: Scanner.S3Scanner, bucket: string) {
    HasRow(nodes, metaRes, BucketNode, bucket) || YieldsNothing(scanner, bucket)
  }

  predicate AllClean(buckets: seq<string>) {
    forall k :: 0 <= k < |buckets| ==> CleanSegment(buckets[k])
  }

  lemma CleanAt(buckets: seq<string>, k: nat)
    requires AllClean(buckets) && k < |buckets|
    ensures CleanSegment(buckets[k])
  {
  }

  /** The two kinds of source; for object storage with the sorted list of allowed buckets. */
  datatype ResourceScanner = Relational(source: DatabaseSource) | ObjectStorage(scanner: Scanner.S3Scanner, buckets: seq<string>)

  /** An automatic scan of the resource would find nothing to do. */
  ghost predicate AllSettled(nodes: Nodes, metaRes: MetaResource, scan: ResourceScanner) {
    match scan
    case Relational(source) => forall k :: 0 <= k < |source.schemas| ==> HasRow(nodes, metaRes, SchemaNode, source.schemas[k])
    case ObjectStorage(scanner, buckets) => forall k :: 0 <= k < |buckets| ==> Settled(nodes, metaRes, scanner, buckets[k])
  }

  predicate ProperNames(scan: ResourceScanner) {
    scan.ObjectStorage? ==> AllClean(scan.buckets)
  }

  // ---- A run that filed nothing ---------------------------------------------------

  lemma NamesHaveChains(s: Scan, nodes: Nodes, items: Items)
    requires IsOutcome(s, nodes, items)
    ensures s.names.Keys != {} ==> Chains(nodes, s.names) != {}
    ensures s.roots <= s.names.Keys
  {
    hide Stored, RowsKept, RootsKept, ItemsKept;
    if s.names.Keys != {} {
      var i :| i in s.names;
      var r := FirstNameIsBucket(nodes, s.roots, s.names, i);
      assert r in s.roots;
      assert s.names[r] in Chains(nodes, s.names);
    }
  }

  lemma NoRootsNoNames(s: Scan, nodes: Nodes, items: Items)
    requires IsOutcome(s, nodes, items) && Chains(s.nodes, s.names) == {}
    ensures s.roots == {} && s.names.Keys == {}
  {
    hide Stored, RowsKept, RootsKept, ItemsKept, Forest, IsNaming, Rooted, Chains;
    NamesHaveChains(s, nodes, items);
  }

  lemma KeptNodes(nodes0: Nodes, nodes: Nodes, names: Names)
    requires Linked(nodes0) && RowsKept(nodes0, {}, nodes, names) && names.Keys == {}
    ensures nodes == nodes0
  {
    forall i: nat ensures i in nodes <==> i in nodes0 {
      assert i in nodes0 ==> Bystander(nodes0, {}, i);
    }
  }

  lemma NothingChanged(s: Scan, nodes: Nodes, items: Items, a: ScanAnswer, objects: nat)
    requires IsOutcome(s, nodes, items) && IsExact(s, [a], BucketsOf([a]), objects) && BatchOf(a) == []
    requires Forest(s.nodes0, s.items0)
    ensures nodes == s.nodes0 && items == s.items0 && objects == 0 && BucketsOf([a]) == {}
  {
    hide Forest, IsNaming, Rooted, Stored, Chains, RowsKept, RootsKept, ItemsKept;
    assert [a][..0] == [];
    assert TreeOf([]) == {} && LogOf([]) == [] && BucketsOf([]) == {};
    NoRootsNoNames(s, nodes, items);
    KeptNodes(s.nodes0, nodes, s.names);
    KeptItems(s, nodes, items);
  }

  lemma KeptItems(s: Scan, nodes: Nodes, items: Items)
    requires IsOutcome(s, nodes, items) && s.roots == {} && s.names.Keys == {} && nodes == s.nodes0
    requires Forest(s.nodes0, s.items0)
    ensures items == s.items0
  {
    hide IsNaming, Rooted, Stored, Chains, Labelled, UniqueAddresses, RowsKept, RootsKept;
    assert Linked(s.nodes0);
    forall t | t in items ensures t in s.items0 && items[t] == s.items0[t] {
    }
    forall t | t in s.items0 ensures t in items {
      StartItemPlaced(s, nodes, t);
    }
  }

  lemma StartItemPlaced(s: Scan, nodes: Nodes, t: nat)
    requires s.roots == {} && t in s.items0 && ItemsPlaced(s.nodes0, s.items0)
    ensures Linked(s.nodes0) && Bystander(s.nodes0, s.roots, s.items0[t].node)
  {
    assert ItemRow(s.nodes0, s.items0, t);
  }

  // ---- A run that filed a bucket ------------------------------------------------------

  lemma BucketHasRow(s: Scan, nodes: Nodes, items: Items, a: ScanAnswer, objects: nat, bucket: string)
    requires IsOutcome(s, nodes, items) && IsExact(s, [a], BucketsOf([a]), objects)
    requires BatchOf(a) != [] && BatchOf(a)[0].bucket == bucket
    ensures HasRow(nodes, s.metaRes, BucketNode, bucket)
  {
    hide Stored, RowsKept, RootsKept, ItemsKept, Labelled, UniqueAddresses, ItemsPlaced, Linked, BatchOf, Stranded, FinishedRow;
    BucketAsked(a, bucket);
    var j :| j in s.names && j in nodes && !Stranded(nodes[j]) && s.names[j] == [bucket];
    RootNamed(nodes, s.metaRes, s.roots, s.names, j, bucket);
  }

  lemma BucketAsked(a: ScanAnswer, bucket: string)
    requires BatchOf(a) != [] && BatchOf(a)[0].bucket == bucket
    ensures [bucket] in TreeOf([a])
  {
    hide BatchOf, DirectoriesOf;
    assert [a][..0] == [];
  }

  lemma RootNamed(nodes: Nodes, metaRes: MetaResource, roots: set<nat>, names: Names, j: nat, bucket: string)
    requires Linked(nodes) && IsNaming(nodes, roots, names) && Rooted(nodes, metaRes, roots) && j in names && names[j] == [bucket]
    ensures HasRow(nodes, metaRes, BucketNode, bucket)
  {
    NamedDepth(nodes, roots, names, j);
    assert NamedRow(nodes, roots, names, j);
    TopRow(nodes, j);
    assert IsNamedRow(nodes[j], metaRes, BucketNode, bucket);
  }

  /** Top-level rows that were there stay there. */
  lemma RowsStay(s: Scan, nodes: Nodes, items: Items, metaRes: MetaResource, kind: NodeKind, name: string)
    requires IsOutcome(s, nodes, items) && kind != PrefixNode && HasRow(s.nodes0, metaRes, kind, name)
    ensures HasRow(nodes, metaRes, kind, name)
  {
    hide Stored, ItemsKept, Labelled, UniqueAddresses, ItemsPlaced, IsNaming, Rooted, Chains;
    var i :| i in s.nodes0 && IsNamedRow(s.nodes0[i], metaRes, kind, name);
    assert LinkedRow(s.nodes0, i);
    RootOfParent(s.nodes0, i);
    if i in s.roots {
      assert IsNamedRow(nodes[i], metaRes, kind, name);
    } else {
      assert Bystander(s.nodes0, s.roots, i);
      assert nodes[i] == s.nodes0[i];
    }
  }

  // ---- The scanner's answers -----------------------------------------------------------

  lemma AnswerNamesBucket(scanner: Scanner.S3Scanner, bucket: string, a: ScanAnswer)
    requires CleanSegment(bucket) && Scanner.IsScanAnswer(scanner, bucket, a) && a.Metas?
    ensures bucket in scanner.allowedBucket
    ensures Scanner.IsScan(bucket, "", Scanner.Entries(bucket, Scanner.BucketContents(scanner, bucket), ""), a.metas)
    ensures forall m :: m in a.metas ==> m.bucket == bucket
  {
    hide TrimSpace, Scanner.SplitPath, HasReservedObjectSegment, Scanner.HitsEmptyDir, CleanSegment;
    BucketPathSplits(bucket);
    EmptyPrefix(Scanner.BucketContents(scanner, bucket));
    ScanNamesBucket(bucket, Scanner.BucketContents(scanner, bucket), a.metas);
  }

  lemma {:induction false} CountedNamesBucket(bucket: string, listed: seq<Scanner.S3Object>)
    ensures forall m :: m in Scanner.CountedRows(Scanner.Entries(bucket, listed, "")) ==> m.bucket == bucket
  {
    if listed != [] {
      CountedNamesBucket(bucket, listed[..|listed| - 1]);
      var es := Scanner.Entries(bucket, listed, "");
      assert es[..|es| - 1] == Scanner.Entries(bucket, listed[..|listed| - 1], "");
    }
  }

  lemma ScanNamesBucket(bucket: string, listed: seq<Scanner.S3Object>, metas: seq<ObjectMetadata>)
    requires Scanner.IsScan(bucket, "", Scanner.Entries(bucket, listed, ""), metas)
    ensures forall m :: m in metas ==> m.bucket == bucket
  {
    var es := Scanner.Entries(bucket, listed, "");
    var k := |metas| - |Scanner.CountedRows(es)|;
    CountedNamesBucket(bucket, listed);
    assert metas[0..k] == metas[..k];
    assert metas == metas[..k] + metas[k..];
    forall m | m in metas ensures m.bucket == bucket {
      if m in metas[k..] {
        assert m in multiset(metas[k..]);
        assert m in multiset(Scanner.CountedRows(es));
      }
    }
  }

  lemma NothingToFile(bucket: string, es: seq<Scanner.Entry>)
    requires Scanner.IsScan(bucket, "", es, [])
    ensures |Scanner.CountedRows(es)| == 0
    ensures forall d :: d in Scanner.DirPaths(es) ==> !Scanner.Survives(Scanner.DirRow(bucket, "", Scanner.CountedRows(es), d))
  {
    hide Scanner.DirRow, Scanner.DirPaths, Scanner.CountedRows;
    var none: seq<ObjectMetadata> := [];
    assert none[0..0] == none;
  }

  lemma RowsSurvive(bucket: string, es: seq<Scanner.Entry>, metas: seq<ObjectMetadata>, m: ObjectMetadata)
    requires Scanner.IsScan(bucket, "", es, metas) && |Scanner.CountedRows(es)| == 0 && m in metas
    ensures m.relativePath in Scanner.DirPaths(es) && Scanner.Survives(m)
    ensures m == Scanner.DirRow(bucket, "", Scanner.CountedRows(es), m.relativePath)
  {
    hide Scanner.DirRow, Scanner.DirPaths, Scanner.CountedRows;
    assert metas[0..|metas|] == metas;
  }

  /** Whether a whole-bucket scan yields any row depends on the listing only. */
  lemma EmptinessDetermined(bucket: string, es: seq<Scanner.Entry>, metas: seq<ObjectMetadata>)
    requires Scanner.IsScan(bucket, "", es, []) && Scanner.IsScan(bucket, "", es, metas)
    ensures metas == []
  {
    hide Scanner.DirRow, Scanner.DirPaths, Scanner.CountedRows, Scanner.IsScan, Scanner.Survives;
    NothingToFile(bucket, es);
    if metas != [] {
      RowsSurvive(bucket, es, metas, metas[0]);
    }
  }

  lemma NotAllowedAlways(scanner: Scanner.S3Scanner, bucket: string, a: ScanAnswer)
    requires CleanSegment(bucket) && Scanner.IsScanAnswer(scanner, bucket, a)
    ensures a.BucketNotAllowed? <==> bucket !in scanner.allowedBucket
    ensures bucket in scanner.allowedBucket ==>
              (a.Panicked? <==> Scanner.HitsEmptyDir(Scanner.Entries(bucket, Scanner.BucketContents(scanner, bucket), "")))
  {
    hide TrimSpace, Scanner.SplitPath, HasReservedObjectSegment, Scanner.HitsEmptyDir, CleanSegment, Scanner.IsScan;
    BucketPathSplits(bucket);
    EmptyPrefix(Scanner.BucketContents(scanner, bucket));
  }

  lemma BatchOfBucket(bucket: string, a: ScanAnswer)
    requires CleanSegment(bucket) && (a.Metas? ==> forall m :: m in a.metas ==> m.bucket == bucket)
    ensures BatchOf(a) == if a.Metas? then a.metas else []
    ensures BatchOf(a) != [] ==> BatchOf(a)[0].bucket == bucket
  {
    if a.Metas? && a.metas != [] {
      assert a.metas[0] in a.metas;
    }
  }

  lemma OnceNothingAlwaysNothing(scanner: Scanner.S3Scanner, bucket: string, a: ScanAnswer)
    requires CleanSegment(bucket) && Scanner.IsScanAnswer(scanner, bucket, a) && !a.Panicked? && BatchOf(a) == []
    ensures YieldsNothing(scanner, bucket)
  {
    hide Scanner.IsScanAnswer, Scanner.IsScan, CleanSegment, BatchOf, Scanner.HitsEmptyDir;
    NotAllowedAlways(scanner, bucket, a);
    forall b | Scanner.IsScanAnswer(scanner, bucket, b) ensures !b.Panicked? && BatchOf(b) == [] {
      NotAllowedAlways(scanner, bucket, b);
      if a.Metas? {
        AnswerNamesBucket(scanner, bucket, a);
        BatchOfBucket(bucket, a);
      }
      if b.Metas? {
        AnswerNamesBucket(scanner, bucket, b);
        EmptinessDetermined(bucket, Scanner.Entries(bucket, Scanner.BucketContents(scanner, bucket), ""), b.metas);
      }
      BatchOfBucket(bucket, b);
    }
  }

  /** A completed exact run over one bucket settles it. */
  lemma RunSettles(s: Scan, nodes: Nodes, items: Items, scanner: Scanner.S3Scanner, bucket: string, a: ScanAnswer, objects: nat)
    requires CleanSegment(bucket) && Scanner.IsScanAnswer(scanner, bucket, a) && !a.Panicked?
    requires IsOutcome(s, nodes, items) && IsExact(s, [a], BucketsOf([a]), objects)
    ensures Settled(nodes, s.metaRes, scanner, bucket)
  {
    hide Scanner.IsScanAnswer, IsOutcome, IsExact, CleanSegment, BatchOf, YieldsNothing, HasRow;
    if BatchOf(a) == [] {
      OnceNothingAlwaysNothing(scanner, bucket, a);
    } else {
      if a.Metas? {
        AnswerNamesBucket(scanner, bucket, a);
      }
      BatchOfBucket(bucket, a);
      BucketHasRow(s, nodes, items, a, objects, bucket);
    }
  }

  lemma StaySettled(s: Scan, nodes: Nodes, items: Items, scanner: Scanner.S3Scanner, bucket: string)
    requires IsOutcome(s, nodes, items) && Settled(s.nodes0, s.metaRes, scanner, bucket)
    ensures Settled(nodes, s.metaRes, scanner, bucket)
  {
    hide IsOutcome, YieldsNothing;
    if HasRow(s.nodes0, s.metaRes, BucketNode, bucket) {
      RowsStay(s, nodes, items, s.metaRes, BucketNode, bucket);
    }
  }

  // ---- Steps of the service's loops --------------------------------------------------------

  /** What `scanResource` looks up before it decides to scan. */
  lemma LookupDecides(nodes: Nodes, metaRes: MetaResource, kind: NodeKind, name: string)
    ensures (forall i :: i in nodes ==>
                !(nodes[i].tenant == metaRes.tenant && nodes[i].res == metaRes.id && nodes[i].kind == kind && nodes[i].name == name))
            <==> !HasRow(nodes, metaRes, kind, name)
  {
    forall i | i in nodes
      ensures (nodes[i].tenant == metaRes.tenant && nodes[i].res == metaRes.id && nodes[i].kind == kind && nodes[i].name == name)
              <==> IsNamedRow(nodes[i], metaRes, kind, name)
    {
    }
  }

  lemma FoundRow(nodes: Nodes, metaRes: MetaResource, kind: NodeKind, name: string, i: nat)
    requires i in nodes && nodes[i].tenant == metaRes.tenant && nodes[i].res == metaRes.id && nodes[i].kind == kind && nodes[i].name == name
    ensures HasRow(nodes, metaRes, kind, name)
  {
    assert IsNamedRow(nodes[i], metaRes, kind, name);
  }

  lemma VainScan(scanner: Scanner.S3Scanner, bucket: string, a: ScanAnswer)
    requires YieldsNothing(scanner, bucket) && Scanner.IsScanAnswer(scanner, bucket, a)
    ensures !a.Panicked? && BatchOf(a) == []
  {
  }

  lemma OneAnswer(scanner: Scanner.S3Scanner, bucket: string, answers: seq<ScanAnswer>)
    requires Answered(scanner, [bucket], answers) && answers != []
    ensures answers == [answers[0]] && Scanner.IsScanAnswer(scanner, bucket, answers[0])
    ensures EndsInPanic(answers) <==> answers[0].Panicked?
  {
    assert Scanner.IsScanAnswer(scanner, [bucket][0], answers[0]);
  }
}

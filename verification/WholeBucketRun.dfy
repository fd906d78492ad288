/** A run over one whole bucket, from the listing to the tables. */
module WholeBucketRun {
  import opened Options
  import opened GoStrings
  import opened ObjectKeys
  import opened Sequences
  import opened MetadataForest
  import opened Deliveries
  import opened NodeNames
  import opened ScanSession
  import opened ScanSteps
  import opened ScanRuns
  import opened ScanOutcomes
  import opened BucketScans
  import opened BucketRoundTrip
  import Scanner = ObjectStorageScanner

  // ---- The scanner's answer ------------------------------------------------------

  lemma {:induction false} EmptyPrefix(objects: seq<Scanner.S3Object>)
    ensures Scanner.WithPrefix(objects, "") == objects
  {
    if objects != [] {
      EmptyPrefix(objects[..|objects| - 1]);
      FrontLast(objects);
      assert HasPrefix(objects[|objects| - 1].key, "");
    }
  }

  lemma BucketPathSplits(bucket: string)
    requires CleanSegment(bucket)
    ensures TrimSpace(bucket) == bucket != "" && Scanner.SplitPath(bucket) == (bucket, "")
    ensures !HasReservedObjectSegment("")
  {
    CleanEnds(bucket);
    TrimSpaceIdentity(bucket);
    TrimIdentity(bucket, Spaces);
    SplitSlashFree(bucket);
    assert ReservedIn([""]) == {};
  }

  lemma WholeBucketAnswer(scanner: Scanner.S3Scanner, bucket: string, a: ScanAnswer)
    requires WellFormedBucket(bucket) && bucket in scanner.allowedBucket
    requires WellFormedListing(Scanner.BucketContents(scanner, bucket))
    requires Scanner.IsScanAnswer(scanner, bucket, a)
    ensures a.Metas?
    ensures Scanner.IsScan(bucket, "", Scanner.Entries(bucket, Scanner.BucketContents(scanner, bucket), ""), a.metas)
  {
    hide TrimSpace, Scanner.SplitPath, HasReservedObjectSegment, Scanner.IsScan, WellFormedListing, Scanner.HitsEmptyDir;
    BucketPathSplits(bucket);
    EmptyPrefix(Scanner.BucketContents(scanner, bucket));
    NeverPanics(bucket, Scanner.BucketContents(scanner, bucket));
  }

  lemma DoubledSegments()
    ensures Split("a//b") == ["a", "", "b"] && !HasReservedObjectSegment("a//b")
  {
    hide TrimSpace, Split, HasReservedObjectSegment;
    TrimSpaceIdentity("a");
    TrimSpaceIdentity("b");
    Unreserved("a");
    Unreserved("b");
    SplitSlashFree("a");
    SplitSlashFree("b");
    SplitNothing();
    SplitConcat("", "b");
    SplitConcat("a", "/b");
    assert "" + "/" + "b" == "/b" && "a" + "/" + "/b" == "a//b";
    ReservedBySegments("a//b");
    ReservedConcat(["a"], [""] + ["b"]);
    ReservedConcat([""], ["b"]);
    assert ["a"] + ([""] + ["b"]) == ["a", "", "b"];
  }

  /** The key "a//b" is counted, under a directory without a name. */
  lemma DoubledHasEmptyDir(bucket: string, size: int)
    ensures Scanner.HasEmptyDir(Scanner.Classify(bucket, Scanner.S3Object("a//b", size), ""))
  {
    hide Split, HasReservedObjectSegment, Scanner.ObjectRow, Scanner.CleanPrefix;
    DoubledSegments();
    assert "a//b"[0] != '/' && "a//b"[|"a//b"| - 1..] == "b";
    assert TrimPrefix("a//b", "") == "a//b" && Scanner.Relative("a//b", "") == "a//b";
  }

  lemma OneEntryHits(bucket: string, listed: seq<Scanner.S3Object>, o: Scanner.S3Object)
    requires o in listed && Scanner.HasEmptyDir(Scanner.Classify(bucket, o, ""))
    ensures Scanner.HitsEmptyDir(Scanner.Entries(bucket, listed, ""))
  {
    hide *;
    var es := Scanner.Entries(bucket, listed, "");
    var k :| 0 <= k < |listed| && listed[k] == o;
    assert es[k] in es;
    Scanner.HitsEmptyDirMeans(es);
  }

  lemma PanicsIfHit(scanner: Scanner.S3Scanner, bucket: string, a: ScanAnswer)
    requires WellFormedBucket(bucket) && bucket in scanner.allowedBucket && Scanner.IsScanAnswer(scanner, bucket, a)
    ensures a.Panicked? <==> Scanner.HitsEmptyDir(Scanner.Entries(bucket, Scanner.BucketContents(scanner, bucket), ""))
  {
    hide TrimSpace, Scanner.SplitPath, HasReservedObjectSegment, Scanner.IsScan, Scanner.HitsEmptyDir, Scanner.Entries;
    BucketPathSplits(bucket);
    EmptyPrefix(Scanner.BucketContents(scanner, bucket));
  }

  /** A single such key is enough: whatever else the bucket holds, a scan of it panics. */
  lemma DoubledSlashPanics(scanner: Scanner.S3Scanner, bucket: string, size: int, a: ScanAnswer)
    requires WellFormedBucket(bucket) && bucket in scanner.allowedBucket
    requires Scanner.S3Object("a//b", size) in Scanner.BucketContents(scanner, bucket)
    requires Scanner.IsScanAnswer(scanner, bucket, a)
    ensures a.Panicked?
  {
    hide *;
    DoubledHasEmptyDir(bucket, size);
    OneEntryHits(bucket, Scanner.BucketContents(scanner, bucket), Scanner.S3Object("a//b", size));
    PanicsIfHit(scanner, bucket, a);
  }

  lemma RowsNameBucket(bucket: string, listed: seq<Scanner.S3Object>, metas: seq<ObjectMetadata>, m: ObjectMetadata)
    requires WellFormedListing(listed) && Scanner.IsScan(bucket, "", Scanner.Entries(bucket, listed, ""), metas) && m in metas
    ensures m.bucket == bucket
  {
    var dirs, objects := ScanParts(bucket, Scanner.Entries(bucket, listed, ""), metas);
    if m in objects {
      var k :| 0 <= k < |objects| && objects[k] == m;
      var _ := ObjectOfRow(bucket, listed, objects, k);
    }
  }

  lemma FiledUnderBucket(bucket: string, a: ScanAnswer)
    requires WellFormedBucket(bucket) && a.Metas?
    requires forall m :: m in a.metas ==> m.bucket == bucket
    ensures BatchOf(a) == a.metas && BatchLog(BatchOf(a)) == DeliveriesOf(bucket, a.metas)
    ensures BatchTree(BatchOf(a)) == if a.metas == [] then {} else {[bucket]} + DirectoriesOf(bucket, a.metas)
  {
    CleanEnds(bucket);
    if a.metas != [] {
      assert a.metas[0] in a.metas;
    }
  }

  // ---- The tables ----------------------------------------------------------------------

  lemma OneDeliveryOfKey(log: seq<Delivery>, j: nat, k: nat)
    requires DistinctBelow(log, []) && j < |log| && k < |log| && log[j].dir == log[k].dir && log[j].name == log[k].name
    ensures j == k
  {
  }

  /** With distinct deliveries the stored items are the deliveries. */
  lemma FilesAreLog(items: Items, names: Names, log: seq<Delivery>, v: FileView)
    requires Stored(items, names, log) && DistinctBelow(log, [])
    ensures v in Files(items, names) <==> Delivery(v.chain, v.name, v.data) in log
  {
    var x := Delivery(v.chain, v.name, v.data);
    if v in Files(items, names) {
      var t :| t in items && items[t].node in names && v == FileView(names[items[t].node], items[t].name, DataOf(items[t]));
      LastDataMember(log, v.chain, v.name, v.data);
    }
    if x in log {
      var k :| 0 <= k < |log| && log[k] == x;
      assert HasItem(items, names, log[k].dir, log[k].name);
      var t :| t in items && items[t].node in names && names[items[t].node] == v.chain && items[t].name == v.name;
      LastDataMember(log, v.chain, v.name, DataOf(items[t]));
      var j :| 0 <= j < |log| && log[j] == Delivery(v.chain, v.name, DataOf(items[t]));
      OneDeliveryOfKey(log, j, k);
    }
  }

  lemma {:induction false} LastDataMember(log: seq<Delivery>, dir: seq<string>, name: string, data: ItemData)
    requires LastData(log, dir, name) == Some(data)
    ensures Delivery(dir, name, data) in log
  {
    var last := log[|log| - 1];
    if last.dir == dir && last.name == name {
      assert last in log;
    } else {
      LastDataMember(log[..|log| - 1], dir, name, data);
    }
  }

  /** The item a listed object becomes. */
  function FileOf(bucket: string, o: Scanner.S3Object): FileView {
    var x := KeyDelivery(bucket, o);
    FileView(x.dir, x.name, x.data)
  }

  /** What a completed run over the path of one well-formed bucket established. */
  ghost predicate IsBucketRun(s: Scan, nodes: Nodes, items: Items, bucket: string, listed: seq<Scanner.S3Object>, a: ScanAnswer, objects: nat) {
    && WellFormedBucket(bucket) && WellFormedListing(listed)
    && a.Metas? && Scanner.IsScan(bucket, "", Scanner.Entries(bucket, listed, ""), a.metas)
    && IsOutcome(s, nodes, items) && IsExact(s, [a], BucketsOf([a]), objects)
  }

  lemma BucketRunCompleted(s: Scan, nodes: Nodes, items: Items, scanner: Scanner.S3Scanner, bucket: string, answers: seq<ScanAnswer>, objects: nat)
    requires WellFormedBucket(bucket) && bucket in scanner.allowedBucket && WellFormedListing(Scanner.BucketContents(scanner, bucket))
    requires Answered(scanner, [bucket], answers) && |answers| == 1
    requires IsOutcome(s, nodes, items) && IsExact(s, answers, BucketsOf(answers), objects)
    ensures IsBucketRun(s, nodes, items, bucket, Scanner.BucketContents(scanner, bucket), answers[0], objects)
  {
    hide IsOutcome, IsExact, WellFormedListing, WellFormedBucket, Scanner.IsScan, Scanner.IsScanAnswer, Scanner.BucketContents;
    assert answers == [answers[0]];
    assert Scanner.IsScanAnswer(scanner, [bucket][0], answers[0]);
    WholeBucketAnswer(scanner, bucket, answers[0]);
  }

  lemma RunFacts(s: Scan, nodes: Nodes, items: Items, bucket: string, listed: seq<Scanner.S3Object>, a: ScanAnswer, objects: nat)
    requires IsBucketRun(s, nodes, items, bucket, listed, a, objects)
    ensures WellFormedBucket(bucket) && WellFormedListing(listed) && a.Metas?
    ensures Scanner.IsScan(bucket, "", Scanner.Entries(bucket, listed, ""), a.metas)
    ensures IsOutcome(s, nodes, items) && IsExact(s, [a], BucketsOf([a]), objects)
  {
  }

  lemma ExactOfOne(s: Scan, a: ScanAnswer, buckets: set<string>, objects: nat)
    requires IsExact(s, [a], buckets, objects)
    ensures s.log == BatchLog(BatchOf(a)) && objects == |s.log| && Chains(s.nodes, s.names) == BatchTree(BatchOf(a))
    ensures Labels(s.nodes, s.names) == BatchLabels(BatchOf(a))
  {
    hide Chains, Labels, BatchOf, BatchLog, BatchTree, BatchLabels, ScanState.Consistent;
    assert [a][..0] == [];
    assert LogOf([]) == [] && TreeOf([]) == {} && LabelTable([]) == map[];
    assert map[] + BatchLabels(BatchOf(a)) == BatchLabels(BatchOf(a));
  }

  lemma BucketRunLog(s: Scan, nodes: Nodes, items: Items, bucket: string, listed: seq<Scanner.S3Object>, a: ScanAnswer, objects: nat)
    requires IsBucketRun(s, nodes, items, bucket, listed, a, objects)
    ensures s.log == DeliveriesOf(bucket, a.metas) && objects == |s.log|
    ensures Chains(s.nodes, s.names) == if a.metas == [] then {} else {[bucket]} + DirectoriesOf(bucket, a.metas)
  {
    hide *;
    RunFacts(s, nodes, items, bucket, listed, a, objects);
    forall m | m in a.metas ensures m.bucket == bucket {
      RowsNameBucket(bucket, listed, a.metas, m);
    }
    FiledUnderBucket(bucket, a);
    ExactOfOne(s, a, BucketsOf([a]), objects);
  }

  /** The round trip: the stored items are exactly the listed objects outside reserved segments, each once, in the
      directory its key spells, under its own size and full name. */
  lemma ItemsAreListing(s: Scan, nodes: Nodes, items: Items, bucket: string, listed: seq<Scanner.S3Object>, a: ScanAnswer, objects: nat)
    requires IsBucketRun(s, nodes, items, bucket, listed, a, objects)
    ensures Files(items, s.names) == set o | o in CountedObjects(listed) :: FileOf(bucket, o)
    ensures objects == |CountedObjects(listed)|
    ensures DistinctBelow(s.log, [])
  {
    hide Chains, WellFormedListing, WellFormedBucket, Scanner.IsScan, KeyDelivery, Stored, Files, Forest, IsExact, Labels;
    BucketRunLog(s, nodes, items, bucket, listed, a, objects);
    LogIsKeys(bucket, listed, a.metas);
    forall v: FileView ensures v in Files(items, s.names) <==> v in set o | o in CountedObjects(listed) :: FileOf(bucket, o) {
      FilesAreLog(items, s.names, s.log, v);
      LogIsFileOf(bucket, listed, s.log, v);
    }
  }

  lemma LogIsFileOf(bucket: string, listed: seq<Scanner.S3Object>, log: seq<Delivery>, v: FileView)
    requires forall x :: x in log ==> exists o :: o in CountedObjects(listed) && x == KeyDelivery(bucket, o)
    requires forall o :: o in CountedObjects(listed) ==> KeyDelivery(bucket, o) in log
    ensures Delivery(v.chain, v.name, v.data) in log <==> exists o :: o in CountedObjects(listed) && v == FileOf(bucket, o)
  {
    hide KeyDelivery;
    if exists o :: o in CountedObjects(listed) && v == FileOf(bucket, o) {
      var o :| o in CountedObjects(listed) && v == FileOf(bucket, o);
      assert KeyDelivery(bucket, o) in log;
    }
  }

  /** The labelled rows are exactly the bucket and the directories that unreserved keys spell; none at all for a listing without such keys. */
  lemma RowsAreSpelled(s: Scan, nodes: Nodes, items: Items, bucket: string, listed: seq<Scanner.S3Object>, a: ScanAnswer,
      objects: nat, c: seq<string>)
    requires IsBucketRun(s, nodes, items, bucket, listed, a, objects)
    ensures c in Chains(nodes, s.names) <==>
              a.metas != [] && |c| >= 1 && c[0] == bucket && (|c| == 1 || Spelled(listed, c[1..]))
  {
    hide Chains, WellFormedListing, WellFormedBucket, Scanner.IsScan, Stored, Forest, IsExact, Spelled;
    BucketRunLog(s, nodes, items, bucket, listed, a, objects);
    TreeIsSpelled(bucket, listed, a.metas, c);
    NothingSpelled(bucket, listed, c);
    assert |c| == 1 && c[0] == bucket ==> c == [bucket];
    if a.metas == [] {
      assert DirectoriesOf(bucket, a.metas) == {};
    }
  }

  // ---- The attributes of the rows --------------------------------------------------------

  /** What a row's place says its attributes are: the bucket and, below it, the path from there. */
  function OwnAttributes(bucket: string, c: seq<string>): Attributes {
    if |c| <= 1 then map["bucket" := bucket] else map["bucket" := bucket, "path" := Join(c[1..])]
  }

  ghost predicate OwnTable(bucket: string, t: map<seq<string>, Attributes>) {
    forall c {:trigger t[c]} :: c in t ==> t[c] == OwnAttributes(bucket, c)
  }

  lemma {:induction false} PathLabelsOwn(bucket: string, dirs: seq<string>, k: nat)
    requires k <= |dirs|
    ensures OwnTable(bucket, PathLabels(bucket, bucket, dirs, k))
  {
    if k > 0 {
      PathLabelsOwn(bucket, dirs, k - 1);
      assert ([bucket] + dirs[..k])[1..] == dirs[..k];
    }
  }

  lemma {:induction false} LabelsOfOwn(bucket: string, metas: seq<ObjectMetadata>)
    requires forall m :: m in metas ==> m.bucket == bucket
    ensures OwnTable(bucket, LabelsOf(bucket, metas))
  {
    hide PathLabels, MetaDirs, OwnAttributes;
    if metas != [] {
      var m := metas[|metas| - 1];
      assert m in metas;
      LabelsOfOwn(bucket, metas[..|metas| - 1]);
      PathLabelsOwn(bucket, MetaDirs(m), |MetaDirs(m)|);
    }
  }

  /** After a run over one whole bucket every labelled row's attributes name the bucket and, below it, the row's own path. */
  lemma AttributesAreSpelled(s: Scan, nodes: Nodes, items: Items, bucket: string, listed: seq<Scanner.S3Object>, a: ScanAnswer,
      objects: nat, i: nat)
    requires IsBucketRun(s, nodes, items, bucket, listed, a, objects)
    requires i in s.names && i in nodes && !Stranded(nodes[i])
    ensures nodes[i].attrs == OwnAttributes(bucket, s.names[i])
  {
    LabelsAreOwn(s, nodes, items, bucket, listed, a, objects);
    DistinctNames(s);
    hide *;
    LabelOfRow(nodes, s.names, i);
    LabelKeys(nodes, s.names);
    OwnAttribute(bucket, Labels(nodes, s.names), s.names[i]);
  }

  lemma OwnAttribute(bucket: string, t: map<seq<string>, Attributes>, c: seq<string>)
    requires OwnTable(bucket, t) && c in t
    ensures t[c] == OwnAttributes(bucket, c)
  {
  }

  lemma LabelsAreOwn(s: Scan, nodes: Nodes, items: Items, bucket: string, listed: seq<Scanner.S3Object>, a: ScanAnswer, objects: nat)
    requires IsBucketRun(s, nodes, items, bucket, listed, a, objects)
    ensures IsOutcome(s, nodes, items)
    ensures Labels(nodes, s.names) == Labels(s.nodes, s.names) && OwnTable(bucket, Labels(s.nodes, s.names))
  {
    hide *;
    RunFacts(s, nodes, items, bucket, listed, a, objects);
    OutcomeLabels(s, nodes, items);
    forall m | m in a.metas ensures m.bucket == bucket {
      RowsNameBucket(bucket, listed, a.metas, m);
    }
    FiledUnderBucket(bucket, a);
    ExactOfOne(s, a, BucketsOf([a]), objects);
    LabelsOfOwn(bucket, a.metas);
    BatchLabelsOwn(bucket, a.metas);
  }

  lemma OutcomeLabels(s: Scan, nodes: Nodes, items: Items)
    requires IsOutcome(s, nodes, items)
    ensures Labels(nodes, s.names) == Labels(s.nodes, s.names)
  {
  }

  lemma BatchLabelsOwn(bucket: string, metas: seq<ObjectMetadata>)
    requires (forall m :: m in metas ==> m.bucket == bucket) && OwnTable(bucket, LabelsOf(bucket, metas))
    ensures OwnTable(bucket, BatchLabels(metas))
  {
    hide LabelsOf;
    if metas != [] {
      assert metas[0] in metas;
    }
  }

  /** Two tables of the same directories, each true to its places, are one. */
  lemma OwnTablesEqual(bucket: string, t: map<seq<string>, Attributes>, t': map<seq<string>, Attributes>)
    requires OwnTable(bucket, t) && OwnTable(bucket, t') && t.Keys == t'.Keys
    ensures t == t'
  {
    hide OwnAttributes;
    forall c | c in t ensures c in t' && t[c] == t'[c] {
      assert c in t'.Keys;
    }
  }

  lemma NothingSpelled(bucket: string, listed: seq<Scanner.S3Object>, c: seq<string>)
    ensures |c| == 1 ==> !Spelled(listed, c[1..])
  {
  }

  lemma LabelledChain(nodes: Nodes, names: Names, i: nat)
    requires i in names && i in nodes && !Stranded(nodes[i])
    ensures names[i] in Chains(nodes, names)
  {
  }

  lemma SpelledSlashFree(listed: seq<Scanner.S3Object>, q: seq<string>)
    requires WellFormedListing(listed) && Spelled(listed, q)
    ensures |q| >= 1 && AllSlashFree(q)
  {
    var o :| o in listed && SpelledBy(o, q);
    CleanParts(KeySegments(o.key));
    forall i | 0 <= i < |q| ensures SlashFree(q[i]) {
      assert q[i] == KeySegments(o.key)[i];
    }
  }

  /** Every labelled row counts exactly the items and bytes of its subtree; a directory's also equal the aggregate the
      scanner computed for the same path. */
  lemma CountersAgree(s: Scan, nodes: Nodes, items: Items, bucket: string, listed: seq<Scanner.S3Object>, a: ScanAnswer, objects: nat, i: nat)
    requires IsBucketRun(s, nodes, items, bucket, listed, a, objects)
    requires i in s.names && i in nodes && !Stranded(nodes[i])
    ensures nodes[i].status == Scanned
    ensures nodes[i].itemCount == |ItemsBelow(items, s.names, s.names[i])|
    ensures nodes[i].totalSize == TotalSize(items, ItemsBelow(items, s.names, s.names[i]))
    ensures |s.names[i]| >= 2 ==>
              var rows := Scanner.CountedRows(Scanner.Entries(bucket, listed, ""));
              var d := Join(s.names[i][1..]);
              nodes[i].itemCount == Scanner.CountUnder(rows, d) && nodes[i].totalSize == Scanner.SumUnder(rows, d)
  {
    hide *;
    RunFacts(s, nodes, items, bucket, listed, a, objects);
    ItemsAreListing(s, nodes, items, bucket, listed, a, objects);
    DistinctAnywhere(s.log, s.names[i]);
    CountersExact(s, nodes, items, i);
    BucketRunLog(s, nodes, items, bucket, listed, a, objects);
    var c := s.names[i];
    OutcomeCounters(s, nodes, items, i);
    LabelledChain(nodes, s.names, i);
    RowsAreSpelled(s, nodes, items, bucket, listed, a, objects, c);
    if |c| >= 2 {
      SpelledSlashFree(listed, c[1..]);
      AggregationsAgree(bucket, listed, a.metas, c[1..]);
      assert [bucket] + c[1..] == c;
    }
  }

  lemma OutcomeCounters(s: Scan, nodes: Nodes, items: Items, i: nat)
    requires IsOutcome(s, nodes, items) && i in s.names && i in nodes && !Stranded(nodes[i])
    ensures nodes[i].itemCount == TallyCount(s.log, s.names[i]) && nodes[i].totalSize == TallySize(s.log, s.names[i])
  {
    assert FinishedRow(nodes[i], s.names[i], s.log);
  }

  lemma DistinctAnywhere(log: seq<Delivery>, d: seq<string>)
    requires DistinctBelow(log, [])
    ensures DistinctBelow(log, d)
  {
  }
}

/** The round trip of a whole-bucket scan: the items delivered are exactly the listed objects, the directories made are
    exactly those their keys spell, and the counters agree with the scanner's own aggregates. */
module BucketRoundTrip {
  import opened GoStrings
  import opened ObjectKeys
  import opened Sequences
  import opened Deliveries
  import opened ScanSession
  import opened ScanSteps
  import opened BucketScans
  import opened ObjectStorageScanner

  // ---- Objects --------------------------------------------------------------------

  ghost predicate IsKeyRow(bucket: string, m: ObjectMetadata, o: S3Object) {
    WellFormedKey(o.key) && IsObjectKey(o.key) && m == ObjectRow(bucket, o, "")
  }

  lemma SegmentsOfDelivery(bucket: string, o: S3Object)
    ensures |KeyDelivery(bucket, o).dir| >= 1 && KeySegments(o.key) == KeyDelivery(bucket, o).dir[1..] + [KeyDelivery(bucket, o).name]
  {
    hide Split, TrimSuffix;
  }

  lemma KeyInjective(bucket: string, o: S3Object, p: S3Object)
    requires WellFormedKey(o.key) && !IsDirKey(o.key) && WellFormedKey(p.key) && !IsDirKey(p.key)
    requires KeyDelivery(bucket, o).dir == KeyDelivery(bucket, p).dir && KeyDelivery(bucket, o).name == KeyDelivery(bucket, p).name
    ensures o.key == p.key
  {
    hide KeySegments, KeyDelivery, Join;
    KeyFacts(o.key);
    KeyFacts(p.key);
    SegmentsOfDelivery(bucket, o);
    SegmentsOfDelivery(bucket, p);
  }

  lemma RowsDistinct(bucket: string, listed: seq<S3Object>)
    requires WellFormedListing(listed)
    ensures NoDuplicates(CountedRows(Entries(bucket, listed, "")))
  {
    var rows := CountedRows(Entries(bucket, listed, ""));
    CountedRowsOfKeys(bucket, listed);
    CountedObjectsDistinct(listed);
    forall i, j | 0 <= i < j < |rows| ensures rows[i] != rows[j] {
      KeyOfRow(bucket, listed, i);
      KeyOfRow(bucket, listed, j);
    }
  }

  lemma KeyOfRow(bucket: string, listed: seq<S3Object>, k: nat)
    requires WellFormedListing(listed) && k < |CountedObjects(listed)|
    ensures var o := CountedObjects(listed)[k];
            o in listed && WellFormedKey(o.key) && IsObjectKey(o.key) && ObjectRow(bucket, o, "").relativePath == o.key
  {
    var o := CountedObjects(listed)[k];
    CountedObjectsMember(listed, o);
    KeyFacts(o.key);
  }

  /** Each object row of a scan stands for one listed object. */
  lemma ObjectOfRow(bucket: string, listed: seq<S3Object>, objects: seq<ObjectMetadata>, k: nat) returns (o: S3Object)
    requires WellFormedListing(listed) && IsObjectPart(Entries(bucket, listed, ""), objects) && k < |objects|
    ensures o in CountedObjects(listed) && o in listed && IsKeyRow(bucket, objects[k], o)
  {
    var rows := CountedRows(Entries(bucket, listed, ""));
    PermutationMembers(rows, objects, objects[k]);
    assert objects[k] in objects;
    var j :| 0 <= j < |rows| && rows[j] == objects[k];
    CountedRowsOfKeys(bucket, listed);
    KeyOfRow(bucket, listed, j);
    o := CountedObjects(listed)[j];
  }

  /** And each counted object has one. */
  lemma RowOfObject(bucket: string, listed: seq<S3Object>, objects: seq<ObjectMetadata>, o: S3Object) returns (k: nat)
    requires WellFormedListing(listed) && IsObjectPart(Entries(bucket, listed, ""), objects) && o in CountedObjects(listed)
    ensures k < |objects| && objects[k] == ObjectRow(bucket, o, "")
  {
    var rows := CountedRows(Entries(bucket, listed, ""));
    var j :| 0 <= j < |CountedObjects(listed)| && CountedObjects(listed)[j] == o;
    CountedRowsOfKeys(bucket, listed);
    assert rows[j] in rows;
    PermutationMembers(rows, objects, rows[j]);
    k :| 0 <= k < |objects| && objects[k] == rows[j];
  }

  lemma OnlyObjects(bucket: string, listed: seq<S3Object>, dirs: seq<ObjectMetadata>, objects: seq<ObjectMetadata>)
    requires WellFormedListing(listed) && WellFormedBucket(bucket)
    requires IsDirectoryPart(bucket, "", Entries(bucket, listed, ""), dirs) && IsObjectPart(Entries(bucket, listed, ""), objects)
    ensures DeliveriesOf(bucket, dirs + objects) == DeliveriesOf(bucket, objects)
    ensures |DeliveriesOf(bucket, objects)| == |objects| == |CountedObjects(listed)|
    ensures forall k :: 0 <= k < |objects| ==> DeliveriesOf(bucket, objects)[k] == DeliveryOf(bucket, objects[k])
  {
    hide DeliveryOf, WellFormedKey;
    DeliveriesConcat(bucket, dirs, objects);
    NoDeliveries(bucket, dirs);
    forall m | m in objects ensures m.nodeType.ObjectMeta? {
      var k :| 0 <= k < |objects| && objects[k] == m;
      var _ := ObjectOfRow(bucket, listed, objects, k);
    }
    AllDeliveries(bucket, objects);
    CountedRowsOfKeys(bucket, listed);
    if objects != [] {
      PermutationMembers(CountedRows(Entries(bucket, listed, "")), objects, objects[0]);
    } else {
      assert |multiset(objects)| == |multiset(CountedRows(Entries(bucket, listed, "")))|;
    }
  }

  lemma DeliveryOfObject(bucket: string, listed: seq<S3Object>, objects: seq<ObjectMetadata>, k: nat) returns (o: S3Object)
    requires WellFormedListing(listed) && WellFormedBucket(bucket)
    requires IsObjectPart(Entries(bucket, listed, ""), objects) && k < |objects|
    ensures o in CountedObjects(listed) && IsKeyRow(bucket, objects[k], o) && DeliveryOf(bucket, objects[k]) == KeyDelivery(bucket, o)
  {
    hide DeliveryOf, KeyDelivery, ObjectRow, WellFormedKey, KeySegments;
    o := ObjectOfRow(bucket, listed, objects, k);
    RowOfKey(bucket, o);
  }

  /** The items a scan asks for are exactly the counted objects, each once. */
  lemma LogIsKeys(bucket: string, listed: seq<S3Object>, metas: seq<ObjectMetadata>)
    requires WellFormedListing(listed) && WellFormedBucket(bucket)
    requires IsScan(bucket, "", Entries(bucket, listed, ""), metas)
    ensures |DeliveriesOf(bucket, metas)| == |CountedObjects(listed)|
    ensures forall x :: x in DeliveriesOf(bucket, metas) ==> exists o :: o in CountedObjects(listed) && x == KeyDelivery(bucket, o)
    ensures forall o :: o in CountedObjects(listed) ==> KeyDelivery(bucket, o) in DeliveriesOf(bucket, metas)
    ensures DistinctBelow(DeliveriesOf(bucket, metas), [])
  {
    hide DeliveryOf, KeyDelivery, ObjectRow, WellFormedKey, KeySegments, IsScan;
    var es := Entries(bucket, listed, "");
    var dirs, objects := ScanParts(bucket, es, metas);
    var log := DeliveriesOf(bucket, metas);
    OnlyObjects(bucket, listed, dirs, objects);
    forall x | x in log ensures exists o :: o in CountedObjects(listed) && x == KeyDelivery(bucket, o) {
      var k :| 0 <= k < |log| && log[k] == x;
      var o := DeliveryOfObject(bucket, listed, objects, k);
    }
    forall o | o in CountedObjects(listed) ensures KeyDelivery(bucket, o) in log {
      var k := RowOfObject(bucket, listed, objects, o);
      CountedObjectsMember(listed, o);
      RowOfKey(bucket, o);
      assert log[k] == KeyDelivery(bucket, o);
    }
    RowsDistinct(bucket, listed);
    PermutationKeepsDistinct(CountedRows(es), objects);
    forall i, j | 0 <= i < j < |log| ensures log[i].dir != log[j].dir || log[i].name != log[j].name {
      LogDistinct(bucket, listed, objects, i, j);
    }
  }

  lemma LogDistinct(bucket: string, listed: seq<S3Object>, objects: seq<ObjectMetadata>, i: nat, j: nat)
    requires WellFormedListing(listed) && WellFormedBucket(bucket)
    requires IsObjectPart(Entries(bucket, listed, ""), objects) && NoDuplicates(objects) && i < j < |objects|
    ensures DeliveryOf(bucket, objects[i]).dir != DeliveryOf(bucket, objects[j]).dir
            || DeliveryOf(bucket, objects[i]).name != DeliveryOf(bucket, objects[j]).name
  {
    hide DeliveryOf, KeyDelivery, ObjectRow, WellFormedKey, KeySegments;
    var o := DeliveryOfObject(bucket, listed, objects, i);
    var p := DeliveryOfObject(bucket, listed, objects, j);
    if DeliveryOf(bucket, objects[i]).dir == DeliveryOf(bucket, objects[j]).dir
       && DeliveryOf(bucket, objects[i]).name == DeliveryOf(bucket, objects[j]).name {
      KeyInjective(bucket, o, p);
      SameKeySameObject(listed, o, p);
    }
  }

  lemma SameKeySameObject(listed: seq<S3Object>, o: S3Object, p: S3Object)
    requires WellFormedListing(listed) && o in CountedObjects(listed) && p in CountedObjects(listed) && o.key == p.key
    ensures o == p
  {
    CountedObjectsDistinct(listed);
    var i :| 0 <= i < |CountedObjects(listed)| && CountedObjects(listed)[i] == o;
    var j :| 0 <= j < |CountedObjects(listed)| && CountedObjects(listed)[j] == p;
    assert i == j;
  }

  // ---- The two aggregations ------------------------------------------------------------

  function UnderOne(m: ObjectMetadata, d: string): int {
    if HasPrefix(m.relativePath, d + "/") then 1 else 0
  }

  function UnderBytes(m: ObjectMetadata, d: string): int {
    if HasPrefix(m.relativePath, d + "/") then m.sizeBytes else 0
  }

  lemma UnderSnoc(xs: seq<ObjectMetadata>, m: ObjectMetadata, d: string)
    ensures CountUnder(xs + [m], d) == CountUnder(xs, d) + UnderOne(m, d)
    ensures SumUnder(xs + [m], d) == SumUnder(xs, d) + UnderBytes(m, d)
  {
    assert (xs + [m])[..|xs|] == xs;
  }

  lemma {:induction false} UnderRemove(ys: seq<ObjectMetadata>, j: nat, d: string)
    requires j < |ys|
    ensures CountUnder(ys, d) == CountUnder(ys[..j] + ys[j + 1..], d) + UnderOne(ys[j], d)
    ensures SumUnder(ys, d) == SumUnder(ys[..j] + ys[j + 1..], d) + UnderBytes(ys[j], d)
    decreases |ys|
  {
    hide CountUnder, SumUnder, UnderOne, UnderBytes;
    var front, last := ys[..|ys| - 1], ys[|ys| - 1];
    assert ys == front + [last];
    UnderSnoc(front, last, d);
    if j == |ys| - 1 {
      assert ys[..j] + ys[j + 1..] == front;
    } else {
      UnderRemove(front, j, d);
      assert ys[..j] + ys[j + 1..] == front[..j] + front[j + 1..] + [last];
      UnderSnoc(front[..j] + front[j + 1..], last, d);
    }
  }

  /** The scanner's sums do not depend on the order of its rows. */
  lemma {:induction false} UnderPermutation(xs: seq<ObjectMetadata>, ys: seq<ObjectMetadata>, d: string)
    requires multiset(xs) == multiset(ys)
    ensures CountUnder(xs, d) == CountUnder(ys, d) && SumUnder(xs, d) == SumUnder(ys, d)
    decreases |xs|
  {
    if xs == [] {
      assert |multiset(ys)| == 0;
    } else {
      var j := RemoveOne(xs, ys);
      UnderPermutation(xs[..|xs| - 1], ys[..j] + ys[j + 1..], d);
      UnderRemove(ys, j, d);
      UnderRemove(xs, |xs| - 1, d);
      assert xs[..|xs| - 1] + xs[|xs|..] == xs[..|xs| - 1];
    }
  }

  /** A key lies under a directory, by its string, exactly if the directory's chain lies above the item, by its names. */
  lemma UnderIsCredit(bucket: string, o: S3Object, q: seq<string>)
    requires WellFormedKey(o.key) && IsObjectKey(o.key) && |q| >= 1 && AllSlashFree(q)
    ensures Credit(KeyDelivery(bucket, o), [bucket] + q) == UnderOne(ObjectRow(bucket, o, ""), Join(q))
  {
    hide KeySegments, Join, Split, CleanSegment;
    var p := KeySegments(o.key);
    KeyFacts(o.key);
    KeySegmentsClean(o.key);
    JoinPrefix(q, p);
    PrefixOfFront(bucket, q, p);
    CreditOfKey(bucket, o, q);
  }

  lemma CreditOfKey(bucket: string, o: S3Object, q: seq<string>)
    ensures |KeySegments(o.key)| >= 1
    ensures Credit(KeyDelivery(bucket, o), [bucket] + q) == if [bucket] + q <= [bucket] + KeySegments(o.key)[..|KeySegments(o.key)| - 1] then 1 else 0
    ensures ObjectRow(bucket, o, "").relativePath == Relative(o.key, "")
  {
    hide Split, TrimSuffix, Relative;
  }

  lemma PrefixOfFront(bucket: string, q: seq<string>, p: seq<string>)
    requires |p| >= 1
    ensures [bucket] + q <= [bucket] + p[..|p| - 1] <==> ProperPrefix(q, p)
  {
    var a, b := [bucket] + q, [bucket] + p[..|p| - 1];
    assert a[1..] == q && b[1..] == p[..|p| - 1];
    if a <= b {
      assert q == b[1..][..|q|];
    }
    if ProperPrefix(q, p) {
      assert a == b[..|a|];
    }
  }

  lemma NothingTallied(bucket: string, q: seq<string>)
    ensures TallyCount(DeliveriesOf(bucket, []), [bucket] + q) == CountUnder([], Join(q)) == 0
    ensures TallySize(DeliveriesOf(bucket, []), [bucket] + q) == SumUnder([], Join(q)) == 0
  {
  }

  lemma TallyOneMore(bucket: string, objects: seq<ObjectMetadata>, m: ObjectMetadata, o: S3Object, q: seq<string>)
    requires WellFormedBucket(bucket) && |q| >= 1 && AllSlashFree(q) && IsKeyRow(bucket, m, o)
    requires TallyCount(DeliveriesOf(bucket, objects), [bucket] + q) == CountUnder(objects, Join(q))
    requires TallySize(DeliveriesOf(bucket, objects), [bucket] + q) == SumUnder(objects, Join(q))
    ensures TallyCount(DeliveriesOf(bucket, objects + [m]), [bucket] + q) == CountUnder(objects + [m], Join(q))
    ensures TallySize(DeliveriesOf(bucket, objects + [m]), [bucket] + q) == SumUnder(objects + [m], Join(q))
  {
    hide DeliveryOf, KeyDelivery, WellFormedKey, KeySegments, Join, CountUnder, SumUnder, TallyCount, TallySize, HasPrefix;
    RowOfKey(bucket, o);
    UnderIsCredit(bucket, o, q);
    DeliverySize(bucket, o);
    assert (objects + [m])[..|objects|] == objects;
    TallySnoc(DeliveriesOf(bucket, objects), KeyDelivery(bucket, o), [bucket] + q);
    UnderSnoc(objects, m, Join(q));
  }

  lemma {:induction false} TallyIsUnder(bucket: string, objects: seq<ObjectMetadata>, os: seq<S3Object>, q: seq<string>)
    requires WellFormedBucket(bucket) && |q| >= 1 && AllSlashFree(q)
    requires |os| == |objects| && forall k :: 0 <= k < |objects| ==> IsKeyRow(bucket, objects[k], os[k])
    ensures TallyCount(DeliveriesOf(bucket, objects), [bucket] + q) == CountUnder(objects, Join(q))
    ensures TallySize(DeliveriesOf(bucket, objects), [bucket] + q) == SumUnder(objects, Join(q))
  {
    hide DeliveryOf, KeyDelivery, WellFormedKey, KeySegments, Join, IsKeyRow, CountUnder, SumUnder, TallyCount, TallySize, DeliveriesOf, HasPrefix;
    if objects == [] {
      NothingTallied(bucket, q);
    } else {
      var k := |objects| - 1;
      TallyIsUnder(bucket, objects[..k], os[..k], q);
      assert objects == objects[..k] + [objects[k]];
      TallyOneMore(bucket, objects[..k], objects[k], os[k], q);
    }
  }

  lemma DeliverySize(bucket: string, o: S3Object)
    ensures DataSize(KeyDelivery(bucket, o).data) == o.size
  {
  }

  lemma {:induction false} ObjectsOfRows(bucket: string, listed: seq<S3Object>, objects: seq<ObjectMetadata>, n: nat) returns (os: seq<S3Object>)
    requires WellFormedListing(listed) && IsObjectPart(Entries(bucket, listed, ""), objects) && n <= |objects|
    ensures |os| == n && forall k :: 0 <= k < n ==> IsKeyRow(bucket, objects[k], os[k])
  {
    hide *;
    if n == 0 {
      os := [];
    } else {
      var front := ObjectsOfRows(bucket, listed, objects, n - 1);
      var o := ObjectOfRow(bucket, listed, objects, n - 1);
      os := front + [o];
    }
  }

  /** The counters the service recomputes from its own walk equal the aggregates the scanner collected, for every
      directory path, although the service ignores the scanner's totals. */
  lemma AggregationsAgree(bucket: string, listed: seq<S3Object>, metas: seq<ObjectMetadata>, q: seq<string>)
    requires WellFormedListing(listed) && WellFormedBucket(bucket) && |q| >= 1 && AllSlashFree(q)
    requires IsScan(bucket, "", Entries(bucket, listed, ""), metas)
    ensures TallyCount(DeliveriesOf(bucket, metas), [bucket] + q) == CountUnder(CountedRows(Entries(bucket, listed, "")), Join(q))
    ensures TallySize(DeliveriesOf(bucket, metas), [bucket] + q) == SumUnder(CountedRows(Entries(bucket, listed, "")), Join(q))
    ensures forall m :: m in metas && m.nodeType.PrefixMeta? && m.relativePath == Join(q) ==>
              m.objectCount == TallyCount(DeliveriesOf(bucket, metas), [bucket] + q)
              && m.sizeBytes == TallySize(DeliveriesOf(bucket, metas), [bucket] + q)
  {
    hide IsKeyRow, WellFormedKey, KeySegments, IsScan, WellFormedListing;
    var es := Entries(bucket, listed, "");
    var dirs, objects := ScanParts(bucket, es, metas);
    OnlyObjects(bucket, listed, dirs, objects);
    var os := ObjectsOfRows(bucket, listed, objects, |objects|);
    TallyIsUnder(bucket, objects, os, q);
    UnderPermutation(CountedRows(es), objects, Join(q));
    forall m | m in metas && m.nodeType.PrefixMeta? && m.relativePath == Join(q)
      ensures m.objectCount == CountUnder(CountedRows(es), Join(q)) && m.sizeBytes == SumUnder(CountedRows(es), Join(q))
    {
      DirectoryRowsAreExact(bucket, listed, dirs, objects, os, m);
    }
  }

  lemma DirectoryRowsAreExact(bucket: string, listed: seq<S3Object>, dirs: seq<ObjectMetadata>, objects: seq<ObjectMetadata>,
      os: seq<S3Object>, m: ObjectMetadata)
    requires IsDirectoryPart(bucket, "", Entries(bucket, listed, ""), dirs)
    requires |os| == |objects| && forall k :: 0 <= k < |objects| ==> IsKeyRow(bucket, objects[k], os[k])
    requires m in dirs + objects && m.nodeType.PrefixMeta?
    ensures m == DirRow(bucket, "", CountedRows(Entries(bucket, listed, "")), m.relativePath) && m in dirs
  {
    forall k | 0 <= k < |objects| ensures objects[k].nodeType.ObjectMeta? {
      assert IsKeyRow(bucket, objects[k], os[k]);
    }
  }

  /** The bucket itself counts every object. */
  lemma {:induction false} BucketTally(bucket: string, log: seq<Delivery>)
    requires forall x :: x in log ==> |x.dir| >= 1 && x.dir[0] == bucket
    ensures TallyCount(log, [bucket]) == |log|
  {
    if log != [] {
      var x := log[|log| - 1];
      assert x in log;
      assert [bucket] <= x.dir;
      BucketTally(bucket, log[..|log| - 1]);
    }
  }

  // ---- Directories ---------------------------------------------------------------------

  /** The directories a key spells: all its segments for a marker, all but the last for an object. */
  function DirSegments(key: string): seq<string> {
    if IsDirKey(key) then KeySegments(key) else KeySegments(key)[..|KeySegments(key)| - 1]
  }

  ghost predicate SpelledBy(o: S3Object, q: seq<string>) {
    !HasReservedObjectSegment(o.key) && |q| >= 1 && q <= DirSegments(o.key)
  }

  ghost predicate Spelled(listed: seq<S3Object>, q: seq<string>) {
    exists o :: o in listed && SpelledBy(o, q)
  }

  lemma {:induction false} DirsUpToMeans(bucket: string, dirs: seq<string>, k: nat, c: seq<string>)
    requires k <= |dirs|
    ensures c in DirsUpTo(bucket, dirs, k) <==> exists j :: 1 <= j <= k && c == [bucket] + dirs[..j]
  {
    if k > 0 {
      DirsUpToMeans(bucket, dirs, k - 1, c);
    }
  }

  lemma {:induction false} DirectoriesMember(bucket: string, metas: seq<ObjectMetadata>, c: seq<string>)
    ensures c in DirectoriesOf(bucket, metas) <==> exists m :: m in metas && c in RowDirs(bucket, m)
  {
    hide RowDirs;
    if metas != [] {
      var front := metas[..|metas| - 1];
      DirectoriesMember(bucket, front, c);
      assert metas == front + [metas[|metas| - 1]];
    }
  }

  lemma CleanPrefixSegments(p: seq<string>, q: seq<string>)
    requires CleanSegments(p) && q <= p
    ensures CleanSegments(q)
  {
    forall i | 0 <= i < |q| ensures CleanSegment(q[i]) {
      assert q[i] == p[i];
    }
  }

  /** What a key adds to the scanner's table is spelled by the key. */
  lemma EntryDirs(bucket: string, o: S3Object, known: set<string>, d: string)
    requires WellFormedKey(o.key) && d in WithDirs(known, Classify(bucket, o, "")) && d !in known
    ensures SpelledBy(o, Split(d)) && CleanSegments(Split(d))
  {
    hide Join, Split, CleanSegments, WellFormedKey, KeySegments, Classify, WithDirsUpTo;
    var p := KeySegments(o.key);
    ClassifyKey(bucket, o);
    KeySegmentsClean(o.key);
    if IsDirKey(o.key) {
      SplitJoin(p);
      assert Split(d) == p;
    } else {
      DirsUpToMember(known, p, |p|, d);
      assert Split(d) <= p[..|p| - 1];
    }
    CleanPrefixSegments(p, Split(d));
  }

  lemma KeySegmentsClean(key: string)
    requires WellFormedKey(key)
    ensures CleanSegments(KeySegments(key)) && AllSlashFree(KeySegments(key)) && |KeySegments(key)| >= 1
  {
    CleanParts(KeySegments(key));
  }

  lemma {:induction false} DirPathsSpelled(bucket: string, listed: seq<S3Object>, d: string)
    requires WellFormedListing(listed) && d in DirPaths(Entries(bucket, listed, ""))
    ensures Spelled(listed, Split(d)) && CleanSegments(Split(d))
  {
    hide WellFormedKey, CleanSegments, SpelledBy, Classify, WithDirs;
    var front := listed[..|listed| - 1];
    var last := listed[|listed| - 1];
    var es := Entries(bucket, listed, "");
    assert es[..|es| - 1] == Entries(bucket, front, "");
    WellFormedPrefix(listed, |listed| - 1);
    if d in DirPaths(Entries(bucket, front, "")) {
      DirPathsSpelled(bucket, front, d);
      var o :| o in front && SpelledBy(o, Split(d));
      assert o in listed;
    } else {
      EntryDirs(bucket, last, DirPaths(Entries(bucket, front, "")), d);
      assert last in listed;
    }
  }

  lemma {:induction false} MarkerListed(bucket: string, listed: seq<S3Object>, o: S3Object)
    requires WellFormedListing(listed) && o in listed && IsDirKey(o.key) && !HasReservedObjectSegment(o.key)
    ensures Join(KeySegments(o.key)) in DirPaths(Entries(bucket, listed, ""))
  {
    hide Classify, KeySegments, WellFormedKey, WellFormedListing, IsDirKey, HasReservedObjectSegment, Join, WithDirs;
    var front := listed[..|listed| - 1];
    var last := listed[|listed| - 1];
    LastEntry(bucket, listed);
    WellFormedPrefix(listed, |listed| - 1);
    if o == last {
      MarkerMarks(bucket, listed, o, DirPaths(Entries(bucket, front, "")));
    } else {
      MarkerListed(bucket, front, o);
      EntryKeeps(DirPaths(Entries(bucket, front, "")), Classify(bucket, last, ""));
    }
  }

  lemma LastEntry(bucket: string, listed: seq<S3Object>)
    requires listed != []
    ensures DirPaths(Entries(bucket, listed, ""))
            == WithDirs(DirPaths(Entries(bucket, listed[..|listed| - 1], "")), Classify(bucket, listed[|listed| - 1], ""))
  {
    hide Classify, WithDirs;
    var es := Entries(bucket, listed, "");
    assert es[..|es| - 1] == Entries(bucket, listed[..|listed| - 1], "");
  }

  lemma MarkerMarks(bucket: string, listed: seq<S3Object>, o: S3Object, known: set<string>)
    requires WellFormedListing(listed) && o in listed && IsDirKey(o.key) && !HasReservedObjectSegment(o.key)
    ensures Join(KeySegments(o.key)) in WithDirs(known, Classify(bucket, o, ""))
  {
    hide KeySegments, HasReservedObjectSegment, Join, IsDirKey, Classify;
    ClassifyKey(bucket, o);
    KeyFacts(o.key);
  }

  lemma EntryKeeps(known: set<string>, e: Entry)
    ensures known <= WithDirs(known, e)
  {
    if e.Counted? {
      DirsUpToGrows(known, e.parts, |e.parts|);
    }
  }

  lemma DirRowSurvives(bucket: string, rows: seq<ObjectMetadata>, o: S3Object)
    requires WellFormedBucket(bucket) && WellFormedKey(o.key) && IsDirKey(o.key) && !HasReservedObjectSegment(o.key)
    ensures Survives(DirRow(bucket, "", rows, Join(KeySegments(o.key))))
  {
    var d := Join(KeySegments(o.key));
    KeyFacts(o.key);
    TrimSuffixNotReserved(o.key);
    assert TrimSuffix(o.key, "/") == d;
    ReservedJoin(bucket, d);
    ReservedBySegments(bucket);
    SplitSlashFree(bucket);
    assert ReservedIn([bucket]) == {};
  }

  lemma DirRowDirs(bucket: string, rows: seq<ObjectMetadata>, d: string)
    requires CleanSegments(Split(d))
    ensures MetaDirs(DirRow(bucket, "", rows, d)) == Split(d)
  {
    JoinSplit(d);
    SanitizeClean(Split(d));
  }

  lemma DirRowMeans(bucket: string, listed: seq<S3Object>, m: ObjectMetadata)
    requires WellFormedListing(listed) && m.relativePath in DirPaths(Entries(bucket, listed, ""))
    requires m == DirRow(bucket, "", CountedRows(Entries(bucket, listed, "")), m.relativePath)
    ensures Spelled(listed, MetaDirs(m))
  {
    DirPathsSpelled(bucket, listed, m.relativePath);
    DirRowDirs(bucket, CountedRows(Entries(bucket, listed, "")), m.relativePath);
  }

  lemma ObjectRowDirs(bucket: string, m: ObjectMetadata, o: S3Object)
    requires WellFormedBucket(bucket) && IsKeyRow(bucket, m, o)
    ensures MetaDirs(m) == DirSegments(o.key)
  {
    RowOfKey(bucket, o);
  }

  /** Every row's directories are spelled by some key. */
  lemma RowSpelled(bucket: string, listed: seq<S3Object>, metas: seq<ObjectMetadata>, m: ObjectMetadata, c: seq<string>) returns (q: seq<string>)
    requires WellFormedListing(listed) && WellFormedBucket(bucket)
    requires IsScan(bucket, "", Entries(bucket, listed, ""), metas) && m in metas && c in RowDirs(bucket, m)
    ensures c == [bucket] + q && Spelled(listed, q)
  {
    hide WellFormedKey, KeySegments, IsKeyRow, IsScan, MetaDirs, DirSegments, HasReservedObjectSegment;
    var es := Entries(bucket, listed, "");
    var dirs, objects := ScanParts(bucket, es, metas);
    DirsUpToMeans(bucket, MetaDirs(m), |MetaDirs(m)|, c);
    var j :| 1 <= j <= |MetaDirs(m)| && c == [bucket] + MetaDirs(m)[..j];
    q := MetaDirs(m)[..j];
    var o;
    if m in dirs {
      DirRowMeans(bucket, listed, m);
      o :| o in listed && SpelledBy(o, MetaDirs(m));
    } else {
      var k :| 0 <= k < |objects| && objects[k] == m;
      o := ObjectOfRow(bucket, listed, objects, k);
      ObjectRowDirs(bucket, m, o);
      KeyRowFacts(bucket, m, o);
    }
    assert SpelledBy(o, q);
  }

  lemma KeyRowFacts(bucket: string, m: ObjectMetadata, o: S3Object)
    requires IsKeyRow(bucket, m, o)
    ensures WellFormedKey(o.key) && !IsDirKey(o.key) && !HasReservedObjectSegment(o.key)
  {
  }

  /** And every directory a key spells is made. */
  lemma SpelledMade(bucket: string, listed: seq<S3Object>, metas: seq<ObjectMetadata>, o: S3Object, q: seq<string>) returns (m: ObjectMetadata)
    requires WellFormedListing(listed) && WellFormedBucket(bucket)
    requires IsScan(bucket, "", Entries(bucket, listed, ""), metas) && o in listed && SpelledBy(o, q)
    ensures m in metas && [bucket] + q in RowDirs(bucket, m)
  {
    hide WellFormedKey, KeySegments, IsScan, MetaDirs, HasReservedObjectSegment, Survives, DirRow;
    var es := Entries(bucket, listed, "");
    var dirs, objects := ScanParts(bucket, es, metas);
    assert WellFormedKey(o.key);
    if IsDirKey(o.key) {
      var d := Join(KeySegments(o.key));
      MarkerListed(bucket, listed, o);
      DirRowSurvives(bucket, CountedRows(es), o);
      m := DirRow(bucket, "", CountedRows(es), d);
      MarkerRowDirs(bucket, CountedRows(es), o);
    } else {
      CountedObjectsMember(listed, o);
      var k := RowOfObject(bucket, listed, objects, o);
      m := objects[k];
      ObjectRowDirs(bucket, m, o);
    }
    assert MetaDirs(m)[..|q|] == q;
    DirsUpToMeans(bucket, MetaDirs(m), |MetaDirs(m)|, [bucket] + q);
  }

  lemma MarkerRowDirs(bucket: string, rows: seq<ObjectMetadata>, o: S3Object)
    requires WellFormedKey(o.key) && IsDirKey(o.key)
    ensures MetaDirs(DirRow(bucket, "", rows, Join(KeySegments(o.key)))) == DirSegments(o.key)
  {
    CleanParts(KeySegments(o.key));
    SplitJoin(KeySegments(o.key));
    DirRowDirs(bucket, rows, Join(KeySegments(o.key)));
  }

  /** The directories a scan makes are exactly those that some unreserved key spells. */
  lemma TreeIsSpelled(bucket: string, listed: seq<S3Object>, metas: seq<ObjectMetadata>, c: seq<string>)
    requires WellFormedListing(listed) && WellFormedBucket(bucket)
    requires IsScan(bucket, "", Entries(bucket, listed, ""), metas)
    ensures c in DirectoriesOf(bucket, metas) <==> |c| >= 1 && c[0] == bucket && Spelled(listed, c[1..])
  {
    hide WellFormedListing, IsScan, RowDirs, SpelledBy;
    DirectoriesMember(bucket, metas, c);
    if c in DirectoriesOf(bucket, metas) {
      var m :| m in metas && c in RowDirs(bucket, m);
      var q := RowSpelled(bucket, listed, metas, m, c);
      assert c[1..] == q;
    }
    if |c| >= 1 && c[0] == bucket && Spelled(listed, c[1..]) {
      var o :| o in listed && SpelledBy(o, c[1..]);
      var m := SpelledMade(bucket, listed, metas, o, c[1..]);
      assert [bucket] + c[1..] == c;
    }
  }

  // ---- Order ------------------------------------------------------------------------------

  lemma SortedObjectsUnique(bucket: string, listed: seq<S3Object>, xs: seq<ObjectMetadata>, ys: seq<ObjectMetadata>)
    requires WellFormedListing(listed)
    requires IsObjectPart(Entries(bucket, listed, ""), xs) && IsObjectPart(Entries(bucket, listed, ""), ys)
    ensures xs == ys
  {
    PathOrder();
    forall a, b | a in xs && b in xs && PathLe(a, b) && PathLe(b, a) ensures a == b {
      var i :| 0 <= i < |xs| && xs[i] == a;
      var j :| 0 <= j < |xs| && xs[j] == b;
      StrLeAntisymmetric(a.relativePath, b.relativePath);
      var o := ObjectOfRow(bucket, listed, xs, i);
      var p := ObjectOfRow(bucket, listed, xs, j);
      SamePathSameRow(bucket, listed, a, b, o, p);
    }
    OrderedPermutationsAgree(xs, ys, PathLe);
  }

  lemma SamePathSameRow(bucket: string, listed: seq<S3Object>, a: ObjectMetadata, b: ObjectMetadata, o: S3Object, p: S3Object)
    requires WellFormedListing(listed) && o in CountedObjects(listed) && p in CountedObjects(listed)
    requires IsKeyRow(bucket, a, o) && IsKeyRow(bucket, b, p) && a.relativePath == b.relativePath
    ensures a == b
  {
    KeyFacts(o.key);
    KeyFacts(p.key);
    SameKeySameObject(listed, o, p);
  }

  /** The scanner emits its directory rows in no particular order; the service ends up with the same items in the same
      order and the same directories. */
  lemma OrderIrrelevant(bucket: string, listed: seq<S3Object>, metas: seq<ObjectMetadata>, metas': seq<ObjectMetadata>)
    requires WellFormedListing(listed) && WellFormedBucket(bucket)
    requires IsScan(bucket, "", Entries(bucket, listed, ""), metas) && IsScan(bucket, "", Entries(bucket, listed, ""), metas')
    ensures DeliveriesOf(bucket, metas) == DeliveriesOf(bucket, metas')
    ensures DirectoriesOf(bucket, metas) == DirectoriesOf(bucket, metas')
  {
    hide IsScan, WellFormedListing, WellFormedBucket, IsDirectoryPart, IsObjectPart, Spelled;
    var es := Entries(bucket, listed, "");
    var dirs, objects := ScanParts(bucket, es, metas);
    var dirs', objects' := ScanParts(bucket, es, metas');
    OnlyObjects(bucket, listed, dirs, objects);
    OnlyObjects(bucket, listed, dirs', objects');
    SortedObjectsUnique(bucket, listed, objects, objects');
    forall c: seq<string> ensures c in DirectoriesOf(bucket, metas) <==> c in DirectoriesOf(bucket, metas') {
      TreeIsSpelled(bucket, listed, metas, c);
      TreeIsSpelled(bucket, listed, metas', c);
    }
  }
}

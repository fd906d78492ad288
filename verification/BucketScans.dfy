/** A scan of a whole bucket whose keys are well formed: which items and directories it asks for, in terms of the keys alone. */
module BucketScans {
  import opened Options
  import opened GoStrings
  import opened ObjectKeys
  import opened Sequences
  import opened ObjectStorageScanner
  import opened MetadataForest
  import opened Deliveries
  import opened ScanSteps

  // ---- Well-formed keys ---------------------------------------------------------

  function KeySegments(key: string): seq<string> {
    Split(TrimSuffix(key, "/"))
  }

  /** Non-empty segments without surrounding blanks, apart from one trailing slash for directory markers. */
  predicate WellFormedKey(key: string) {
    CleanSegments(KeySegments(key))
  }

  ghost predicate WellFormedListing(listed: seq<S3Object>) {
    && (forall k :: 0 <= k < |listed| ==> WellFormedKey(listed[k].key))
    && (forall j, k :: 0 <= j < k < |listed| ==> listed[j].key != listed[k].key)
  }

  predicate WellFormedBucket(bucket: string) {
    CleanSegment(bucket) && !IsReservedObjectSegment(bucket)
  }

  predicate IsDirKey(key: string) {
    HasSuffix(key, "/")
  }

  /** The key of an object that a scan counts. */
  predicate IsObjectKey(key: string) {
    !IsDirKey(key) && !HasReservedObjectSegment(key)
  }

  lemma KeyFacts(key: string)
    requires WellFormedKey(key)
    ensures key == if IsDirKey(key) then Join(KeySegments(key)) + "/" else Join(KeySegments(key))
    ensures key != "" && key[0] != '/' && Relative(key, "") == key
    ensures Join(KeySegments(key)) != "" && TrimSlashes(Join(KeySegments(key))) == Join(KeySegments(key))
    ensures !IsDirKey(Join(KeySegments(key)))
    ensures CleanPrefix("") == ""
  {
    var p := KeySegments(key);
    JoinSplit(TrimSuffix(key, "/"));
    assert forall i :: 0 <= i < |p| ==> CleanSegment(p[i]);
    JoinTrimmed(p);
    JoinEnds(p);
    assert p[0][0] in p[0];
    assert p[|p| - 1][|p[|p| - 1]| - 1] in p[|p| - 1];
  }

  // ---- What a key contributes ----------------------------------------------------

  lemma ClassifyKey(bucket: string, o: S3Object)
    requires WellFormedKey(o.key)
    ensures Classify(bucket, o, "")
            == if HasReservedObjectSegment(o.key) then Skipped
               else if IsDirKey(o.key) then Marker(Join(KeySegments(o.key)))
               else Counted(ObjectRow(bucket, o, ""), KeySegments(o.key))
  {
    KeyFacts(o.key);
  }

  /** The item an object's key stands for. */
  function KeyDelivery(bucket: string, o: S3Object): Delivery {
    var p := KeySegments(o.key);
    Delivery([bucket] + p[..|p| - 1], p[|p| - 1],
             ItemData(bucket + "/" + o.key, None, Some(o.size), Some(o.size),
                      map["bucket" := bucket, "path" := bucket + "/" + o.key, "relative_path" := o.key]))
  }

  lemma CleanEnds(s: string)
    requires CleanSegment(s)
    ensures s != "" && s[0] != '/' && s[|s| - 1] != '/' && SlashFree(s) && TrimSlashes(s) == s
  {
    hide IsSpace;
    assert s[0] in s && s[|s| - 1] in s;
    TrimIdentity(s, Slashes);
  }

  lemma TrimRightStays(s: string)
    requires s != "" && s[|s| - 1] != '/'
    ensures TrimRight(s, Slashes) == s
  {
  }

  lemma CleanParts(q: seq<string>)
    requires CleanSegments(q)
    ensures AllSlashFree(q) && forall i :: 0 <= i < |q| ==> |q[i]| > 0
  {
    forall i | 0 <= i < |q| ensures SlashFree(q[i]) && |q[i]| > 0 {
      assert CleanSegment(q[i]);
    }
  }

  /** The last segment of a clean path is its base name. */
  lemma PathBase(q: seq<string>)
    requires |q| >= 1 && CleanSegments(q)
    ensures Join(q) != "" && TrimSlashes(Join(q)) == Join(q)
    ensures Base(Join(q)) == q[|q| - 1] && TrimSlashes(q[|q| - 1]) == q[|q| - 1] != ""
  {
    hide Join, Split, CleanSegment, TrimRight, TrimSlashes;
    CleanParts(q);
    assert CleanSegment(q[|q| - 1]);
    CleanEnds(q[|q| - 1]);
    JoinTrimmed(q);
    JoinEnds(q);
    TrimRightStays(Join(q));
    SplitJoin(q);
  }

  lemma BucketPath(bucket: string, p: seq<string>)
    requires CleanSegment(bucket) && CleanSegments(p) && |p| >= 1
    ensures CleanSegments([bucket] + p) && Join([bucket] + p) == bucket + "/" + Join(p)
    ensures p[|p| - 1] == ([bucket] + p)[|p|]
  {
    hide CleanSegment;
    var q := [bucket] + p;
    assert q[1..] == p;
    forall i | 0 <= i < |q| ensures CleanSegment(q[i]) {
      assert i > 0 ==> q[i] == p[i - 1];
    }
  }

  lemma RowName(bucket: string, o: S3Object)
    requires WellFormedBucket(bucket) && WellFormedKey(o.key) && !IsDirKey(o.key)
    ensures var p := KeySegments(o.key); ObjectName(ObjectRow(bucket, o, "")) == p[|p| - 1]
  {
    hide Join, Split, CleanSegment, TrimRight, TrimSlashes, Base;
    var p := KeySegments(o.key);
    KeyFacts(o.key);
    BucketPath(bucket, p);
    PathBase([bucket] + p);
  }

  lemma RowSegments(bucket: string, o: S3Object)
    requires WellFormedKey(o.key) && !IsDirKey(o.key)
    ensures MetaSegments(ObjectRow(bucket, o, "")) == KeySegments(o.key)
    ensures SanitizeObjectPath(o.key) == o.key && ObjectRow(bucket, o, "").relativePath == o.key
  {
    hide Join, Split, CleanSegment, SanitizeObjectPath;
    var p := KeySegments(o.key);
    KeyFacts(o.key);
    CleanParts(p);
    SanitizeClean(p);
    SplitJoin(p);
  }

  lemma RowDir(bucket: string, p: seq<string>)
    requires CleanSegment(bucket) && CleanSegments(p) && |p| >= 1
    ensures Join([bucket] + p[..|p| - 1]) + "/" + p[|p| - 1] == bucket + "/" + Join(p)
  {
    hide Join, CleanSegment, CleanSegments;
    BucketPath(bucket, p);
    assert [bucket] + p == ([bucket] + p[..|p| - 1]) + [p[|p| - 1]];
    JoinSnoc([bucket] + p[..|p| - 1], p[|p| - 1]);
  }

  /** The scanner's row for a key and the service's reading of that row give back the key. */
  lemma RowOfKey(bucket: string, o: S3Object)
    requires WellFormedBucket(bucket) && WellFormedKey(o.key) && !IsDirKey(o.key)
    ensures MetaDirs(ObjectRow(bucket, o, "")) == KeySegments(o.key)[..|KeySegments(o.key)| - 1]
    ensures DeliveryOf(bucket, ObjectRow(bucket, o, "")) == KeyDelivery(bucket, o)
  {
    hide Join, Split, CleanSegment, SanitizeObjectPath, ObjectName, KeySegments;
    KeyFacts(o.key);
    RowName(bucket, o);
    RowSegments(bucket, o);
    RowDir(bucket, KeySegments(o.key));
  }

  // ---- The counted objects -----------------------------------------------------------

  /** The listed objects that a scan counts, in listing order. */
  function CountedObjects(listed: seq<S3Object>): seq<S3Object> {
    if listed == [] then []
    else CountedObjects(listed[..|listed| - 1]) + (if IsObjectKey(listed[|listed| - 1].key) then [listed[|listed| - 1]] else [])
  }

  lemma WellFormedPrefix(listed: seq<S3Object>, n: nat)
    requires WellFormedListing(listed) && n <= |listed|
    ensures WellFormedListing(listed[..n])
  {
  }

  lemma {:induction false} CountedObjectsMember(listed: seq<S3Object>, o: S3Object)
    ensures o in CountedObjects(listed) <==> o in listed && IsObjectKey(o.key)
  {
    if listed != [] {
      CountedObjectsMember(listed[..|listed| - 1], o);
      assert listed == listed[..|listed| - 1] + [listed[|listed| - 1]];
    }
  }

  lemma {:induction false} CountedRowsOfKeys(bucket: string, listed: seq<S3Object>)
    requires WellFormedListing(listed)
    ensures var rows := CountedRows(Entries(bucket, listed, ""));
            && |rows| == |CountedObjects(listed)|
            && forall k :: 0 <= k < |rows| ==> rows[k] == ObjectRow(bucket, CountedObjects(listed)[k], "")
  {
    hide ObjectRow, Classify, KeySegments, WellFormedKey;
    if listed != [] {
      var front := listed[..|listed| - 1];
      var last := listed[|listed| - 1];
      WellFormedPrefix(listed, |listed| - 1);
      CountedRowsOfKeys(bucket, front);
      ClassifyKey(bucket, last);
      KeyFacts(last.key);
      assert Entries(bucket, listed, "")[..|listed| - 1] == Entries(bucket, front, "");
    }
  }

  lemma {:induction false} CountedObjectsDistinct(listed: seq<S3Object>)
    requires WellFormedListing(listed)
    ensures forall j, k :: 0 <= j < k < |CountedObjects(listed)| ==> CountedObjects(listed)[j].key != CountedObjects(listed)[k].key
  {
    hide IsObjectKey, WellFormedKey, WellFormedListing;
    if listed != [] {
      var front := listed[..|listed| - 1];
      WellFormedPrefix(listed, |listed| - 1);
      CountedObjectsDistinct(front);
      forall j | 0 <= j < |CountedObjects(front)| ensures CountedObjects(front)[j].key != listed[|listed| - 1].key {
        CountedObjectsMember(front, CountedObjects(front)[j]);
        LastKeyIsNew(listed, CountedObjects(front)[j]);
      }
    }
  }

  lemma LastKeyIsNew(listed: seq<S3Object>, o: S3Object)
    requires WellFormedListing(listed) && listed != [] && o in listed[..|listed| - 1]
    ensures o.key != listed[|listed| - 1].key
  {
    hide WellFormedKey;
    var k :| 0 <= k < |listed| - 1 && listed[k] == o;
  }

  /** No key is hit twice by an empty directory name: such a scan never panics. */
  lemma {:induction false} NeverPanics(bucket: string, listed: seq<S3Object>)
    requires WellFormedListing(listed)
    ensures !HitsEmptyDir(Entries(bucket, listed, ""))
  {
    hide Classify, KeySegments, WellFormedKey, HasEmptyDir;
    var es := Entries(bucket, listed, "");
    if listed != [] {
      WellFormedPrefix(listed, |listed| - 1);
      NeverPanics(bucket, listed[..|listed| - 1]);
      KeyHasNoEmptyDir(bucket, listed[|listed| - 1]);
      ConcatFront(Entries(bucket, listed[..|listed| - 1], ""), [Classify(bucket, listed[|listed| - 1], "")]);
      assert Entries(bucket, listed[..|listed| - 1], "") + [] == Entries(bucket, listed[..|listed| - 1], "");
    }
  }

  lemma KeyHasNoEmptyDir(bucket: string, o: S3Object)
    requires WellFormedKey(o.key)
    ensures !HasEmptyDir(Classify(bucket, o, ""))
  {
    hide KeySegments, Classify, CleanSegment, NonEmptyUpTo;
    ClassifyKey(bucket, o);
    CleanParts(KeySegments(o.key));
    if |KeySegments(o.key)| >= 1 {
      NonEmptyMeans(KeySegments(o.key), |KeySegments(o.key)| - 1);
    }
  }

  // ---- The parts of a scan -------------------------------------------------------------

  lemma {:induction false} DeliveriesConcat(bucket: string, a: seq<ObjectMetadata>, b: seq<ObjectMetadata>)
    ensures DeliveriesOf(bucket, a + b) == DeliveriesOf(bucket, a) + DeliveriesOf(bucket, b)
    ensures DirectoriesOf(bucket, a + b) == DirectoriesOf(bucket, a) + DirectoriesOf(bucket, b)
  {
    hide RowDeliveries, RowDirs;
    if b == [] {
      assert a + b == a;
    } else {
      DeliveriesConcat(bucket, a, b[..|b| - 1]);
      ConcatFront(a, b);
      ConcatAssociative(DeliveriesOf(bucket, a), DeliveriesOf(bucket, b[..|b| - 1]), RowDeliveries(bucket, b[|b| - 1]));
    }
  }

  lemma {:induction false} NoDeliveries(bucket: string, dirs: seq<ObjectMetadata>)
    requires forall m :: m in dirs ==> !m.nodeType.ObjectMeta?
    ensures DeliveriesOf(bucket, dirs) == []
  {
    if dirs != [] {
      NoDeliveries(bucket, dirs[..|dirs| - 1]);
      assert dirs[|dirs| - 1] in dirs;
    }
  }

  lemma {:induction false} AllDeliveries(bucket: string, objects: seq<ObjectMetadata>)
    requires forall m :: m in objects ==> m.nodeType.ObjectMeta?
    ensures |DeliveriesOf(bucket, objects)| == |objects|
    ensures forall k :: 0 <= k < |objects| ==> DeliveriesOf(bucket, objects)[k] == DeliveryOf(bucket, objects[k])
  {
    hide DeliveryOf;
    if objects != [] {
      AllDeliveries(bucket, objects[..|objects| - 1]);
      assert objects[|objects| - 1] in objects;
    }
  }

  lemma {:induction false} CountedAreObjects(bucket: string, listed: seq<S3Object>)
    ensures forall m :: m in CountedRows(Entries(bucket, listed, "")) ==> m.nodeType.ObjectMeta?
  {
    if listed != [] {
      var es := Entries(bucket, listed, "");
      CountedAreObjects(bucket, listed[..|listed| - 1]);
      assert es[..|es| - 1] == Entries(bucket, listed[..|listed| - 1], "");
    }
  }

  /** Where the bucket's own name is reserved, a scan shows its objects but no directory. */
  lemma ReservedBucketHasNoDirectories(bucket: string, listed: seq<S3Object>, metas: seq<ObjectMetadata>)
    requires HasReservedObjectSegment(bucket) && IsScan(bucket, "", Entries(bucket, listed, ""), metas)
    ensures forall m :: m in metas ==> m.nodeType.ObjectMeta?
    ensures multiset(metas) == multiset(CountedRows(Entries(bucket, listed, "")))
  {
    hide CountedRows, Entries, DirPaths, IsScan, HasReservedObjectSegment;
    var es := Entries(bucket, listed, "");
    var dirs, objects := ScanParts(bucket, es, metas);
    CountedAreObjects(bucket, listed);
    if dirs != [] {
      assert dirs[0] == DirRow(bucket, "", CountedRows(es), dirs[0].relativePath) && Survives(dirs[0]);
      ReservedJoin(bucket, dirs[0].relativePath);
    }
    assert metas == objects;
    forall m | m in metas ensures m.nodeType.ObjectMeta? {
      PermutationMembers(CountedRows(es), objects, m);
    }
  }

  lemma LeadFiltered(bucket: string, rows: seq<ObjectMetadata>)
    ensures !Survives(LeadRow(bucket, "", ObjectStorageScanner.TotalSize(rows), |rows|))
  {
  }

  /** A whole-bucket scan: directory rows, then object rows; the bucket's own row is filtered out. */
  lemma ScanParts(bucket: string, es: seq<Entry>, metas: seq<ObjectMetadata>) returns (dirs: seq<ObjectMetadata>, objects: seq<ObjectMetadata>)
    requires IsScan(bucket, "", es, metas)
    ensures metas == dirs + objects && IsDirectoryPart(bucket, "", es, dirs) && IsObjectPart(es, objects)
  {
    hide IsDirectoryPart, IsObjectPart, CountedRows, LeadRow, Survives;
    var k := |metas| - |CountedRows(es)|;
    dirs, objects := metas[..k], metas[k..];
    assert metas[0..k] == dirs;
    LeadFiltered(bucket, CountedRows(es));
  }
}

/** Where scans of a prefix, or of a single object, file what they find. */
module PrefixScans {
  import opened GoStrings
  import opened ObjectKeys
  import opened ObjectStorageScanner
  import opened ScanSteps
  import opened BucketScans
  import opened ListingAgreement
  import opened ScannerPaths

  lemma RestClean(key: string, pre: seq<string>)
    requires WellFormedKey(key) && |pre| < |KeySegments(key)|
    ensures CleanSegments(KeySegments(key)[|pre|..])
  {
    var rest := KeySegments(key)[|pre|..];
    forall i | 0 <= i < |rest| ensures CleanSegment(rest[i]) {
      assert rest[i] == KeySegments(key)[|pre| + i];
    }
  }

  /** A scan of a prefix names directories relative to the prefix, yet files them below the bucket.  An object that a listing of
      the prefix brought ends up in the directory its key spells if and only if the prefix is empty, the whole bucket's. */
  lemma PlacedByWholeScansOnly(bucket: string, o: S3Object, pre: seq<string>)
    requires WellFormedBucket(bucket) && WellFormedKey(o.key) && !IsDirKey(o.key)
    requires CleanSegments(pre) && ProperPrefix(pre, KeySegments(o.key))
    ensures MetaDirs(ObjectRow(bucket, o, CleanOf(pre))) == KeySegments(o.key)[|pre|..|KeySegments(o.key)| - 1]
    ensures DeliveryOf(bucket, ObjectRow(bucket, o, CleanOf(pre))).dir == KeyDelivery(bucket, o).dir <==> pre == []
  {
    hide Join, Split, CleanSegment, WellFormedKey, KeySegments, SanitizeObjectPath, ObjectName, Relative, CleanOf;
    var p := KeySegments(o.key);
    var rest := p[|pre|..];
    RelativeSegments(o.key, pre);
    RestClean(o.key, pre);
    CleanParts(rest);
    SanitizeClean(rest);
    SplitJoin(rest);
    assert rest[..|rest| - 1] == p[|pre|..|p| - 1];
    assert |[bucket] + p[|pre|..|p| - 1]| == |p| - |pre| && |[bucket] + p[..|p| - 1]| == |p|;
  }

  /** A path that names a single object is answered by a stat, and that object is filed where its key spells, as by a scan of the
      whole bucket. */
  lemma PlacedByStat(scanner: S3Scanner, bucket: string, o: S3Object, a: ScanAnswer)
    requires WellFormedBucket(bucket) && bucket in scanner.allowedBucket
    requires WellFormedKey(o.key) && IsObjectKey(o.key) && StatObject(BucketContents(scanner, bucket), o.key) == [o]
    requires IsScanAnswer(scanner, bucket + "/" + o.key, a)
    ensures a == Metas([ObjectRow(bucket, o, "")])
    ensures DeliveryOf(bucket, ObjectRow(bucket, o, "")) == KeyDelivery(bucket, o)
  {
    hide SplitPath, TrimSpace, HasReservedObjectSegment, IsBucketAnswer, StatObject, WellFormedKey, CleanSegment, KeySegments,
      DeliveryOf, KeyDelivery, BucketContents, IsAllBucketsAnswer;
    ObjectPathSplits(bucket, o.key);
    RowOfKey(bucket, o);
    KeyFacts(o.key);
  }

  /** The path of an object splits into its bucket and its key. */
  lemma ObjectPathSplits(bucket: string, key: string)
    requires WellFormedBucket(bucket) && WellFormedKey(key) && !IsDirKey(key)
    ensures TrimSpace(bucket + "/" + key) == bucket + "/" + key && SplitPath(bucket + "/" + key) == (bucket, key)
    ensures key != "" && TrimPrefix(key, "/") == key
  {
    hide SplitPath, TrimSpace, WellFormedKey, KeySegments, Join, CleanSegment;
    KeyFacts(key);
    KeyEnd(key);
    BucketEnds(bucket);
    SplitBucket(bucket, key);
    TrimSpaceIdentity(bucket + "/" + key);
  }

  lemma KeyEnd(key: string)
    requires WellFormedKey(key) && !IsDirKey(key)
    ensures key != "" && !IsSpace(key[|key| - 1]) && key[|key| - 1] != '/'
  {
    hide Split, Join, TrimSpace, IsSpace;
    var p := KeySegments(key);
    KeyFacts(key);
    CleanParts(p);
    JoinEnds(p);
    assert CleanSegment(p[|p| - 1]);
    TrimSpaceIdentity(p[|p| - 1]);
    assert key[|key| - 1..] == [key[|key| - 1]];
  }

  lemma BucketEnds(bucket: string)
    requires WellFormedBucket(bucket)
    ensures bucket != "" && !IsSpace(bucket[0]) && StartsWell(bucket)
  {
    CleanEnds(bucket);
    TrimSpaceIdentity(bucket);
  }
}

/** What a scan of a bucket, or of a directory in it, answers, in terms of the bucket's keys alone. */
module PrefixAnswers {
  import opened GoStrings
  import opened ObjectKeys
  import opened Sequences
  import opened ObjectStorageScanner
  import opened BucketScans
  import opened BucketRoundTrip
  import opened ListingAgreement
  import opened PrefixScans
  import WholeBucketRun

  // ---- The keys of a directory --------------------------------------------------------

  /** The object lies below directory c, at any depth, and outside reserved segments. */
  ghost predicate IsBelow(o: S3Object, c: seq<string>) {
    IsObjectKey(o.key) && ProperPrefix(c, KeySegments(o.key))
  }

  /** A key for which a scan shows directory c: an object below it, or its own marker. */
  ghost predicate MakesKnown(o: S3Object, c: seq<string>) {
    !HasReservedObjectSegment(o.key) && if IsDirKey(o.key) then KeySegments(o.key) == c else ProperPrefix(c, KeySegments(o.key))
  }

  ghost function CountBelow(listed: seq<S3Object>, c: seq<string>): nat {
    if listed == [] then 0
    else CountBelow(listed[..|listed| - 1], c) + (if IsBelow(listed[|listed| - 1], c) then 1 else 0)
  }

  ghost function BytesBelow(listed: seq<S3Object>, c: seq<string>): int {
    if listed == [] then 0
    else BytesBelow(listed[..|listed| - 1], c) + (if IsBelow(listed[|listed| - 1], c) then listed[|listed| - 1].size else 0)
  }

  /** The segments of a key that follow a directory's. */
  function Rest(key: string, pre: seq<string>): seq<string> {
    if |pre| <= |KeySegments(key)| then KeySegments(key)[|pre|..] else []
  }

  /** The row of an object, under its path from the scanned directory. */
  function BelowRow(bucket: string, pre: seq<string>, o: S3Object): ObjectMetadata {
    ObjectMetadata(bucket, bucket + "/" + o.key, Join(Rest(o.key, pre)), ObjectMeta, o.size, 1)
  }

  /** The row of directory pre + q: its path from the scanned directory, and what lies below it. */
  ghost function DirBelow(bucket: string, listed: seq<S3Object>, pre: seq<string>, q: seq<string>): ObjectMetadata {
    ObjectMetadata(bucket, Join([bucket] + pre + q), Join(q), PrefixMeta, BytesBelow(listed, pre + q), CountBelow(listed, pre + q))
  }

  /** The row of the scanned directory itself; a whole bucket has none. */
  ghost function OwnRow(bucket: string, listed: seq<S3Object>, pre: seq<string>): seq<ObjectMetadata> {
    if pre == [] then []
    else [ObjectMetadata(bucket, Join([bucket] + pre), Join(pre), PrefixMeta, BytesBelow(listed, pre), CountBelow(listed, pre))]
  }

  // ---- What one key contributes ---------------------------------------------------------

  ghost predicate IsDirectory(pre: seq<string>) {
    CleanSegments(pre) && !ContainsReservedObjectSegment(pre)
  }

  lemma RestOfFull(key: string, pre: seq<string>)
    requires WellFormedKey(key) && ProperPrefix(pre, FullSegments(key))
    ensures FullSegments(key)[|pre|..] == if IsDirKey(key) then Rest(key, pre) + [""] else Rest(key, pre)
    ensures AllSlashFree(Rest(key, pre)) && CleanSegments(Rest(key, pre))
    ensures Rest(key, pre) == [] <==> KeySegments(key) == pre
    ensures Rest(key, pre) == [] ==> IsDirKey(key)
    ensures pre + Rest(key, pre) == KeySegments(key)
  {
    hide Split, CleanSegment;
    var p, full := KeySegments(key), FullSegments(key);
    KeySegmentsClean(key);
    assert |full| == |p| + (if IsDirKey(key) then 1 else 0);
    assert pre == full[..|pre|] == p[..|pre|];
    forall i | 0 <= i < |Rest(key, pre)| ensures CleanSegment(Rest(key, pre)[i]) && SlashFree(Rest(key, pre)[i]) {
      assert Rest(key, pre)[i] == p[|pre| + i];
    }
  }

  lemma MarkerName(rest: seq<string>)
    requires rest != [] && CleanSegments(rest)
    ensures Join(rest + [""]) == Join(rest) + "/" && HasSuffix(Join(rest + [""]), "/")
    ensures TrimSlashes(TrimSuffix(Join(rest + [""]), "/")) == Join(rest)
  {
    hide Join, TrimSlashes;
    JoinSnoc(rest, "");
    CleanParts(rest);
    JoinTrimmed(rest);
    assert Join(rest) + "/" + "" == Join(rest) + "/";
    assert (Join(rest) + "/")[..|Join(rest)|] == Join(rest);
  }

  lemma ClassifyBelow(bucket: string, o: S3Object, pre: seq<string>)
    requires WellFormedKey(o.key) && IsDirectory(pre) && ProperPrefix(pre, FullSegments(o.key))
    ensures Classify(bucket, o, CleanOf(pre))
            == if HasReservedObjectSegment(o.key) || KeySegments(o.key) == pre then Skipped
               else if IsDirKey(o.key) then Marker(Join(Rest(o.key, pre)))
               else Counted(BelowRow(bucket, pre, o), Rest(o.key, pre))
  {
    hide Join, Split, KeySegments, WellFormedKey, ContainsReservedObjectSegment, HasReservedObjectSegment, Relative, CleanOf, Rest,
      TrimSlashes, FullSegments, CleanSegments;
    RelativeSegments(o.key, pre);
    RestSplits(o.key, pre);
    RestReserved(o.key, pre);
    ReservedBySegments(Relative(o.key, CleanOf(pre)));
    RestOfFull(o.key, pre);
    if IsDirKey(o.key) && KeySegments(o.key) != pre {
      MarkerName(Rest(o.key, pre));
    }
  }

  // ---- What a listing contributes ----------------------------------------------------------

  /** The entries of a scan of directory pre. */
  function EntriesBelow(bucket: string, listed: seq<S3Object>, pre: seq<string>): seq<Entry> {
    Entries(bucket, WithPrefix(listed, CleanOf(pre)), CleanOf(pre))
  }

  lemma EntriesSnoc(bucket: string, xs: seq<S3Object>, o: S3Object, clean: string)
    ensures Entries(bucket, xs + [o], clean) == Entries(bucket, xs, clean) + [Classify(bucket, o, clean)]
  {
    hide Classify;
    assert (xs + [o])[..|xs|] == xs;
  }

  lemma OneMoreKey(bucket: string, listed: seq<S3Object>, pre: seq<string>)
    requires listed != []
    ensures var front, o := listed[..|listed| - 1], listed[|listed| - 1];
            EntriesBelow(bucket, listed, pre)
            == if HasPrefix(o.key, CleanOf(pre)) then EntriesBelow(bucket, front, pre) + [Classify(bucket, o, CleanOf(pre))]
               else EntriesBelow(bucket, front, pre)
  {
    hide Classify, HasPrefix, CleanOf, Entries;
    var front, o := listed[..|listed| - 1], listed[|listed| - 1];
    EntriesSnoc(bucket, WithPrefix(front, CleanOf(pre)), o, CleanOf(pre));
    assert WithPrefix(front, CleanOf(pre)) + [] == WithPrefix(front, CleanOf(pre));
  }

  lemma EntrySnoc(es: seq<Entry>, e: Entry)
    ensures CountedRows(es + [e]) == CountedRows(es) + (if e.Counted? then [e.row] else [])
    ensures DirPaths(es + [e]) == WithDirs(DirPaths(es), e)
    ensures HitsEmptyDir(es + [e]) <==> HitsEmptyDir(es) || HasEmptyDir(e)
  {
    hide WithDirs, HasEmptyDir;
    assert (es + [e])[..|es|] == es;
  }

  /** What a key adds to a scan of directory pre: nothing unless it lies below. */
  datatype Share = Nothing | Known(rest: seq<string>) | Object(row: ObjectMetadata, rest: seq<string>)

  ghost function ShareOf(bucket: string, pre: seq<string>, o: S3Object): Share {
    if HasReservedObjectSegment(o.key) || !ProperPrefix(pre, KeySegments(o.key)) then Nothing
    else if IsDirKey(o.key) then Known(Rest(o.key, pre))
    else Object(BelowRow(bucket, pre, o), Rest(o.key, pre))
  }

  /** One more key adds its share to the rows and directories of a scan. */
  lemma ShareAdded(bucket: string, listed: seq<S3Object>, pre: seq<string>)
    requires listed != [] && WellFormedListing(listed) && IsDirectory(pre)
    ensures var es0, es := EntriesBelow(bucket, listed[..|listed| - 1], pre), EntriesBelow(bucket, listed, pre);
            match ShareOf(bucket, pre, listed[|listed| - 1])
            case Nothing => CountedRows(es) == CountedRows(es0) && DirPaths(es) == DirPaths(es0) && (HitsEmptyDir(es) <==> HitsEmptyDir(es0))
            case Known(rest) =>
              && CountedRows(es) == CountedRows(es0) && DirPaths(es) == WithDirs(DirPaths(es0), Marker(Join(rest)))
              && (HitsEmptyDir(es) <==> HitsEmptyDir(es0))
            case Object(row, rest) =>
              && CountedRows(es) == CountedRows(es0) + [row] && DirPaths(es) == WithDirs(DirPaths(es0), Counted(row, rest))
              && (HitsEmptyDir(es) <==> HitsEmptyDir(es0) || HasEmptyDir(Counted(row, rest)))
  {
    hide CountedRows, DirPaths, HitsEmptyDir, HasReservedObjectSegment, KeySegments, WellFormedKey, Classify, EntriesBelow, CleanOf, HasPrefix,
      CleanSegments, BelowRow, Rest, IsDirectory, WithDirs, HasEmptyDir, FullSegments;
    var o := listed[|listed| - 1];
    OneMoreKey(bucket, listed, pre);
    DirectoryClean(pre);
    UnderPrefix(o.key, pre);
    LongerSegments(o.key, pre);
    if ProperPrefix(pre, FullSegments(o.key)) {
      ClassifyBelow(bucket, o, pre);
      EntrySnoc(EntriesBelow(bucket, listed[..|listed| - 1], pre), Classify(bucket, o, CleanOf(pre)));
      SkippedAddsNothing(DirPaths(EntriesBelow(bucket, listed[..|listed| - 1], pre)));
    }
  }

  lemma DirectoryClean(pre: seq<string>)
    requires IsDirectory(pre)
    ensures CleanSegments(pre) && !ContainsReservedObjectSegment(pre)
  {
  }

  lemma SkippedAddsNothing(known: set<string>)
    ensures WithDirs(known, Skipped) == known && !HasEmptyDir(Skipped)
    ensures forall d {:trigger Marker(d)} :: !HasEmptyDir(Marker(d))
  {
  }

  lemma LongerSegments(key: string, pre: seq<string>)
    ensures ProperPrefix(pre, KeySegments(key)) ==> ProperPrefix(pre, FullSegments(key))
    ensures ProperPrefix(pre, FullSegments(key)) ==> ProperPrefix(pre, KeySegments(key)) || KeySegments(key) == pre
    ensures ProperPrefix(pre, KeySegments(key)) ==> KeySegments(key) != pre
  {
    hide KeySegments;
  }

  // ---- The object rows ---------------------------------------------------------------------

  ghost function BelowRows(bucket: string, listed: seq<S3Object>, pre: seq<string>): seq<ObjectMetadata> {
    if listed == [] then []
    else if !IsBelow(listed[|listed| - 1], pre) then BelowRows(bucket, listed[..|listed| - 1], pre)
    else BelowRows(bucket, listed[..|listed| - 1], pre) + [BelowRow(bucket, pre, listed[|listed| - 1])]
  }

  lemma BelowHasNoEmptyDir(bucket: string, o: S3Object, pre: seq<string>)
    requires WellFormedKey(o.key) && ProperPrefix(pre, KeySegments(o.key))
    ensures !HasEmptyDir(Counted(BelowRow(bucket, pre, o), Rest(o.key, pre)))
  {
    hide Join, Split, CleanSegment, NonEmptyUpTo;
    var rest := Rest(o.key, pre);
    forall i | 0 <= i < |rest| ensures |rest[i]| > 0 {
      assert rest[i] == KeySegments(o.key)[|pre| + i];
      assert CleanSegment(rest[i]);
      CleanEnds(rest[i]);
    }
    NonEmptyMeans(rest, |rest| - 1);
  }

  /** A scan of a directory counts the objects below it, and does not panic. */
  lemma {:induction false} RowsBelow(bucket: string, listed: seq<S3Object>, pre: seq<string>)
    requires WellFormedListing(listed) && IsDirectory(pre)
    ensures CountedRows(EntriesBelow(bucket, listed, pre)) == BelowRows(bucket, listed, pre)
    ensures !HitsEmptyDir(EntriesBelow(bucket, listed, pre))
  {
    hide WellFormedKey, KeySegments, BelowRow, Rest, IsDirectory, HasReservedObjectSegment, HasEmptyDir, WithDirs, DirPaths;
    if listed != [] {
      hide CountedRows, HitsEmptyDir, EntriesBelow;
      var front, o := listed[..|listed| - 1], listed[|listed| - 1];
      WellFormedPrefix(listed, |listed| - 1);
      RowsBelow(bucket, front, pre);
      ShareAdded(bucket, listed, pre);
      if ProperPrefix(pre, KeySegments(o.key)) {
        BelowHasNoEmptyDir(bucket, o, pre);
      }
    }
  }

  lemma {:induction false} BelowTotals(bucket: string, listed: seq<S3Object>, pre: seq<string>)
    ensures |BelowRows(bucket, listed, pre)| == CountBelow(listed, pre)
    ensures ObjectStorageScanner.TotalSize(BelowRows(bucket, listed, pre)) == BytesBelow(listed, pre)
  {
    hide IsBelow, Rest;
    if listed != [] {
      BelowTotals(bucket, listed[..|listed| - 1], pre);
    }
  }

  lemma {:induction false} BelowRowsMember(bucket: string, listed: seq<S3Object>, pre: seq<string>, m: ObjectMetadata)
    ensures m in BelowRows(bucket, listed, pre) <==> exists o :: o in listed && IsBelow(o, pre) && m == BelowRow(bucket, pre, o)
  {
    hide IsBelow, BelowRow;
    if listed != [] {
      BelowRowsMember(bucket, listed[..|listed| - 1], pre, m);
      assert listed == listed[..|listed| - 1] + [listed[|listed| - 1]];
    }
  }

  lemma {:induction false} BelowRowsDistinct(bucket: string, listed: seq<S3Object>, pre: seq<string>)
    requires WellFormedListing(listed)
    ensures NoDuplicates(BelowRows(bucket, listed, pre))
  {
    hide IsBelow, WellFormedKey, Rest;
    if listed != [] {
      var front, o := listed[..|listed| - 1], listed[|listed| - 1];
      WellFormedPrefix(listed, |listed| - 1);
      BelowRowsDistinct(bucket, front, pre);
      BelowRowsMember(bucket, front, pre, BelowRow(bucket, pre, o));
      forall other | other in front ensures other.key != o.key {
        var k :| 0 <= k < |front| && front[k] == other;
        assert listed[k] == other;
      }
      if BelowRow(bucket, pre, o) in BelowRows(bucket, front, pre) {
        var other :| other in front && BelowRow(bucket, pre, o) == BelowRow(bucket, pre, other);
        SameRowSameKey(bucket, pre, o, other);
      }
      NoDuplicatesSnoc(BelowRows(bucket, front, pre), BelowRow(bucket, pre, o));
    }
  }

  lemma SameRowSameKey(bucket: string, pre: seq<string>, o: S3Object, other: S3Object)
    requires BelowRow(bucket, pre, o) == BelowRow(bucket, pre, other)
    ensures o.key == other.key
  {
    hide Rest;
    var p := bucket + "/";
    assert BelowRow(bucket, pre, o).path == p + o.key && BelowRow(bucket, pre, other).path == p + other.key;
    assert (p + o.key)[|p|..] == o.key && (p + other.key)[|p|..] == other.key;
  }

  // ---- The aggregates ------------------------------------------------------------------------

  /** Below pre, a row's path starts with q exactly if its key lies below pre + q. */
  lemma UnderIsBelow(bucket: string, o: S3Object, pre: seq<string>, q: seq<string>)
    requires WellFormedKey(o.key) && IsBelow(o, pre) && q != [] && AllSlashFree(q)
    ensures HasPrefix(BelowRow(bucket, pre, o).relativePath, Join(q) + "/") <==> IsBelow(o, pre + q)
  {
    hide Join, Split, CleanSegment, KeySegments, HasReservedObjectSegment;
    var p, rest := KeySegments(o.key), Rest(o.key, pre);
    KeySegmentsClean(o.key);
    assert forall i :: 0 <= i < |rest| ==> rest[i] == p[|pre| + i];
    JoinPrefix(q, rest);
    ExtendedPrefix(pre, q, p);
  }

  lemma ExtendedPrefix(pre: seq<string>, q: seq<string>, p: seq<string>)
    requires ProperPrefix(pre, p)
    ensures ProperPrefix(q, p[|pre|..]) <==> ProperPrefix(pre + q, p)
  {
    var rest := p[|pre|..];
    assert p == pre + rest;
    if ProperPrefix(q, rest) {
      assert p[..|pre + q|] == pre + rest[..|q|];
    }
    if ProperPrefix(pre + q, p) {
      assert rest[..|q|] == p[..|pre + q|][|pre|..] == q;
    }
  }

  lemma BelowStays(o: S3Object, pre: seq<string>, q: seq<string>)
    requires IsBelow(o, pre + q)
    ensures IsBelow(o, pre)
  {
    hide KeySegments, IsObjectKey;
    assert pre == (pre + q)[..|pre|];
  }

  lemma {:induction false} SumsBelow(bucket: string, listed: seq<S3Object>, pre: seq<string>, q: seq<string>)
    requires WellFormedListing(listed) && q != [] && AllSlashFree(q)
    ensures CountUnder(BelowRows(bucket, listed, pre), Join(q)) == CountBelow(listed, pre + q)
    ensures SumUnder(BelowRows(bucket, listed, pre), Join(q)) == BytesBelow(listed, pre + q)
  {
    hide IsBelow, WellFormedKey, HasPrefix, Join, Rest;
    if listed != [] {
      var front, o := listed[..|listed| - 1], listed[|listed| - 1];
      WellFormedPrefix(listed, |listed| - 1);
      SumsBelow(bucket, front, pre, q);
      if IsBelow(o, pre) {
        UnderIsBelow(bucket, o, pre, q);
        UnderSnoc(BelowRows(bucket, front, pre), BelowRow(bucket, pre, o), Join(q));
      } else if IsBelow(o, pre + q) {
        BelowStays(o, pre, q);
      }
    }
  }

  // ---- The directories -------------------------------------------------------------------------

  /** What one key makes known. */
  lemma KnownByKey(bucket: string, o: S3Object, pre: seq<string>, known: set<string>, d: string)
    requires WellFormedKey(o.key)
    ensures var share := ShareOf(bucket, pre, o);
            && (share.Known? ==> (d in WithDirs(known, Marker(Join(share.rest))) <==> d in known || MakesKnown(o, pre + Split(d))))
            && (share.Object? ==> (d in WithDirs(known, Counted(share.row, share.rest)) <==> d in known || MakesKnown(o, pre + Split(d))))
            && (share.Nothing? ==> !MakesKnown(o, pre + Split(d)))
  {
    hide Join, Split, CleanSegment, KeySegments, HasReservedObjectSegment, WithDirsUpTo, BelowRow;
    var p, rest, q := KeySegments(o.key), Rest(o.key, pre), Split(d);
    KeySegmentsClean(o.key);
    if ProperPrefix(pre, p) {
      assert p == pre + rest;
      assert forall i :: 0 <= i < |rest| ==> rest[i] == p[|pre| + i];
      ExtendedPrefix(pre, q, p);
      DirsUpToMember(known, rest, |rest|, d);
      SplitJoin(rest);
      JoinSplit(d);
      SamePrefix(pre, q, rest);
      RestJoined(rest, pre, o.key);
    } else if MakesKnown(o, pre + q) {
      PrefixAnyway(pre, q, p);
    }
  }

  lemma RestJoined(rest: seq<string>, pre: seq<string>, key: string)
    requires WellFormedKey(key) && ProperPrefix(pre, KeySegments(key)) && rest == Rest(key, pre)
    ensures Join(rest) != ""
  {
    hide Join, Split, CleanSegment;
    forall i | 0 <= i < |rest| ensures |rest[i]| > 0 {
      assert rest[i] == KeySegments(key)[|pre| + i];
      assert CleanSegment(rest[i]);
      CleanEnds(rest[i]);
    }
    JoinEnds(rest);
  }

  lemma SamePrefix(pre: seq<string>, a: seq<string>, b: seq<string>)
    ensures pre + a == pre + b <==> a == b
  {
    assert (pre + a)[|pre|..] == a && (pre + b)[|pre|..] == b;
  }

  lemma PrefixAnyway(pre: seq<string>, q: seq<string>, p: seq<string>)
    requires q != []
    ensures p == pre + q || ProperPrefix(pre + q, p) ==> ProperPrefix(pre, p)
  {
    assert (pre + q)[..|pre|] == pre;
  }

  lemma DirsStep(bucket: string, listed: seq<S3Object>, pre: seq<string>, d: string)
    requires listed != [] && WellFormedListing(listed) && IsDirectory(pre)
    ensures d in DirPaths(EntriesBelow(bucket, listed, pre)) <==>
              || d in DirPaths(EntriesBelow(bucket, listed[..|listed| - 1], pre))
              || MakesKnown(listed[|listed| - 1], pre + Split(d))
  {
    hide *;
    ShareAdded(bucket, listed, pre);
    LastWellFormed(listed);
    KnownByKey(bucket, listed[|listed| - 1], pre, DirPaths(EntriesBelow(bucket, listed[..|listed| - 1], pre)), d);
  }

  lemma LastWellFormed(listed: seq<S3Object>)
    requires listed != [] && WellFormedListing(listed)
    ensures WellFormedKey(listed[|listed| - 1].key) && WellFormedListing(listed[..|listed| - 1])
  {
    hide WellFormedKey;
  }

  lemma NothingBelow(bucket: string, pre: seq<string>)
    ensures DirPaths(EntriesBelow(bucket, [], pre)) == {}
  {
  }

  lemma {:induction false} DirsBelow(bucket: string, listed: seq<S3Object>, pre: seq<string>, d: string)
    requires WellFormedListing(listed) && IsDirectory(pre)
    ensures d in DirPaths(EntriesBelow(bucket, listed, pre)) <==> exists o :: o in listed && MakesKnown(o, pre + Split(d))
  {
    hide *;
    if listed == [] {
      NothingBelow(bucket, pre);
    } else {
      LastWellFormed(listed);
      DirsBelow(bucket, listed[..|listed| - 1], pre, d);
      DirsStep(bucket, listed, pre, d);
      assert listed == listed[..|listed| - 1] + [listed[|listed| - 1]];
    }
  }

  // ---- The answer ------------------------------------------------------------------------------

  /** One row for each object below the directory, ordered by its path from there. */
  ghost predicate ShowsObjects(bucket: string, listed: seq<S3Object>, pre: seq<string>, objects: seq<ObjectMetadata>) {
    && (forall m :: m in objects <==> exists o :: o in listed && IsBelow(o, pre) && m == BelowRow(bucket, pre, o))
    && NoDuplicates(objects) && SortedByPath(objects)
  }

  /** One row for each directory that some key makes known, with what lies below it. */
  ghost predicate ShowsDirectories(bucket: string, listed: seq<S3Object>, pre: seq<string>, dirs: seq<ObjectMetadata>) {
    && (forall m :: m in dirs <==> exists q :: IsKnown(listed, pre, q) && m == DirBelow(bucket, listed, pre, q))
    && NoDuplicates(dirs)
  }

  ghost predicate IsKnown(listed: seq<S3Object>, pre: seq<string>, q: seq<string>) {
    q != [] && exists o :: o in listed && MakesKnown(o, pre + q)
  }

  /** The directory's own row, if it is not the whole bucket, then those of the directories below, then those of the objects. */
  ghost predicate ShowsBelow(bucket: string, listed: seq<S3Object>, pre: seq<string>, metas: seq<ObjectMetadata>) {
    exists dirs, objects ::
      && metas == OwnRow(bucket, listed, pre) + dirs + objects
      && ShowsDirectories(bucket, listed, pre, dirs) && ShowsObjects(bucket, listed, pre, objects)
  }

  lemma ObjectsShown(bucket: string, listed: seq<S3Object>, pre: seq<string>, objects: seq<ObjectMetadata>)
    requires WellFormedListing(listed) && IsDirectory(pre)
    requires IsObjectPart(EntriesBelow(bucket, listed, pre), objects)
    ensures ShowsObjects(bucket, listed, pre, objects)
  {
    hide IsBelow, BelowRow, WellFormedListing, IsDirectory, EntriesBelow, CountedRows, BelowRows, PathLe;
    RowsBelow(bucket, listed, pre);
    BelowRowsDistinct(bucket, listed, pre);
    PermutationKeepsDistinct(BelowRows(bucket, listed, pre), objects);
    forall m ensures m in objects <==> exists o :: o in listed && IsBelow(o, pre) && m == BelowRow(bucket, pre, o) {
      BelowRowsMember(bucket, listed, pre, m);
      PermutationMembers(BelowRows(bucket, listed, pre), objects, m);
    }
  }

  lemma KnownFacts(listed: seq<S3Object>, pre: seq<string>, q: seq<string>)
    requires WellFormedListing(listed) && IsKnown(listed, pre, q)
    ensures CleanSegments(pre + q) && CleanSegments(q) && AllSlashFree(q) && !ContainsReservedObjectSegment(pre + q)
    ensures Split(Join(q)) == q
  {
    hide Split, Join, CleanSegment, KeySegments, HasReservedObjectSegment, ContainsReservedObjectSegment, CleanSegments;
    var o :| o in listed && MakesKnown(o, pre + q);
    assert pre + q <= KeySegments(o.key);
    KeySegmentsClean(o.key);
    CleanPrefixSegments(KeySegments(o.key), pre + q);
    UnreservedPrefix(o.key, pre + q);
    TailClean(pre, q);
    CleanParts(q);
    SplitJoin(q);
  }

  lemma TailClean(pre: seq<string>, q: seq<string>)
    requires CleanSegments(pre + q)
    ensures CleanSegments(q)
  {
    forall i | 0 <= i < |q| ensures CleanSegment(q[i]) {
      assert q[i] == (pre + q)[|pre| + i];
    }
  }

  /** The scanner's own name for the prefix. */
  lemma PrefixName(pre: seq<string>)
    requires CleanSegments(pre)
    ensures CleanPrefix(Join(pre)) == CleanOf(pre) && TrimSuffix(CleanOf(pre), "/") == Join(pre)
    ensures Join(pre) == "" <==> pre == []
  {
    hide Split, CleanSegment;
    if pre != [] {
      CleanParts(pre);
      JoinEnds(pre);
      LastClean(pre);
      var s := Join(pre);
      assert pre[0][0] in pre[0] && s[0] != '/';
      assert s[|s| - 1..] == [s[|s| - 1]] && (s + "/")[..|s|] == s;
    }
  }

  lemma LastClean(pre: seq<string>)
    requires pre != [] && CleanSegments(pre)
    ensures |pre[|pre| - 1]| > 0 && pre[|pre| - 1][|pre[|pre| - 1]| - 1] != '/'
  {
    assert CleanSegment(pre[|pre| - 1]);
    CleanEnds(pre[|pre| - 1]);
  }

  lemma PathBelow(bucket: string, pre: seq<string>, q: seq<string>)
    requires q != []
    ensures Join([bucket] + pre + q) == if pre == [] then bucket + "/" + Join(q) else bucket + "/" + Join(pre) + "/" + Join(q)
    ensures pre != [] ==> Join([bucket] + pre) == bucket + "/" + Join(pre)
  {
    hide Join;
    JoinOne(bucket);
    if pre == [] {
      assert [bucket] + pre + q == [bucket] + q;
      JoinConcat([bucket], q);
    } else {
      JoinConcat([bucket] + pre, q);
      JoinConcat([bucket], pre);
    }
  }

  lemma JoinOne(x: string)
    ensures Join([x]) == x
  {
  }

  lemma PathUnreserved(bucket: string, p: seq<string>)
    requires WellFormedBucket(bucket) && CleanSegments(p) && !ContainsReservedObjectSegment(p) && p != []
    ensures !HasReservedObjectSegment(Join([bucket] + p)) && !HasReservedObjectSegment(Join(p))
  {
    hide Split, Join, CleanSegment, HasReservedObjectSegment, ContainsReservedObjectSegment;
    BucketPath(bucket, p);
    NotReservedSegments(p);
    NotReservedSegments([bucket] + p);
    BucketNotReserved(bucket);
    ReservedConcat([bucket], p);
  }

  /** The scanner's row of a known directory is what lies below it, and is never filtered out. */
  lemma DirRowBelow(bucket: string, listed: seq<S3Object>, pre: seq<string>, q: seq<string>)
    requires WellFormedBucket(bucket) && WellFormedListing(listed) && IsDirectory(pre) && IsKnown(listed, pre, q)
    ensures DirRow(bucket, CleanOf(pre), BelowRows(bucket, listed, pre), Join(q)) == DirBelow(bucket, listed, pre, q)
    ensures Survives(DirBelow(bucket, listed, pre, q))
  {
    hide Join, Split, CleanOf, BelowRows, CountUnder, SumUnder, CountBelow, BytesBelow, HasReservedObjectSegment, ContainsReservedObjectSegment,
      CleanSegment, KeySegments, WellFormedListing, MakesKnown, WellFormedBucket;
    KnownFacts(listed, pre, q);
    PrefixName(pre);
    PathBelow(bucket, pre, q);
    SumsBelow(bucket, listed, pre, q);
    PathUnreserved(bucket, pre + q);
    assert [bucket] + pre + q == [bucket] + (pre + q);
    ReservedConcat(pre, q);
    NotReservedSegments(q);
  }

  lemma DirectoriesShown(bucket: string, listed: seq<S3Object>, pre: seq<string>, dirs: seq<ObjectMetadata>)
    requires WellFormedBucket(bucket) && WellFormedListing(listed) && IsDirectory(pre)
    requires IsDirectoryPart(bucket, CleanOf(pre), EntriesBelow(bucket, listed, pre), dirs)
    ensures ShowsDirectories(bucket, listed, pre, dirs)
  {
    hide WellFormedBucket, WellFormedListing, IsDirectory, EntriesBelow, CountedRows, BelowRows, DirPaths, DirRow, Survives, CleanOf, Join, Split,
      IsKnown, DirBelow;
    RowsBelow(bucket, listed, pre);
    forall m ensures m in dirs <==> exists q :: IsKnown(listed, pre, q) && m == DirBelow(bucket, listed, pre, q) {
      DirectoryShown(bucket, listed, pre, dirs, m);
    }
  }

  lemma DirectoryShown(bucket: string, listed: seq<S3Object>, pre: seq<string>, dirs: seq<ObjectMetadata>, m: ObjectMetadata)
    requires WellFormedBucket(bucket) && WellFormedListing(listed) && IsDirectory(pre)
    requires IsDirectoryPart(bucket, CleanOf(pre), EntriesBelow(bucket, listed, pre), dirs)
    ensures m in dirs <==> exists q :: IsKnown(listed, pre, q) && m == DirBelow(bucket, listed, pre, q)
  {
    hide WellFormedBucket, WellFormedListing, IsDirectory, EntriesBelow, CountedRows, BelowRows, DirPaths, DirRow, Survives, CleanOf, Join, Split,
      MakesKnown, DirBelow;
    RowsBelow(bucket, listed, pre);
    if m in dirs {
      var d := m.relativePath;
      DirsBelow(bucket, listed, pre, d);
      JoinSplit(d);
      assert IsKnown(listed, pre, Split(d));
      DirRowBelow(bucket, listed, pre, Split(d));
    }
    if exists q :: IsKnown(listed, pre, q) && m == DirBelow(bucket, listed, pre, q) {
      var q :| IsKnown(listed, pre, q) && m == DirBelow(bucket, listed, pre, q);
      KnownFacts(listed, pre, q);
      DirsBelow(bucket, listed, pre, Join(q));
      DirRowBelow(bucket, listed, pre, q);
    }
  }

  lemma OwnRowShown(bucket: string, listed: seq<S3Object>, pre: seq<string>)
    requires WellFormedBucket(bucket) && WellFormedListing(listed) && IsDirectory(pre)
    ensures var rows := CountedRows(EntriesBelow(bucket, listed, pre));
            var lead := LeadRow(bucket, Join(pre), ObjectStorageScanner.TotalSize(rows), |rows|);
            && (Survives(lead) <==> pre != []) && (pre != [] ==> OwnRow(bucket, listed, pre) == [lead])
  {
    hide Join, Split, CleanOf, BelowRows, CountedRows, EntriesBelow, CountBelow, BytesBelow, HasReservedObjectSegment,
      ContainsReservedObjectSegment, CleanSegment, WellFormedListing, WellFormedBucket;
    RowsBelow(bucket, listed, pre);
    BelowTotals(bucket, listed, pre);
    PrefixName(pre);
    if pre != [] {
      PathUnreserved(bucket, pre);
      PathBelow(bucket, pre, pre);
    }
  }

  /** A scan's rows, read off the keys. */
  lemma ScanShows(bucket: string, listed: seq<S3Object>, pre: seq<string>, metas: seq<ObjectMetadata>)
    requires WellFormedBucket(bucket) && WellFormedListing(listed) && IsDirectory(pre)
    requires IsScan(bucket, Join(pre), EntriesBelow(bucket, listed, pre), metas)
    ensures ShowsBelow(bucket, listed, pre, metas)
  {
    hide WellFormedBucket, WellFormedListing, IsDirectory, EntriesBelow, CountedRows, IsDirectoryPart, IsObjectPart, LeadRow, Survives, CleanOf,
      Join, OwnRow, ShowsDirectories, ShowsObjects;
    OwnRowShown(bucket, listed, pre);
    DirectoryClean(pre);
    PrefixName(pre);
    var n, k := if pre == [] then 0 else 1, |metas| - |CountedRows(EntriesBelow(bucket, listed, pre))|;
    NoOwnRow(bucket, listed);
    DirectoriesShown(bucket, listed, pre, metas[n..k]);
    ObjectsShown(bucket, listed, pre, metas[k..]);
    assert metas == OwnRow(bucket, listed, pre) + metas[n..k] + metas[k..];
  }

  lemma NoOwnRow(bucket: string, listed: seq<S3Object>)
    ensures OwnRow(bucket, listed, []) == []
  {
  }

  // ---- From the path to the answer ---------------------------------------------------------------

  lemma {:induction false} StatMisses(objects: seq<S3Object>, key: string)
    requires forall o :: o in objects ==> o.key != key
    ensures StatObject(objects, key) == []
  {
    if objects != [] {
      StatMisses(objects[1..], key);
    }
  }

  /** The path of a directory splits into its bucket and its name there. */
  lemma DirectoryPathSplits(bucket: string, pre: seq<string>)
    requires WellFormedBucket(bucket) && CleanSegments(pre)
    ensures var path := Join([bucket] + pre);
            TrimSpace(path) == path != "" && SplitPath(path) == (bucket, Join(pre)) && TrimPrefix(Join(pre), "/") == Join(pre)
  {
    hide Split, CleanSegment, SplitPath, TrimSpace, Join;
    JoinOne(bucket);
    if pre == [] {
      assert [bucket] + pre == [bucket];
      WholeBucketRun.BucketPathSplits(bucket);
      NothingJoined();
    } else {
      var key := Join(pre);
      NameIsKey(pre);
      ObjectPathSplits(bucket, key);
      PathBelow(bucket, pre, pre);
    }
  }

  lemma NothingJoined()
    ensures Join([]) == ""
  {
  }

  lemma NameIsKey(pre: seq<string>)
    requires pre != [] && CleanSegments(pre)
    ensures WellFormedKey(Join(pre)) && !IsDirKey(Join(pre)) && KeySegments(Join(pre)) == pre
  {
    hide Split, CleanSegment, Join;
    CleanParts(pre);
    JoinEnds(pre);
    LastClean(pre);
    var s := Join(pre);
    assert s[|s| - 1..] == [s[|s| - 1]];
    SplitJoin(pre);
  }

  /** A scan of a bucket, or of a directory in it that is not itself the key of an object, answers exactly what the bucket's keys say:
      the directory's own row with the number and bytes of the objects below it, one row for each directory a key makes known there,
      and one for each object below it.  A reserved directory answers nothing. */
  lemma DirectoryAnswered(scanner: S3Scanner, bucket: string, pre: seq<string>, a: ScanAnswer)
    requires WellFormedBucket(bucket) && bucket in scanner.allowedBucket && CleanSegments(pre)
    requires WellFormedListing(BucketContents(scanner, bucket))
    requires forall o :: o in BucketContents(scanner, bucket) ==> o.key != Join(pre)
    requires IsScanAnswer(scanner, Join([bucket] + pre), a)
    ensures a.Metas?
    ensures if ContainsReservedObjectSegment(pre) then a.metas == [] else ShowsBelow(bucket, BucketContents(scanner, bucket), pre, a.metas)
  {
    hide TrimSpace, SplitPath, HasReservedObjectSegment, IsScan, Join, Split, CleanSegment, WellFormedBucket, WellFormedListing, BucketContents,
      ContainsReservedObjectSegment, HitsEmptyDir, ShowsBelow, StatObject, Entries, CleanOf;
    var listed := BucketContents(scanner, bucket);
    DirectoryPathSplits(bucket, pre);
    StatMisses(listed, Join(pre));
    PrefixName(pre);
    ReservedName(pre);
    ListedBelow(scanner, bucket, pre);
    if !ContainsReservedObjectSegment(pre) {
      RowsBelow(bucket, listed, pre);
      ScanShows(bucket, listed, pre, a.metas);
    }
  }

  lemma ReservedName(pre: seq<string>)
    requires CleanSegments(pre)
    ensures HasReservedObjectSegment(Join(pre)) <==> ContainsReservedObjectSegment(pre)
  {
    if pre != [] {
      NotReservedSegments(pre);
    }
  }

  lemma ListedBelow(scanner: S3Scanner, bucket: string, pre: seq<string>)
    ensures ListObjects(scanner, bucket, CleanOf(pre)) == WithPrefix(BucketContents(scanner, bucket), CleanOf(pre))
  {
  }
}

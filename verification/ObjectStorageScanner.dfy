/** The S3 scanner: a flat, recursive key listing becomes object rows and per-directory aggregates. */
module ObjectStorageScanner {
  import opened GoStrings
  import opened ObjectKeys
  import opened Sequences

  datatype S3Object = S3Object(key: string, size: int)

  /** The scanner once its bucket set is resolved: the buckets it may touch and what each holds. */
  datatype S3Scanner = S3Scanner(allowedBucket: set<string>, contents: map<string, seq<S3Object>>)

  datatype MetaType = BucketMeta | PrefixMeta | ObjectMeta

  datatype ObjectMetadata = ObjectMetadata(bucket: string, path: string, relativePath: string, nodeType: MetaType,
                                           sizeBytes: int, objectCount: int)

  /** A scan either answers with rows, is refused, or dies on a missing aggregate. */
  datatype ScanAnswer = Metas(metas: seq<ObjectMetadata>) | BucketNotAllowed | Panicked

  // ---- Listing --------------------------------------------------------------

  function WithPrefix(objects: seq<S3Object>, prefix: string): seq<S3Object> {
    if objects == [] then []
    else WithPrefix(objects[..|objects| - 1], prefix)
         + (if HasPrefix(objects[|objects| - 1].key, prefix) then [objects[|objects| - 1]] else [])
  }

  /** A recursive `ListObjects` of a bucket. */
  function ListObjects(s: S3Scanner, bucket: string, prefix: string): seq<S3Object> {
    if bucket in s.contents then WithPrefix(s.contents[bucket], prefix) else []
  }

  function CleanPrefix(prefix: string): string {
    var p := TrimPrefix(prefix, "/");
    if p != "" && !HasSuffix(p, "/") then p + "/" else p
  }

  function Relative(key: string, clean: string): string {
    TrimPrefix(TrimPrefix(key, clean), "/")
  }

  // ---- What each key contributes ----------------------------------------------

  /** A listed key is skipped, or marks a directory, or is an object below the directories its other segments spell. */
  datatype Entry = Skipped | Marker(dir: string) | Counted(row: ObjectMetadata, parts: seq<string>)

  function ObjectRow(bucket: string, o: S3Object, clean: string): ObjectMetadata {
    ObjectMetadata(bucket, bucket + "/" + o.key, Relative(o.key, clean), ObjectMeta, o.size, 1)
  }

  function Classify(bucket: string, o: S3Object, clean: string): Entry {
    var rel := Relative(o.key, clean);
    if rel == "" || HasReservedObjectSegment(rel) then Skipped
    else if HasSuffix(o.key, "/") then Marker(TrimSlashes(TrimSuffix(rel, "/")))
    else Counted(ObjectRow(bucket, o, clean), Split(rel))
  }

  function Entries(bucket: string, listed: seq<S3Object>, clean: string): (es: seq<Entry>)
    ensures |es| == |listed|
    ensures forall k :: 0 <= k < |listed| ==> es[k] == Classify(bucket, listed[k], clean)
  {
    if listed == [] then []
    else Entries(bucket, listed[..|listed| - 1], clean) + [Classify(bucket, listed[|listed| - 1], clean)]
  }

  /** What `Classify` establishes about an entry. */
  ghost predicate ProperEntry(e: Entry) {
    match e
    case Skipped => true
    case Marker(dir) => !HasReservedObjectSegment(dir) && (|dir| == 0 || dir[|dir| - 1] != '/')
    case Counted(row, parts) =>
      && |parts| >= 1 && AllSlashFree(parts) && !ContainsReservedObjectSegment(parts)
      && parts == Split(row.relativePath)
  }

  lemma ClassifyProper(bucket: string, o: S3Object, clean: string)
    ensures ProperEntry(Classify(bucket, o, clean))
  {
    var rel := Relative(o.key, clean);
    if rel != "" && !HasReservedObjectSegment(rel) {
      if HasSuffix(o.key, "/") {
        TrimSuffixNotReserved(rel);
        TrimSlashesNotReserved(TrimSuffix(rel, "/"));
      } else {
        ReservedBySegments(rel);
      }
    }
  }

  // ---- What a scan means ----------------------------------------------------

  /** One row per counted object, in listing order. */
  function CountedRows(es: seq<Entry>): seq<ObjectMetadata> {
    if es == [] then []
    else CountedRows(es[..|es| - 1]) + (if es[|es| - 1].Counted? then [es[|es| - 1].row] else [])
  }

  /** `known` and the proper ancestors of a path that are shorter than i segments. */
  function WithDirsUpTo(known: set<string>, parts: seq<string>, i: nat): set<string>
    requires i <= |parts|
  {
    if i <= 1 then known else WithDirsUpTo(known, parts, i - 1) + {Join(parts[..i - 1])}
  }

  /** `known` and the directories one more key makes known: every proper ancestor of an object, only itself for a marker. */
  function WithDirs(known: set<string>, e: Entry): set<string> {
    match e
    case Skipped => known
    case Marker(dir) => if dir == "" then known else known + {dir}
    case Counted(row, parts) => WithDirsUpTo(known, parts, |parts|)
  }

  function DirPaths(es: seq<Entry>): set<string> {
    if es == [] then {} else WithDirs(DirPaths(es[..|es| - 1]), es[|es| - 1])
  }

  /** Objects strictly below directory d, and their bytes. */
  function CountUnder(rows: seq<ObjectMetadata>, d: string): int {
    if rows == [] then 0
    else CountUnder(rows[..|rows| - 1], d) + (if HasPrefix(rows[|rows| - 1].relativePath, d + "/") then 1 else 0)
  }

  function SumUnder(rows: seq<ObjectMetadata>, d: string): int {
    if rows == [] then 0
    else SumUnder(rows[..|rows| - 1], d)
         + (if HasPrefix(rows[|rows| - 1].relativePath, d + "/") then rows[|rows| - 1].sizeBytes else 0)
  }

  function TotalSize(rows: seq<ObjectMetadata>): int {
    if rows == [] then 0 else TotalSize(rows[..|rows| - 1]) + rows[|rows| - 1].sizeBytes
  }

  predicate NonEmptyUpTo(parts: seq<string>, i: nat)
    requires i <= |parts|
  {
    i == 0 || (NonEmptyUpTo(parts, i - 1) && |parts[i - 1]| > 0)
  }

  /** Some counted key has an empty segment above its last one. */
  predicate HitsEmptyDir(es: seq<Entry>) {
    es != [] && (HitsEmptyDir(es[..|es| - 1]) || HasEmptyDir(es[|es| - 1]))
  }

  predicate HasEmptyDir(e: Entry) {
    e.Counted? && |e.parts| >= 1 && !NonEmptyUpTo(e.parts, |e.parts| - 1)
  }

  function DirRow(bucket: string, clean: string, rows: seq<ObjectMetadata>, d: string): ObjectMetadata {
    var base := TrimSuffix(clean, "/");
    ObjectMetadata(bucket, if base != "" then bucket + "/" + base + "/" + d else bucket + "/" + d,
                   d, PrefixMeta, SumUnder(rows, d), CountUnder(rows, d))
  }

  predicate PathLe(a: ObjectMetadata, b: ObjectMetadata) {
    StrLe(a.relativePath, b.relativePath)
  }

  ghost predicate SortedByPath(xs: seq<ObjectMetadata>) {
    forall i, j :: 0 <= i < j < |xs| ==> PathLe(xs[i], xs[j])
  }

  ghost predicate DistinctPaths(dirs: seq<ObjectMetadata>) {
    forall i, j :: 0 <= i < j < |dirs| ==> dirs[i].relativePath != dirs[j].relativePath
  }

  /** Each row is the exact aggregate of one of `paths`, and no path has two rows. */
  ghost predicate RowsOf(bucket: string, clean: string, rows: seq<ObjectMetadata>, paths: set<string>, dirs: seq<ObjectMetadata>) {
    && (forall m :: m in dirs ==> m.relativePath in paths && m == DirRow(bucket, clean, rows, m.relativePath))
    && DistinctPaths(dirs)
  }

  predicate Survives(m: ObjectMetadata) {
    && m.nodeType != BucketMeta
    && !(m.relativePath != "" && HasReservedObjectSegment(m.relativePath))
    && !HasReservedObjectSegment(m.path)
  }

  /** The directory part of a scan's rows: one exact aggregate for each directory, in any order. */
  ghost predicate IsDirectoryPart(bucket: string, clean: string, es: seq<Entry>, dirs: seq<ObjectMetadata>) {
    var rows := CountedRows(es);
    && RowsOf(bucket, clean, rows, DirPaths(es), dirs)
    && (forall m :: m in dirs ==> Survives(m))
    && (forall d :: d in DirPaths(es) && Survives(DirRow(bucket, clean, rows, d)) ==> DirRow(bucket, clean, rows, d) in dirs)
  }

  /** The object part: every counted object once, ordered by relative path. */
  ghost predicate IsObjectPart(es: seq<Entry>, objects: seq<ObjectMetadata>) {
    multiset(objects) == multiset(CountedRows(es)) && SortedByPath(objects)
  }

  /** The row of a scanned prefix itself; that of a whole bucket is always filtered out again. */
  function LeadRow(bucket: string, prefix: string, totalSize: int, totalCount: int): ObjectMetadata {
    var clean := CleanPrefix(prefix);
    var base := TrimSuffix(clean, "/");
    if prefix == "" then ObjectMetadata(bucket, bucket, base, BucketMeta, totalSize, totalCount)
    else ObjectMetadata(bucket, if clean != "" then bucket + "/" + base else bucket, base, PrefixMeta, totalSize, totalCount)
  }

  ghost predicate IsScan(bucket: string, prefix: string, es: seq<Entry>, metas: seq<ObjectMetadata>) {
    var rows := CountedRows(es);
    var lead := LeadRow(bucket, prefix, TotalSize(rows), |rows|);
    var n := if Survives(lead) then 1 else 0;
    && |metas| >= n + |rows|
    && (n == 1 ==> metas[0] == lead)
    && IsDirectoryPart(bucket, CleanPrefix(prefix), es, metas[n..|metas| - |rows|])
    && IsObjectPart(es, metas[|metas| - |rows|..])
  }

  // ---- Lemmas on directories ------------------------------------------------

  lemma {:induction false} DirsUpToMember(known: set<string>, parts: seq<string>, i: nat, d: string)
    requires i <= |parts| && AllSlashFree(parts)
    ensures d in WithDirsUpTo(known, parts, i) <==> d in known || (ProperPrefix(Split(d), parts) && |Split(d)| < i)
  {
    if i > 1 {
      DirsUpToMember(known, parts, i - 1, d);
      SplitJoin(parts[..i - 1]);
      JoinSplit(d);
    }
  }

  lemma {:induction false} DirsUpToGrows(known: set<string>, parts: seq<string>, i: nat)
    requires i <= |parts|
    ensures known <= WithDirsUpTo(known, parts, i)
  {
    if i > 1 {
      DirsUpToGrows(known, parts, i - 1);
    }
  }

  ghost predicate ProperEntries(es: seq<Entry>) {
    forall k :: 0 <= k < |es| ==> ProperEntry(es[k])
  }

  lemma EntriesProper(bucket: string, listed: seq<S3Object>, clean: string)
    ensures ProperEntries(Entries(bucket, listed, clean))
  {
    var es := Entries(bucket, listed, clean);
    forall k | 0 <= k < |es| ensures ProperEntry(es[k]) {
      ClassifyProper(bucket, listed[k], clean);
    }
  }

  lemma NothingUnderStep(rest: seq<Entry>, e: Entry, d: string)
    requires ProperEntry(e) && d !in WithDirs(DirPaths(rest), e)
    ensures d !in DirPaths(rest)
    ensures e.Counted? ==> !HasPrefix(e.row.relativePath, d + "/")
  {
    if e.Counted? {
      DirsUpToGrows(DirPaths(rest), e.parts, |e.parts|);
      DirsUpToMember(DirPaths(rest), e.parts, |e.parts|, d);
      SplitPrefix(d, e.row.relativePath);
    }
  }

  lemma {:induction false} NothingUnderUnknown(es: seq<Entry>, d: string)
    requires ProperEntries(es) && d !in DirPaths(es)
    ensures CountUnder(CountedRows(es), d) == 0
    ensures SumUnder(CountedRows(es), d) == 0
  {
    if es != [] {
      var rest := es[..|es| - 1];
      var e := es[|es| - 1];
      assert ProperEntry(e);
      NothingUnderStep(rest, e, d);
      NothingUnderUnknown(rest, d);
      var rows := CountedRows(es);
      assert e.Counted? ==> rows[..|rows| - 1] == CountedRows(rest) && rows[|rows| - 1] == e.row;
      assert !e.Counted? ==> rows == CountedRows(rest);
    }
  }

  ghost predicate NothingOutside(rows: seq<ObjectMetadata>, known: set<string>) {
    forall d {:trigger CountUnder(rows, d)} {:trigger SumUnder(rows, d)} :: d !in known ==> CountUnder(rows, d) == 0 && SumUnder(rows, d) == 0
  }

  lemma KnownNothingOutside(es: seq<Entry>)
    requires ProperEntries(es)
    ensures NothingOutside(CountedRows(es), DirPaths(es))
  {
    forall d | d !in DirPaths(es) ensures CountUnder(CountedRows(es), d) == 0 && SumUnder(CountedRows(es), d) == 0 {
      NothingUnderUnknown(es, d);
    }
  }

  lemma DirsAreNotReserved(parts: seq<string>, i: nat)
    requires 1 <= i <= |parts| && AllSlashFree(parts) && !ContainsReservedObjectSegment(parts)
    ensures !HasReservedObjectSegment(Join(parts[..i]))
  {
    ReservedBySegments(Join(parts[..i]));
    SplitJoin(parts[..i]);
    ReservedConcat(parts[..i], parts[i..]);
    assert parts == parts[..i] + parts[i..];
  }

  lemma {:induction false} NonEmptyMeans(parts: seq<string>, i: nat)
    requires i <= |parts|
    ensures NonEmptyUpTo(parts, i) <==> forall j :: 0 <= j < i ==> |parts[j]| > 0
  {
    if i > 0 {
      NonEmptyMeans(parts, i - 1);
    }
  }

  lemma {:induction false} EmptyStays(parts: seq<string>, i: nat, n: nat)
    requires 1 <= i <= n <= |parts| && |parts[i - 1]| == 0
    ensures !NonEmptyUpTo(parts, n)
  {
    if i < n {
      EmptyStays(parts, i, n - 1);
    }
  }

  lemma {:induction false} HitsEmptyDirMeans(es: seq<Entry>)
    ensures HitsEmptyDir(es) <==> exists e :: e in es && HasEmptyDir(e)
  {
    if es != [] {
      HitsEmptyDirMeans(es[..|es| - 1]);
      assert es == es[..|es| - 1] + [es[|es| - 1]];
    }
  }

  lemma {:induction false} HitsEmptyDirPrefix(es: seq<Entry>, n: nat)
    requires n <= |es| && HitsEmptyDir(es[..n])
    ensures HitsEmptyDir(es)
    decreases |es| - n
  {
    if n < |es| {
      assert es[..n + 1][..n] == es[..n];
      HitsEmptyDirPrefix(es, n + 1);
    } else {
      assert es[..n] == es;
    }
  }

  // ---- The table of aggregates ------------------------------------------------

  function EnsureDirAggEntry(dirAgg: map<string, ObjectMetadata>, bucket: string, dirPath: string): map<string, ObjectMetadata> {
    var d := TrimSlashes(dirPath);
    if d == "" || d in dirAgg || HasReservedObjectSegment(d) then dirAgg
    else dirAgg[d := ObjectMetadata(bucket, "", d, PrefixMeta, 0, 0)]
  }

  /** The aggregate of directory d over the given rows, before its path is filled in. */
  function Aggregate(bucket: string, rows: seq<ObjectMetadata>, d: string): ObjectMetadata {
    ObjectMetadata(bucket, "", d, PrefixMeta, SumUnder(rows, d), CountUnder(rows, d))
  }

  /** A directory's entry while the ancestors of `parts` shorter than i have been credited with one more object. */
  function PartEntry(bucket: string, rows: seq<ObjectMetadata>, parts: seq<string>, i: nat, size: int, d: string): ObjectMetadata {
    if |Split(d)| < |parts| && |Split(d)| < i && Split(d) == parts[..|Split(d)|]
    then ObjectMetadata(bucket, "", d, PrefixMeta, SumUnder(rows, d) + size, CountUnder(rows, d) + 1)
    else Aggregate(bucket, rows, d)
  }

  ghost predicate ProperKeys(dirAgg: map<string, ObjectMetadata>) {
    forall d {:trigger d in dirAgg} :: d in dirAgg ==> |d| > 0 && d[|d| - 1] != '/'
  }

  ghost predicate ExactTable(bucket: string, rows: seq<ObjectMetadata>, dirAgg: map<string, ObjectMetadata>) {
    forall d {:trigger dirAgg[d]} :: d in dirAgg ==> dirAgg[d] == Aggregate(bucket, rows, d)
  }

  ghost predicate PartTable(bucket: string, rows: seq<ObjectMetadata>, dirAgg: map<string, ObjectMetadata>,
                            parts: seq<string>, i: nat, size: int)
  {
    forall d {:trigger dirAgg[d]} :: d in dirAgg ==> dirAgg[d] == PartEntry(bucket, rows, parts, i, size, d)
  }

  function CreditEntry(dirAgg: map<string, ObjectMetadata>, d: string, size: int): map<string, ObjectMetadata>
    requires d in dirAgg
  {
    dirAgg[d := dirAgg[d].(sizeBytes := dirAgg[d].sizeBytes + size, objectCount := dirAgg[d].objectCount + 1)]
  }

  lemma EnsuredEntry(dirAgg: map<string, ObjectMetadata>, bucket: string, dirPath: string, d: string)
    requires TrimSlashes(dirPath) == d != "" && !HasReservedObjectSegment(d)
    ensures EnsureDirAggEntry(dirAgg, bucket, dirPath)
            == if d in dirAgg then dirAgg else dirAgg[d := ObjectMetadata(bucket, "", d, PrefixMeta, 0, 0)]
  {
  }

  lemma CreditTable(bucket: string, rows: seq<ObjectMetadata>, dirAgg: map<string, ObjectMetadata>, ensured: map<string, ObjectMetadata>,
                    d: string, parts: seq<string>, i: nat, size: int)
    requires 1 <= i < |parts| && Split(d) == parts[..i]
    requires ensured == if d in dirAgg then dirAgg else dirAgg[d := ObjectMetadata(bucket, "", d, PrefixMeta, 0, 0)]
    requires PartTable(bucket, rows, dirAgg, parts, i, size)
    requires d !in dirAgg ==> CountUnder(rows, d) == 0 && SumUnder(rows, d) == 0
    ensures d in ensured
    ensures PartTable(bucket, rows, CreditEntry(ensured, d, size), parts, i + 1, size)
    ensures CreditEntry(ensured, d, size).Keys == dirAgg.Keys + {d}
  {
    hide Split, CountUnder, SumUnder, PartEntry;
    var next := CreditEntry(ensured, d, size);
    forall e | e in next ensures next[e] == PartEntry(bucket, rows, parts, i + 1, size, e) {
      PartEntryStep(bucket, rows, parts, i, size, d, e);
    }
  }

  /** Crediting the ancestor of i segments changes that ancestor's entry only. */
  lemma PartEntryStep(bucket: string, rows: seq<ObjectMetadata>, parts: seq<string>, i: nat, size: int, d: string, e: string)
    requires 1 <= i < |parts| && Split(d) == parts[..i]
    ensures e != d ==> PartEntry(bucket, rows, parts, i + 1, size, e) == PartEntry(bucket, rows, parts, i, size, e)
    ensures PartEntry(bucket, rows, parts, i, size, d) == Aggregate(bucket, rows, d)
    ensures PartEntry(bucket, rows, parts, i + 1, size, d) == ObjectMetadata(bucket, "", d, PrefixMeta, SumUnder(rows, d) + size,
        CountUnder(rows, d) + 1)
    ensures Aggregate(bucket, rows, d) == ObjectMetadata(bucket, "", d, PrefixMeta, SumUnder(rows, d), CountUnder(rows, d))
  {
    hide Split, Join, CountUnder, SumUnder;
    JoinSplit(e);
    JoinSplit(d);
  }

  lemma CleanDir(parts: seq<string>, i: nat) returns (d: string)
    requires 1 <= i < |parts| && AllSlashFree(parts) && !ContainsReservedObjectSegment(parts)
    requires NonEmptyUpTo(parts, i)
    ensures d == Join(parts[..i]) && Split(d) == parts[..i]
    ensures |d| > 0 && d[|d| - 1] != '/' && TrimSlashes(d) == d
    ensures !HasReservedObjectSegment(d)
  {
    var dirs := parts[..i];
    d := Join(dirs);
    NonEmptyMeans(parts, i);
    assert Split(d) == dirs by { SplitJoin(dirs); }
    assert TrimSlashes(d) == d != "" by { JoinTrimmed(dirs); }
    assert d[|d| - 1] != '/' by {
      JoinEnds(dirs);
      var last := dirs[i - 1];
      assert last[|last| - 1] in last;
    }
    assert !HasReservedObjectSegment(d) by { DirsAreNotReserved(parts, i); }
  }

  lemma CreditKeys(dirAgg: map<string, ObjectMetadata>, bucket: string, parts: seq<string>, i: nat)
    requires 1 <= i < |parts| && AllSlashFree(parts) && !ContainsReservedObjectSegment(parts)
    requires NonEmptyUpTo(parts, i)
    ensures var d := Join(parts[..i]);
            EnsureDirAggEntry(dirAgg, bucket, d)
            == if d in dirAgg then dirAgg else dirAgg[d := ObjectMetadata(bucket, "", d, PrefixMeta, 0, 0)]
  {
    var d := CleanDir(parts, i);
    EnsuredEntry(dirAgg, bucket, d, d);
  }

  lemma ProperDir(parts: seq<string>, i: nat)
    requires 1 <= i < |parts| && AllSlashFree(parts) && !ContainsReservedObjectSegment(parts)
    requires NonEmptyUpTo(parts, i)
    ensures var d := Join(parts[..i]); |d| > 0 && d[|d| - 1] != '/' && Split(d) == parts[..i]
  {
    var _ := CleanDir(parts, i);
  }

  lemma CreditStep(bucket: string, rows: seq<ObjectMetadata>, known: set<string>, dirAgg: map<string, ObjectMetadata>,
                   parts: seq<string>, i: nat, size: int)
    returns (next: map<string, ObjectMetadata>)
    requires 1 <= i < |parts| && AllSlashFree(parts) && !ContainsReservedObjectSegment(parts)
    requires NonEmptyUpTo(parts, i)
    requires ProperKeys(dirAgg) && PartTable(bucket, rows, dirAgg, parts, i, size)
    requires dirAgg.Keys == WithDirsUpTo(known, parts, i) && NothingOutside(rows, known)
    ensures Join(parts[..i]) in EnsureDirAggEntry(dirAgg, bucket, Join(parts[..i]))
    ensures next == CreditEntry(EnsureDirAggEntry(dirAgg, bucket, Join(parts[..i])), Join(parts[..i]), size)
    ensures ProperKeys(next) && PartTable(bucket, rows, next, parts, i + 1, size)
    ensures next.Keys == WithDirsUpTo(known, parts, i + 1)
  {
    var d := Join(parts[..i]);
    var ensured := EnsureDirAggEntry(dirAgg, bucket, d);
    CreditKeys(dirAgg, bucket, parts, i);
    ProperDir(parts, i);
    DirsUpToGrows(known, parts, i);
    CreditTable(bucket, rows, dirAgg, ensured, d, parts, i, size);
    next := CreditEntry(ensured, d, size);
  }

  lemma MissingEntry(dirAgg: map<string, ObjectMetadata>, bucket: string, parts: seq<string>, i: nat)
    requires 1 <= i < |parts| && |parts[i - 1]| == 0 && ProperKeys(dirAgg)
    ensures Join(parts[..i]) !in EnsureDirAggEntry(dirAgg, bucket, Join(parts[..i]))
  {
    assert parts[..i] == parts[..i - 1] + [""];
    if i > 1 {
      JoinSnoc(parts[..i - 1], "");
    }
  }

  /** One turn of the loop over an object's ancestors.  The lookup after `EnsureDirAggEntry` uses the untrimmed path,
      so below an empty segment it finds no entry and the dereference panics. */
  method CreditDirectory(bucket: string, dirAgg: map<string, ObjectMetadata>, parts: seq<string>, i: nat, size: int,
                         ghost rows: seq<ObjectMetadata>, ghost known: set<string>)
    returns (next: map<string, ObjectMetadata>, panicked: bool)
    requires 1 <= i < |parts| && AllSlashFree(parts) && !ContainsReservedObjectSegment(parts)
    requires NonEmptyUpTo(parts, i - 1)
    requires ProperKeys(dirAgg) && PartTable(bucket, rows, dirAgg, parts, i, size)
    requires dirAgg.Keys == WithDirsUpTo(known, parts, i) && NothingOutside(rows, known)
    ensures panicked ==> !NonEmptyUpTo(parts, |parts| - 1)
    ensures !panicked ==> NonEmptyUpTo(parts, i)
    ensures !panicked ==> ProperKeys(next) && PartTable(bucket, rows, next, parts, i + 1, size)
    ensures !panicked ==> next.Keys == WithDirsUpTo(known, parts, i + 1)
  {
    var dirPath := Join(parts[..i]);
    next := EnsureDirAggEntry(dirAgg, bucket, dirPath);
    if |parts[i - 1]| > 0 {
      var _ := CreditStep(bucket, rows, known, dirAgg, parts, i, size);
    } else {
      MissingEntry(dirAgg, bucket, parts, i);
      EmptyStays(parts, i, |parts| - 1);
    }
    panicked := dirPath !in next;
    if !panicked {
      next := CreditEntry(next, dirPath, size);
    }
  }

  lemma StartOfParts(bucket: string, rows: seq<ObjectMetadata>, dirAgg: map<string, ObjectMetadata>, parts: seq<string>, size: int)
    requires |parts| >= 1
    ensures NonEmptyUpTo(parts, 0) && WithDirsUpTo(dirAgg.Keys, parts, 1) == dirAgg.Keys
    ensures ExactTable(bucket, rows, dirAgg) ==> PartTable(bucket, rows, dirAgg, parts, 1, size)
  {
  }

  method CreditDirectories(bucket: string, dirAgg0: map<string, ObjectMetadata>, parts: seq<string>, size: int,
                           ghost rows: seq<ObjectMetadata>)
    returns (dirAgg: map<string, ObjectMetadata>, panicked: bool)
    requires AllSlashFree(parts) && |parts| >= 1 && !ContainsReservedObjectSegment(parts)
    requires ProperKeys(dirAgg0) && NothingOutside(rows, dirAgg0.Keys) && ExactTable(bucket, rows, dirAgg0)
    ensures panicked <==> !NonEmptyUpTo(parts, |parts| - 1)
    ensures !panicked ==> dirAgg.Keys == WithDirsUpTo(dirAgg0.Keys, parts, |parts|) && ProperKeys(dirAgg)
    ensures !panicked ==> PartTable(bucket, rows, dirAgg, parts, |parts|, size)
  {
    hide *;
    dirAgg, panicked := dirAgg0, false;
    StartOfParts(bucket, rows, dirAgg0, parts, size);
    var i := 1;
    while i < |parts|
      invariant 1 <= i <= |parts|
      invariant NonEmptyUpTo(parts, i - 1) && !panicked
      invariant dirAgg.Keys == WithDirsUpTo(dirAgg0.Keys, parts, i) && ProperKeys(dirAgg)
      invariant PartTable(bucket, rows, dirAgg, parts, i, size)
    {
      dirAgg, panicked := CreditDirectory(bucket, dirAgg, parts, i, size, rows, dirAgg0.Keys);
      if panicked {
        return;
      }
      i := i + 1;
    }
  }

  lemma FullyCredited(bucket: string, rows: seq<ObjectMetadata>, dirAgg: map<string, ObjectMetadata>, e: Entry)
    requires e.Counted? && ProperEntry(e)
    requires PartTable(bucket, rows, dirAgg, e.parts, |e.parts|, e.row.sizeBytes)
    ensures ExactTable(bucket, rows + [e.row], dirAgg)
  {
    assert (rows + [e.row])[..|rows|] == rows;
    forall d | d in dirAgg ensures dirAgg[d] == Aggregate(bucket, rows + [e.row], d) {
      SplitPrefix(d, e.row.relativePath);
    }
  }

  lemma MarkerStep(bucket: string, rows: seq<ObjectMetadata>, dirAgg: map<string, ObjectMetadata>, dirPath: string, dir: string)
    returns (next: map<string, ObjectMetadata>)
    requires dir == TrimSlashes(dirPath) && ProperEntry(Marker(dir))
    requires ProperKeys(dirAgg) && NothingOutside(rows, dirAgg.Keys) && ExactTable(bucket, rows, dirAgg)
    ensures next == EnsureDirAggEntry(dirAgg, bucket, dirPath)
    ensures next.Keys == WithDirs(dirAgg.Keys, Marker(dir)) && ProperKeys(next)
    ensures ExactTable(bucket, rows, next)
  {
    next := EnsureDirAggEntry(dirAgg, bucket, dirPath);
    if dir != "" {
      EnsuredEntry(dirAgg, bucket, dirPath, dir);
    }
  }

  /** How one more entry extends each of the three summaries of a listing. */
  lemma OneMoreEntry(es: seq<Entry>, n: nat)
    requires n < |es|
    ensures CountedRows(es[..n + 1]) == CountedRows(es[..n]) + (if es[n].Counted? then [es[n].row] else [])
    ensures DirPaths(es[..n + 1]) == WithDirs(DirPaths(es[..n]), es[n])
    ensures HitsEmptyDir(es[..n + 1]) <==> HitsEmptyDir(es[..n]) || HasEmptyDir(es[n])
  {
    assert es[..n + 1][..n] == es[..n];
  }

  // ---- Operations -----------------------------------------------------------

  /** One turn of the loop over the listing. */
  method CollectEntry(bucket: string, clean: string, entry: S3Object, objects0: seq<ObjectMetadata>, dirAgg0: map<string, ObjectMetadata>,
                      totalSize0: int, totalCount0: int)
    returns (objects: seq<ObjectMetadata>, dirAgg: map<string, ObjectMetadata>, totalSize: int, totalCount: int, panicked: bool)
    requires totalSize0 == TotalSize(objects0) && totalCount0 == |objects0|
    requires ProperKeys(dirAgg0) && NothingOutside(objects0, dirAgg0.Keys) && ExactTable(bucket, objects0, dirAgg0)
    ensures var e := Classify(bucket, entry, clean);
            && (panicked <==> HasEmptyDir(e))
            && (!panicked ==>
                  && objects == objects0 + (if e.Counted? then [e.row] else [])
                  && totalSize == TotalSize(objects) && totalCount == |objects|
                  && dirAgg.Keys == WithDirs(dirAgg0.Keys, e)
                  && ProperKeys(dirAgg) && ExactTable(bucket, objects, dirAgg))
  {
    hide HasReservedObjectSegment, Split, CountUnder, SumUnder, TrimSlashes, HasSuffix, TrimSuffix, Relative, EnsureDirAggEntry,
      ExactTable, PartTable, ProperKeys, NothingOutside, WithDirsUpTo, NonEmptyUpTo, AllSlashFree, ContainsReservedObjectSegment;
    objects, dirAgg, totalSize, totalCount, panicked := objects0, dirAgg0, totalSize0, totalCount0, false;
    ghost var e := Classify(bucket, entry, clean);
    ClassifyProper(bucket, entry, clean);
    var relative := Relative(entry.key, clean);
    if relative == "" || HasReservedObjectSegment(relative) {
      assert e == Skipped;
      return;
    }
    if HasSuffix(entry.key, "/") {
      assert e == Marker(TrimSlashes(TrimSuffix(relative, "/")));
      var _ := MarkerStep(bucket, objects0, dirAgg0, TrimSuffix(relative, "/"), e.dir);
      dirAgg := EnsureDirAggEntry(dirAgg, bucket, TrimSuffix(relative, "/"));
      return;
    }
    assert e == Counted(ObjectRow(bucket, entry, clean), Split(relative));
    dirAgg, panicked := CreditDirectories(bucket, dirAgg, Split(relative), entry.size, objects0);
    if !panicked {
      FullyCredited(bucket, objects0, dirAgg, e);
      objects := objects0 + [ObjectRow(bucket, entry, clean)];
      totalSize := totalSize + entry.size;
      totalCount := totalCount + 1;
      assert objects[..|objects0|] == objects0;
    }
  }

  /** The loop over the listing: object rows, and an exact table of every directory they make known. */
  method CollectListing(bucket: string, clean: string, listed: seq<S3Object>)
    returns (objects: seq<ObjectMetadata>, dirAgg: map<string, ObjectMetadata>, totalSize: int, totalCount: int, panicked: bool)
    ensures panicked <==> HitsEmptyDir(Entries(bucket, listed, clean))
    ensures !panicked ==>
              && totalSize == TotalSize(objects) && totalCount == |objects|
              && objects == CountedRows(Entries(bucket, listed, clean))
              && dirAgg.Keys == DirPaths(Entries(bucket, listed, clean))
              && ExactTable(bucket, objects, dirAgg)
  {
    objects, dirAgg, totalSize, totalCount, panicked := [], map[], 0, 0, false;
    ghost var es := Entries(bucket, listed, clean);
    EntriesProper(bucket, listed, clean);
    var n := 0;
    while n < |listed|
      invariant 0 <= n <= |listed|
      invariant objects == CountedRows(es[..n])
      invariant totalSize == TotalSize(objects) && totalCount == |objects|
      invariant dirAgg.Keys == DirPaths(es[..n]) && ProperKeys(dirAgg)
      invariant ExactTable(bucket, objects, dirAgg)
      invariant !HitsEmptyDir(es[..n]) && !panicked
    {
      KnownNothingOutside(es[..n]);
      OneMoreEntry(es, n);
      objects, dirAgg, totalSize, totalCount, panicked := CollectEntry(bucket, clean, listed[n], objects, dirAgg, totalSize, totalCount);
      if panicked {
        HitsEmptyDirPrefix(es, n + 1);
        return;
      }
      n := n + 1;
    }
    assert es[..n] == es;
  }

  /** Completes the aggregates' paths, ranging over the map in no particular order. */
  method DirectoryRows(bucket: string, clean: string, dirAgg: map<string, ObjectMetadata>, ghost rows: seq<ObjectMetadata>)
    returns (dirs: seq<ObjectMetadata>)
    requires ExactTable(bucket, rows, dirAgg)
    ensures RowsOf(bucket, clean, rows, dirAgg.Keys, dirs)
    ensures forall d :: d in dirAgg ==> DirRow(bucket, clean, rows, d) in dirs
  {
    dirs := [];
    var todo := dirAgg.Keys;
    while todo != {}
      invariant todo <= dirAgg.Keys
      invariant forall m :: m in dirs ==> m.relativePath in dirAgg.Keys - todo && m == DirRow(bucket, clean, rows, m.relativePath)
      invariant forall d :: d in dirAgg.Keys - todo ==> DirRow(bucket, clean, rows, d) in dirs
      invariant DistinctPaths(dirs)
    {
      var d :| d in todo;
      var base := TrimSuffix(clean, "/");
      var row := dirAgg[d].(path := if base != "" then bucket + "/" + base + "/" + d else bucket + "/" + d);
      assert row == DirRow(bucket, clean, rows, d);
      assert forall i :: 0 <= i < |dirs| ==> dirs[i] in dirs;
      dirs := dirs + [row];
      todo := todo - {d};
    }
  }

  function FilterReservedMetadata(metas: seq<ObjectMetadata>): seq<ObjectMetadata> {
    if metas == [] then []
    else FilterReservedMetadata(metas[..|metas| - 1]) + (if Survives(metas[|metas| - 1]) then [metas[|metas| - 1]] else [])
  }

  lemma {:induction false} FilterConcat(a: seq<ObjectMetadata>, b: seq<ObjectMetadata>)
    ensures FilterReservedMetadata(a + b) == FilterReservedMetadata(a) + FilterReservedMetadata(b)
  {
    hide Survives;
    if b == [] {
      assert a + b == a;
    } else {
      FilterConcat(a, b[..|b| - 1]);
      ConcatFront(a, b);
      var last := if Survives(b[|b| - 1]) then [b[|b| - 1]] else [];
      ConcatAssociative(FilterReservedMetadata(a), FilterReservedMetadata(b[..|b| - 1]), last);
    }
  }

  lemma {:induction false} FilterMember(xs: seq<ObjectMetadata>, m: ObjectMetadata)
    ensures m in FilterReservedMetadata(xs) <==> m in xs && Survives(m)
  {
    if xs != [] {
      FilterMember(xs[..|xs| - 1], m);
      assert xs == xs[..|xs| - 1] + [xs[|xs| - 1]];
    }
  }

  lemma {:induction false} FilterKeepsDistinct(xs: seq<ObjectMetadata>)
    requires DistinctPaths(xs)
    ensures DistinctPaths(FilterReservedMetadata(xs))
  {
    if xs != [] {
      var front := xs[..|xs| - 1];
      FilterKeepsDistinct(front);
      var f := FilterReservedMetadata(front);
      forall i | 0 <= i < |f| ensures f[i].relativePath != xs[|xs| - 1].relativePath {
        FilterMember(front, f[i]);
        assert f[i] in f;
        var k :| 0 <= k < |front| && front[k] == f[i];
        assert xs[k] == f[i];
      }
    }
  }

  lemma FilteredRows(bucket: string, clean: string, es: seq<Entry>, dirs: seq<ObjectMetadata>)
    requires RowsOf(bucket, clean, CountedRows(es), DirPaths(es), dirs)
    requires forall d :: d in DirPaths(es) ==> DirRow(bucket, clean, CountedRows(es), d) in dirs
    ensures IsDirectoryPart(bucket, clean, es, FilterReservedMetadata(dirs))
  {
    FilterKeepsDistinct(dirs);
    var rows := CountedRows(es);
    var kept := FilterReservedMetadata(dirs);
    forall m | m in kept ensures m.relativePath in DirPaths(es) && m == DirRow(bucket, clean, rows, m.relativePath) && Survives(m) {
      FilterMember(dirs, m);
    }
    forall d | d in DirPaths(es) && Survives(DirRow(bucket, clean, rows, d)) ensures DirRow(bucket, clean, rows, d) in kept {
      FilterMember(dirs, DirRow(bucket, clean, rows, d));
    }
  }

  lemma PathOrder()
    ensures TotalPreorder(PathLe)
  {
    forall a: ObjectMetadata, b: ObjectMetadata ensures PathLe(a, b) || PathLe(b, a) {
      StrLeTotal(a.relativePath, b.relativePath);
    }
    forall a: ObjectMetadata, b: ObjectMetadata, c: ObjectMetadata | PathLe(a, b) && PathLe(b, c) ensures PathLe(a, c) {
      StrLeTransitive(a.relativePath, b.relativePath, c.relativePath);
    }
  }

  method SortByPath(objects: seq<ObjectMetadata>) returns (sorted: seq<ObjectMetadata>)
    ensures multiset(sorted) == multiset(objects) && SortedByPath(sorted)
    ensures |sorted| == |objects|
  {
    PathOrder();
    sorted := SortSlice(objects, PathLe);
  }

  /** The scan of a bucket or of a prefix in it.  It panics exactly when some counted key has an empty segment
      above its last one; otherwise its rows are the exact directory aggregates, in the order Go happens to
      range over its map, followed by the sorted objects. */
  method ScanBucket(s: S3Scanner, bucket: string, prefix: string) returns (r: ScanAnswer)
    ensures !r.BucketNotAllowed?
    ensures var es := Entries(bucket, ListObjects(s, bucket, CleanPrefix(prefix)), CleanPrefix(prefix));
            && (r.Panicked? <==> HitsEmptyDir(es))
            && (r.Metas? ==> IsScan(bucket, prefix, es, r.metas))
  {
    var clean := CleanPrefix(prefix);
    var listed := ListObjects(s, bucket, clean);
    var objects, dirAgg, totalSize, totalCount, panicked := CollectListing(bucket, clean, listed);
    if panicked {
      return Panicked;
    }
    var lead := LeadRow(bucket, prefix, totalSize, totalCount);
    var dirs := DirectoryRows(bucket, clean, dirAgg, objects);
    var results := FilterReservedMetadata([lead] + dirs);
    var sorted := SortByPath(objects);
    r := Metas(results + sorted);
    AssembledScan(bucket, prefix, Entries(bucket, listed, clean), lead, dirs, results, sorted);
  }

  lemma AssembledScan(bucket: string, prefix: string, es: seq<Entry>, lead: ObjectMetadata, dirs: seq<ObjectMetadata>,
                      results: seq<ObjectMetadata>, sorted: seq<ObjectMetadata>)
    requires var rows := CountedRows(es);
             && lead == LeadRow(bucket, prefix, TotalSize(rows), |rows|)
             && RowsOf(bucket, CleanPrefix(prefix), rows, DirPaths(es), dirs)
             && (forall d :: d in DirPaths(es) ==> DirRow(bucket, CleanPrefix(prefix), rows, d) in dirs)
             && results == FilterReservedMetadata([lead] + dirs)
             && multiset(sorted) == multiset(rows) && SortedByPath(sorted) && |sorted| == |rows|
    ensures IsScan(bucket, prefix, es, results + sorted)
  {
    var metas := results + sorted;
    FilterConcat([lead], dirs);
    FilteredRows(bucket, CleanPrefix(prefix), es, dirs);
    var n := if Survives(lead) then 1 else 0;
    assert FilterReservedMetadata([lead]) == if Survives(lead) then [lead] else [];
    assert metas[n..|metas| - |sorted|] == FilterReservedMetadata(dirs);
    assert metas[|metas| - |sorted|..] == sorted;
  }

  // ---- Paths ------------------------------------------------------------------

  /** Bucket and inner path of a "/"-separated location: `SplitN(path, "/", 2)` after trimming. */
  function SplitPath(path: string): (string, string) {
    var trimmed := TrimSuffix(TrimPrefix(Trim(path, Spaces), "/"), "/");
    var parts := Split(trimmed);
    (parts[0], Join(parts[1..]))
  }

  function JoinPath(bucket: string, prefix: string, name: string): string {
    var p := TrimSuffix(TrimPrefix(prefix, "/"), "/");
    if p == "" then bucket + "/" + name else bucket + "/" + p + "/" + name
  }

  /** First object with exactly this key. */
  function StatObject(objects: seq<S3Object>, key: string): seq<S3Object> {
    if objects == [] then []
    else if objects[0].key == key then [objects[0]]
    else StatObject(objects[1..], key)
  }

  function BucketContents(s: S3Scanner, bucket: string): seq<S3Object> {
    if bucket in s.contents then s.contents[bucket] else []
  }

  ghost predicate IsBucketAnswer(s: S3Scanner, bucket: string, prefix: string, r: ScanAnswer) {
    var es := Entries(bucket, ListObjects(s, bucket, CleanPrefix(prefix)), CleanPrefix(prefix));
    && !r.BucketNotAllowed?
    && (r.Panicked? <==> HitsEmptyDir(es))
    && (r.Metas? ==> IsScan(bucket, prefix, es, r.metas))
  }

  /** The answers a scan of one non-blank path may give. */
  ghost predicate IsPathAnswer(s: S3Scanner, path: string, r: ScanAnswer) {
    var (bucket, prefix) := SplitPath(TrimSpace(path));
    var p := TrimPrefix(prefix, "/");
    var hit := StatObject(BucketContents(s, bucket), p);
    if bucket !in s.allowedBucket then r == BucketNotAllowed
    else if HasReservedObjectSegment(prefix) then r == Metas([])
    else if prefix == "" then IsBucketAnswer(s, bucket, "", r)
    else if hit != [] then r == Metas([ObjectMetadata(bucket, bucket + "/" + p, p, ObjectMeta, hit[0].size, 1)])
    else IsBucketAnswer(s, bucket, p, r)
  }

  function Concat(parts: seq<seq<ObjectMetadata>>): seq<ObjectMetadata> {
    if parts == [] then [] else Concat(parts[..|parts| - 1]) + parts[|parts| - 1]
  }

  /** What the listing of a whole bucket contributes. */
  function BucketEntries(s: S3Scanner, bucket: string): seq<Entry> {
    Entries(bucket, ListObjects(s, bucket, ""), "")
  }

  /** One whole-bucket scan after the other. */
  ghost predicate IsScanOfBuckets(s: S3Scanner, order: seq<string>, parts: seq<seq<ObjectMetadata>>) {
    && NoDuplicates(order) && |parts| == |order|
    && forall k :: 0 <= k < |order| ==> !HitsEmptyDir(BucketEntries(s, order[k])) && IsScan(order[k], "", BucketEntries(s, order[k]), parts[k])
  }

  /** A scan of everything panics if any allowed bucket makes it panic; else its rows are those of every allowed bucket, in
      the order Go happens to range over them. */
  ghost predicate IsAllBucketsAnswer(s: S3Scanner, r: ScanAnswer) {
    && !r.BucketNotAllowed?
    && (r.Panicked? <==> exists b :: b in s.allowedBucket && HitsEmptyDir(BucketEntries(s, b)))
    && (r.Metas? ==>
          exists order, parts ::
            IsScanOfBuckets(s, order, parts) && (forall b :: b in order <==> b in s.allowedBucket) && r.metas == Concat(parts))
  }

  /** A blank path asks for every bucket; any other has its own answer. */
  ghost predicate IsScanAnswer(s: S3Scanner, path: string, r: ScanAnswer) {
    if TrimSpace(path) == "" then IsAllBucketsAnswer(s, r) else IsPathAnswer(s, path, r)
  }

  method ScanAllBuckets(s: S3Scanner) returns (r: ScanAnswer)
    ensures IsAllBucketsAnswer(s, r)
  {
    hide IsScan, HitsEmptyDir, BucketEntries;
    var metas: seq<ObjectMetadata> := [];
    var todo := s.allowedBucket;
    ghost var order: seq<string>, parts: seq<seq<ObjectMetadata>> := [], [];
    while todo != {}
      invariant todo <= s.allowedBucket
      invariant IsScanOfBuckets(s, order, parts) && metas == Concat(parts)
      invariant forall b :: b in order <==> b in s.allowedBucket - todo
    {
      var bucket :| bucket in todo;
      var answer := ScanBucket(s, bucket, "");
      WholeBucketEntries(s, bucket);
      if answer.Panicked? {
        return Panicked;
      }
      NoDuplicatesSnoc(order, bucket);
      OneMoreBucket(s, order, parts, bucket, answer.metas);
      order, parts := order + [bucket], parts + [answer.metas];
      metas := metas + answer.metas;
      todo := todo - {bucket};
    }
    NoneHits(s, order, parts);
    return Metas(metas);
  }

  lemma WholeBucketEntries(s: S3Scanner, bucket: string)
    ensures BucketEntries(s, bucket) == Entries(bucket, ListObjects(s, bucket, CleanPrefix("")), CleanPrefix(""))
  {
  }

  lemma OneMoreBucket(s: S3Scanner, order: seq<string>, parts: seq<seq<ObjectMetadata>>, bucket: string, metas: seq<ObjectMetadata>)
    requires IsScanOfBuckets(s, order, parts) && bucket !in order
    requires !HitsEmptyDir(BucketEntries(s, bucket)) && IsScan(bucket, "", BucketEntries(s, bucket), metas)
    ensures IsScanOfBuckets(s, order + [bucket], parts + [metas]) && Concat(parts + [metas]) == Concat(parts) + metas
  {
    hide IsScan, HitsEmptyDir, BucketEntries;
    assert (parts + [metas])[..|parts|] == parts;
  }

  lemma NoneHits(s: S3Scanner, order: seq<string>, parts: seq<seq<ObjectMetadata>>)
    requires IsScanOfBuckets(s, order, parts)
    ensures forall b :: b in order ==> !HitsEmptyDir(BucketEntries(s, b))
  {
    hide IsScan, HitsEmptyDir, BucketEntries;
  }

  method ScanPath(s: S3Scanner, path: string) returns (r: ScanAnswer)
    ensures IsScanAnswer(s, path, r)
  {
    if TrimSpace(path) == "" {
      r := ScanAllBuckets(s);
      return;
    }
    var (bucket, prefix) := SplitPath(TrimSpace(path));
    if bucket !in s.allowedBucket {
      return BucketNotAllowed;
    }
    if HasReservedObjectSegment(prefix) {
      return Metas([]);
    }
    if prefix == "" {
      r := ScanBucket(s, bucket, "");
      return;
    }
    var p := TrimPrefix(prefix, "/");
    var stat := StatObject(BucketContents(s, bucket), p);
    if stat != [] {
      return Metas([ObjectMetadata(bucket, bucket + "/" + p, p, ObjectMeta, stat[0].size, 1)]);
    }
    r := ScanBucket(s, bucket, p);
  }
}

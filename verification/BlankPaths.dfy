/** Paths that sanitising leaves blank, and what a run makes of them. */
module BlankPaths {
  import opened GoStrings
  import opened ObjectKeys
  import opened Deliveries
  import opened ScanSteps
  import opened ScanRuns
  import opened AutoScans
  import Scanner = ObjectStorageScanner

  // ---- When sanitising leaves a blank path ---------------------------------------------

  ghost predicate AllCut(s: string, cut: Cutset) {
    forall i :: 0 <= i < |s| ==> Cuts(cut, s[i])
  }

  lemma {:induction false} LeftShape(s: string, cut: Cutset) returns (a: nat)
    ensures a <= |s| && AllCut(s[..a], cut) && TrimLeft(s, cut) == s[a..]
  {
    if s != "" && Cuts(cut, s[0]) {
      var k := LeftShape(s[1..], cut);
      a := k + 1;
      assert s[..a] == [s[0]] + s[1..][..k] && s[1..][k..] == s[a..];
    } else {
      a := 0;
    }
  }

  lemma {:induction false} RightShape(s: string, cut: Cutset) returns (b: nat)
    ensures b <= |s| && AllCut(s[b..], cut) && TrimRight(s, cut) == s[..b]
  {
    if s != "" && Cuts(cut, s[|s| - 1]) {
      var front := s[..|s| - 1];
      b := RightShape(front, cut);
      assert front[..b] == s[..b];
      forall i | 0 <= i < |s[b..]| ensures Cuts(cut, s[b..][i]) {
        if b + i < |front| {
          assert s[b..][i] == front[b..][i];
        } else {
          assert s[b..][i] == s[|s| - 1];
        }
      }
    } else {
      b := |s|;
    }
  }

  /** A trim cuts a run off either end and leaves what lies between. */
  lemma TrimShape(s: string, cut: Cutset) returns (a: nat, b: nat)
    ensures a <= b <= |s| && Trim(s, cut) == s[a..b] && AllCut(s[..a], cut) && AllCut(s[b..], cut)
    ensures a < b ==> !Cuts(cut, s[a]) && !Cuts(cut, s[b - 1])
  {
    a := LeftShape(s, cut);
    var rest := s[a..];
    var k := RightShape(rest, cut);
    b := a + k;
    assert rest[..k] == s[a..b] && rest[k..] == s[b..];
    if a < b {
      assert rest[..k][0] == rest[0] == s[a];
    }
  }

  lemma TrimmedAway(s: string, cut: Cutset)
    ensures Trim(s, cut) == "" <==> AllCut(s, cut)
  {
    var a, b := TrimShape(s, cut);
    if a == b {
      assert s == s[..a] + s[b..];
    } else {
      assert !Cuts(cut, s[a]);
    }
  }

  /** A run of slashes, a run of blanks, and a run of slashes, none of them empty. */
  ghost predicate IsSlashedBlank(s: string) {
    exists a, b :: 0 < a < b < |s| && AllCut(s[..a], Slashes) && AllCut(s[a..b], Blanks) && AllCut(s[b..], Slashes)
  }

  /** Sanitising leaves a path that is blank but not empty exactly when the path, once trimmed, is a run of blanks between two
      runs of slashes. */
  lemma SanitizedBlank(path: string)
    ensures SanitizeObjectPath(path) != "" && TrimSpace(SanitizeObjectPath(path)) == "" <==> IsSlashedBlank(TrimSpace(path))
  {
    hide Trim;
    var t := TrimSpace(path);
    var r := TrimSlashes(t);
    TrimmedAway(r, Blanks);
    var a, b := TrimShape(t, Slashes);
    NoOuterBlanks(path);
    if r != "" && TrimSpace(r) == "" {
      assert t[a] == r[0] && t[b - 1] == r[|r| - 1];
      assert a > 0 && b < |t|;
      assert IsSlashedBlank(t);
    }
    if IsSlashedBlank(t) {
      var c, d :| 0 < c < d < |t| && AllCut(t[..c], Slashes) && AllCut(t[c..d], Blanks) && AllCut(t[d..], Slashes);
      SameCut(t, a, b, c, d);
    }
  }

  lemma NoOuterBlanks(path: string)
    ensures TrimSpace(path) != "" ==>
              !IsSpace(TrimSpace(path)[0]) && !IsSpace(TrimSpace(path)[|TrimSpace(path)| - 1])
  {
    var a, b := TrimShape(path, Blanks);
  }

  /** The blanks in the middle are what the trim leaves. */
  lemma SameCut(t: string, a: nat, b: nat, c: nat, d: nat)
    requires a <= b <= |t| && AllCut(t[..a], Slashes) && AllCut(t[b..], Slashes) && (a < b ==> t[a] != '/' && t[b - 1] != '/')
    requires 0 < c < d < |t| && AllCut(t[..c], Slashes) && AllCut(t[c..d], Blanks) && AllCut(t[d..], Slashes)
    ensures a == c && b == d
  {
    CutAt(t, 0, a, Slashes);
    CutAt(t, b, |t|, Slashes);
    CutAt(t, 0, c, Slashes);
    CutAt(t, c, d, Blanks);
    CutAt(t, d, |t|, Slashes);
    assert IsSpace(t[c]) && IsSpace(t[d - 1]);
  }

  lemma CutAt(t: string, lo: nat, hi: nat, cut: Cutset)
    requires lo <= hi <= |t|
    ensures AllCut(t[lo..hi], cut) <==> forall i :: lo <= i < hi ==> Cuts(cut, t[i])
    ensures t[0..hi] == t[..hi] && t[lo..|t|] == t[lo..]
  {
    if AllCut(t[lo..hi], cut) {
      forall i | lo <= i < hi ensures Cuts(cut, t[i]) {
        assert t[lo..hi][i - lo] == t[i];
      }
    }
  }

  /** Such a path exists. */
  lemma BlankPathSurvives()
    ensures IsSlashedBlank("/ /") && TrimSpace("/ /") == "/ /" && SanitizeObjectPath("/ /") != ""
  {
    var s := "/ /";
    TrimSpaceIdentity(s);
    assert s[..1] == "/" && s[1..2] == " " && s[2..] == "/";
    SanitizedBlank(s);
  }

  /** A run is given a blank path exactly when the list it takes its paths from holds one of that shape. */
  lemma BlankPathChosen(paths: seq<string>, fallback: seq<string>, buckets: seq<string>)
    ensures (exists p :: p in ChosenPaths(paths, fallback, buckets) && TrimSpace(p) == "") <==>
              var chosen := ChosenList(paths, fallback, buckets);
              exists k :: 0 <= k < |chosen| && IsSlashedBlank(TrimSpace(chosen[k]))
  {
    hide SanitizeObjectPath, TrimSpace, IsSlashedBlank;
    var chosen := ChosenList(paths, fallback, buckets);
    forall k | 0 <= k < |chosen|
      ensures SanitizeObjectPath(chosen[k]) != "" && TrimSpace(SanitizeObjectPath(chosen[k])) == "" <==> IsSlashedBlank(TrimSpace(chosen[k]))
    {
      SanitizedBlank(chosen[k]);
    }
    if k :| 0 <= k < |chosen| && IsSlashedBlank(TrimSpace(chosen[k])) {
      assert SanitizeObjectPath(chosen[k]) in CleanPaths(chosen);
    }
  }

  // ---- What a run makes of a blank path ----------------------------------------------------

  /** The whole-bucket scan of a bucket yields a row. */
  ghost predicate YieldsRow(s: Scanner.S3Scanner, bucket: string) {
    var es := Scanner.BucketEntries(s, bucket);
    var rows := Scanner.CountedRows(es);
    |rows| > 0 || exists d :: d in Scanner.DirPaths(es) && Scanner.Survives(Scanner.DirRow(bucket, "", rows, d))
  }

  lemma ScanYields(s: Scanner.S3Scanner, bucket: string, metas: seq<ObjectMetadata>)
    requires Scanner.IsScan(bucket, "", Scanner.BucketEntries(s, bucket), metas)
    ensures metas != [] <==> YieldsRow(s, bucket)
    ensures forall m :: m in metas ==> m.bucket == bucket
  {
    hide Scanner.IsScan, Scanner.Survives, Scanner.DirRow, Scanner.CountedRows, Scanner.DirPaths;
    var es := Scanner.BucketEntries(s, bucket);
    ScanNamesBucket(bucket, Scanner.ListObjects(s, bucket, ""), metas);
    if metas == [] {
      NothingToFile(bucket, es);
    } else if |Scanner.CountedRows(es)| == 0 {
      RowsSurvive(bucket, es, metas, metas[0]);
    }
  }

  lemma {:induction false} ConcatMember(parts: seq<seq<ObjectMetadata>>, m: ObjectMetadata)
    ensures m in Scanner.Concat(parts) <==> exists k :: 0 <= k < |parts| && m in parts[k]
  {
    if parts != [] {
      ConcatMember(parts[..|parts| - 1], m);
    }
  }

  /** The buckets that an answer to a blank path names are the allowed buckets that yield a row. */
  lemma BucketsNamed(s: Scanner.S3Scanner, a: ScanAnswer, b: string)
    requires Scanner.IsAllBucketsAnswer(s, a) && a.Metas?
    ensures (exists m :: m in a.metas && m.bucket == b) <==> b in s.allowedBucket && YieldsRow(s, b)
  {
    hide Scanner.IsScan, YieldsRow, Scanner.HitsEmptyDir, Scanner.Concat, Scanner.BucketEntries;
    var order, parts :| Scanner.IsScanOfBuckets(s, order, parts) && (forall b :: b in order <==> b in s.allowedBucket)
                        && a.metas == Scanner.Concat(parts);
    forall k | 0 <= k < |order|
      ensures (parts[k] != [] <==> YieldsRow(s, order[k])) && forall m: ObjectMetadata :: m in parts[k] ==> m.bucket == order[k]
    {
      ScanYields(s, order[k], parts[k]);
    }
    if m: ObjectMetadata :| m in a.metas && m.bucket == b {
      ConcatMember(parts, m);
    }
    if b in s.allowedBucket && YieldsRow(s, b) {
      var k :| 0 <= k < |order| && order[k] == b;
      ConcatMember(parts, parts[k][0]);
    }
  }

  ghost predicate FiledUnder(x: Delivery, bucket: string) {
    x.dir != [] && x.dir[0] == bucket
  }

  /** Every row names the bucket that the first one names. */
  ghost predicate AllOwn(metas: seq<ObjectMetadata>) {
    forall m :: m in metas ==> m.bucket == metas[0].bucket
  }

  ghost predicate AtMostOneYields(s: Scanner.S3Scanner) {
    forall b, c :: b in s.allowedBucket && YieldsRow(s, b) && c in s.allowedBucket && YieldsRow(s, c) ==> b == c
  }

  /** Everything that a blank path brings is filed under the bucket of its first row; every row is then filed under its own
      bucket if and only if no two allowed buckets yield rows. */
  lemma BlankPathFiling(s: Scanner.S3Scanner, path: string, a: ScanAnswer)
    requires TrimSpace(path) == "" && Scanner.IsScanAnswer(s, path, a) && BatchOf(a) != []
    ensures BatchOf(a) == a.metas && BatchBucket(a.metas) == {a.metas[0].bucket}
    ensures forall x :: x in BatchLog(a.metas) ==> FiledUnder(x, a.metas[0].bucket)
    ensures AllOwn(a.metas) <==> AtMostOneYields(s)
  {
    hide Scanner.IsAllBucketsAnswer, YieldsRow, DeliveriesOf, TrimSpace, FiledUnder, AllOwn, AtMostOneYields;
    DeliveredUnder(a.metas[0].bucket, a.metas);
    OwnIfOneYields(s, a);
  }

  lemma OwnIfOneYields(s: Scanner.S3Scanner, a: ScanAnswer)
    requires Scanner.IsAllBucketsAnswer(s, a) && a.Metas? && a.metas != []
    ensures AllOwn(a.metas) <==> AtMostOneYields(s)
  {
    hide Scanner.IsAllBucketsAnswer, YieldsRow;
    forall b ensures (exists m :: m in a.metas && m.bucket == b) <==> b in s.allowedBucket && YieldsRow(s, b) {
      BucketsNamed(s, a, b);
    }
    assert a.metas[0] in a.metas;
    if AtMostOneYields(s) {
      forall m | m in a.metas ensures m.bucket == a.metas[0].bucket {
        BucketsNamed(s, a, m.bucket);
        BucketsNamed(s, a, a.metas[0].bucket);
      }
    }
  }

  lemma {:induction false} DeliveredUnder(bucket: string, metas: seq<ObjectMetadata>)
    ensures forall x :: x in DeliveriesOf(bucket, metas) ==> FiledUnder(x, bucket)
  {
    if metas != [] {
      DeliveredUnder(bucket, metas[..|metas| - 1]);
    }
  }
}

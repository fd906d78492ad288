/** Object keys: reserved segments, clean-up, and the path arithmetic shared by scanner and service. */
module ObjectKeys {
  import opened GoStrings

  const RESERVED_SEGMENTS: set<string> := {"__bucket__", ".minio.sys"}

  predicate IsReservedObjectSegment(segment: string) {
    segment in RESERVED_SEGMENTS
  }

  function ReservedIn(parts: seq<string>): set<string> {
    set p | p in parts && p != "" && IsReservedObjectSegment(TrimSpace(p))
  }

  predicate ContainsReservedObjectSegment(parts: seq<string>) {
    ReservedIn(parts) != {}
  }

  predicate HasReservedObjectSegment(path: string) {
    var clean := TrimSlashes(path);
    clean != "" && ContainsReservedObjectSegment(Split(clean))
  }

  function SanitizeObjectPath(path: string): string {
    TrimSlashes(TrimSpace(path))
  }

  /** `path.Base`. */
  function Base(path: string): string {
    if path == "" then "."
    else
      var p := TrimRight(path, Slashes);
      if p == "" then "/" else Split(p)[|Split(p)| - 1]
  }

  // ---- Trimming slashes -----------------------------------------------------

  /** Leading and trailing slashes only add empty segments, so they never change which segments are reserved. */
  lemma {:induction false} TrimLeftReserved(s: string)
    ensures ContainsReservedObjectSegment(Split(s)) <==> ContainsReservedObjectSegment(Split(TrimLeft(s, Slashes)))
  {
    if s != "" && Cuts(Slashes, s[0]) {
      TrimLeftReserved(s[1..]);
      var rest := Split(s[1..]);
      assert Split(s) == [""] + rest;
      ReservedConcat([""], rest);
    }
  }

  lemma {:induction false} TrimRightReserved(s: string)
    ensures ContainsReservedObjectSegment(Split(s)) <==> ContainsReservedObjectSegment(Split(TrimRight(s, Slashes)))
  {
    if s != "" && Cuts(Slashes, s[|s| - 1]) {
      var front := s[..|s| - 1];
      TrimRightReserved(front);
      assert s == front + "/" + "";
      SplitConcat(front, "");
      ReservedConcat(Split(front), Split(""));
    }
  }

  lemma ReservedConcat(a: seq<string>, b: seq<string>)
    ensures ContainsReservedObjectSegment(a + b) <==> ContainsReservedObjectSegment(a) || ContainsReservedObjectSegment(b)
  {
    assert forall p :: p in a + b <==> p in a || p in b;
  }

  /** The reserved test is a test on the segments of the untrimmed path. */
  lemma ReservedBySegments(path: string)
    ensures HasReservedObjectSegment(path) <==> ContainsReservedObjectSegment(Split(path))
  {
    assert ReservedIn([""]) == {};
    TrimLeftReserved(path);
    TrimRightReserved(TrimLeft(path, Slashes));
  }

  lemma Unreserved(x: string)
    requires SlashFree(x) && TrimSpace(x) != "__bucket__" && TrimSpace(x) != ".minio.sys"
    ensures !ContainsReservedObjectSegment([x]) && !HasReservedObjectSegment(x)
  {
    hide TrimSpace;
    SplitSlashFree(x);
    ReservedBySegments(x);
  }

  lemma ReservedJoin(a: string, b: string)
    ensures HasReservedObjectSegment(a + "/" + b) <==> HasReservedObjectSegment(a) || HasReservedObjectSegment(b)
  {
    ReservedBySegments(a);
    ReservedBySegments(b);
    ReservedBySegments(a + "/" + b);
    SplitConcat(a, b);
    ReservedConcat(Split(a), Split(b));
  }

  lemma TrimSuffixNotReserved(path: string)
    requires !HasReservedObjectSegment(path)
    ensures !HasReservedObjectSegment(TrimSuffix(path, "/"))
  {
    if HasSuffix(path, "/") {
      assert path == TrimSuffix(path, "/") + "/" + "";
      ReservedJoin(TrimSuffix(path, "/"), "");
    }
  }

  lemma TrimSlashesNotReserved(path: string)
    requires !HasReservedObjectSegment(path)
    ensures !HasReservedObjectSegment(TrimSlashes(path))
  {
    ReservedBySegments(path);
    ReservedBySegments(TrimSlashes(path));
    TrimLeftReserved(path);
    TrimRightReserved(TrimLeft(path, Slashes));
  }

  // ---- Clean segment lists --------------------------------------------------

  /** A segment that no clean-up step changes. */
  predicate CleanSegment(s: string) {
    s != "" && SlashFree(s) && TrimSpace(s) == s
  }

  predicate CleanSegments(parts: seq<string>) {
    forall i :: 0 <= i < |parts| ==> CleanSegment(parts[i])
  }

  lemma {:induction false} JoinEnds(parts: seq<string>)
    requires |parts| >= 1 && forall i :: 0 <= i < |parts| ==> |parts[i]| > 0
    ensures Join(parts) != ""
    ensures Join(parts)[0] == parts[0][0]
    ensures Join(parts)[|Join(parts)| - 1] == parts[|parts| - 1][|parts[|parts| - 1]| - 1]
  {
    if |parts| > 1 {
      JoinEnds(parts[1..]);
    }
  }

  /** A path of non-empty segments carries no slash at either end. */
  lemma JoinTrimmed(parts: seq<string>)
    requires |parts| >= 1 && AllSlashFree(parts) && forall i :: 0 <= i < |parts| ==> |parts[i]| > 0
    ensures TrimSlashes(Join(parts)) == Join(parts) != ""
  {
    JoinEnds(parts);
    var last := parts[|parts| - 1];
    assert parts[0][0] in parts[0] && last[|last| - 1] in last;
    TrimIdentity(Join(parts), Slashes);
  }

  /** A path of clean segments survives sanitising. */
  lemma SanitizeClean(parts: seq<string>)
    requires |parts| >= 1 && CleanSegments(parts)
    ensures SanitizeObjectPath(Join(parts)) == Join(parts) != ""
  {
    JoinTrimmed(parts);
    JoinEnds(parts);
    var last := parts[|parts| - 1];
    assert CleanSegment(parts[0]) && CleanSegment(last);
    TrimSpaceIdentity(parts[0]);
    TrimSpaceIdentity(last);
    TrimSpaceIdentity(Join(parts));
  }
}

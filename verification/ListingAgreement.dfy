/** The cached explorer tree agrees with the live listing: after a whole-bucket scan the level of a directory in the
    rebuilt tree and `ListNodes` of its path show the same names, kinds and sizes. */
module ListingAgreement {
  import opened GoStrings
  import opened ObjectKeys
  import opened Sequences
  import opened ObjectStorageScanner
  import opened LiveListing
  import opened BucketScans
  import opened BucketRoundTrip

  // ---- Directories as prefixes ------------------------------------------------------

  /** The prefix under which directory q of a bucket is listed. */
  function CleanOf(q: seq<string>): string {
    if q == [] then "" else Join(q) + "/"
  }

  /** A key's segments as a split sees them: a marker has an empty last one. */
  function FullSegments(key: string): seq<string> {
    if IsDirKey(key) then KeySegments(key) + [""] else KeySegments(key)
  }

  lemma FullFacts(key: string)
    requires WellFormedKey(key)
    ensures AllSlashFree(FullSegments(key)) && |FullSegments(key)| >= 1 && key == Join(FullSegments(key))
  {
    hide Join, Split, KeySegments;
    KeyFacts(key);
    KeySegmentsClean(key);
    JoinSnoc(KeySegments(key), "");
    var full := FullSegments(key);
    forall i | 0 <= i < |full| ensures SlashFree(full[i]) {
      assert i < |KeySegments(key)| ==> full[i] == KeySegments(key)[i];
    }
    assert Join(KeySegments(key)) + "/" + "" == Join(KeySegments(key)) + "/";
  }

  lemma UnderPrefix(key: string, q: seq<string>)
    requires WellFormedKey(key) && CleanSegments(q)
    ensures HasPrefix(key, CleanOf(q)) <==> ProperPrefix(q, FullSegments(key))
  {
    hide Join, KeySegments;
    FullFacts(key);
    CleanParts(q);
    if q != [] {
      JoinPrefix(q, FullSegments(key));
    }
  }

  /** What is left of a key below a directory. */
  lemma RelativeSegments(key: string, q: seq<string>)
    requires WellFormedKey(key) && CleanSegments(q) && ProperPrefix(q, FullSegments(key))
    ensures Relative(key, CleanOf(q)) == Join(FullSegments(key)[|q|..])
  {
    hide Join, KeySegments, Split;
    var full := FullSegments(key);
    var rest := full[|q|..];
    FullFacts(key);
    UnderPrefix(key, q);
    assert full == q + rest;
    if q != [] {
      JoinConcat(q, rest);
      assert key == CleanOf(q) + Join(rest);
      assert TrimPrefix(key, CleanOf(q)) == Join(rest);
    } else {
      assert rest == full;
    }
    RestStart(key, q);
  }

  lemma RestStart(key: string, q: seq<string>)
    requires WellFormedKey(key) && q <= FullSegments(key) && |q| < |FullSegments(key)|
    ensures TrimPrefix(Join(FullSegments(key)[|q|..]), "/") == Join(FullSegments(key)[|q|..])
  {
    var rest := FullSegments(key)[|q|..];
    KeySegmentsClean(key);
    if |q| < |KeySegments(key)| {
      assert rest[0] == KeySegments(key)[|q|];
      assert CleanSegment(rest[0]);
      assert rest[0][0] in rest[0];
      assert |Join(rest)| > 0 && Join(rest)[0] == rest[0][0];
    } else {
      assert rest == [""];
    }
  }

  lemma RestSplits(key: string, q: seq<string>)
    requires WellFormedKey(key) && ProperPrefix(q, FullSegments(key))
    ensures Split(Join(FullSegments(key)[|q|..])) == FullSegments(key)[|q|..]
    ensures Join(FullSegments(key)[|q|..]) == "" <==> IsDirKey(key) && q == KeySegments(key)
  {
    hide Join, Split, KeySegments, WellFormedKey;
    var rest := FullSegments(key)[|q|..];
    FullFacts(key);
    SplitJoin(rest);
    EmptyRest(key, q);
  }

  lemma EmptyRest(key: string, q: seq<string>)
    requires WellFormedKey(key) && ProperPrefix(q, FullSegments(key))
    ensures Join(FullSegments(key)[|q|..]) == "" <==> IsDirKey(key) && q == KeySegments(key)
  {
    var rest := FullSegments(key)[|q|..];
    KeySegmentsClean(key);
    if |q| < |KeySegments(key)| {
      assert rest[0] == KeySegments(key)[|q|];
      assert CleanSegment(rest[0]);
      assert |Join(rest)| > 0;
    } else {
      assert rest == [""] && q == KeySegments(key);
    }
  }

  /** Below an unreserved directory a key is reserved exactly if what is left of it is. */
  lemma RestReserved(key: string, q: seq<string>)
    requires WellFormedKey(key) && CleanSegments(q) && ProperPrefix(q, FullSegments(key)) && !ContainsReservedObjectSegment(q)
    ensures ContainsReservedObjectSegment(FullSegments(key)[|q|..]) <==> HasReservedObjectSegment(key)
  {
    hide Join, Split, KeySegments, WellFormedKey, ContainsReservedObjectSegment;
    var full := FullSegments(key);
    FullFacts(key);
    SplitJoin(full);
    ReservedBySegments(key);
    assert full == q + full[|q|..];
    ReservedConcat(q, full[|q|..]);
  }

  /** What a live listing of directory q makes of a key. */
  lemma SeeKey(key: string, q: seq<string>)
    requires WellFormedKey(key) && CleanSegments(q) && !ContainsReservedObjectSegment(q)
    requires ProperPrefix(q, FullSegments(key))
    ensures See(key, CleanOf(q))
            == if HasReservedObjectSegment(key) || q == KeySegments(key) then Ignored
               else if |FullSegments(key)| > |q| + 1 then InDir(FullSegments(key)[|q|]) else Leaf(FullSegments(key)[|q|])
  {
    hide Join, Split, KeySegments, WellFormedKey, ContainsReservedObjectSegment, Relative, CleanOf, HasReservedObjectSegment;
    RelativeSegments(key, q);
    RestSplits(key, q);
    RestReserved(key, q);
    MarkerSegments(key, q);
  }

  lemma MarkerSegments(key: string, q: seq<string>)
    requires WellFormedKey(key) && ProperPrefix(q, FullSegments(key))
    ensures q == KeySegments(key) ==> IsDirKey(key)
    ensures IsDirKey(key) && q != KeySegments(key) ==> |FullSegments(key)| > |q| + 1
  {
    var full := FullSegments(key);
    if IsDirKey(key) && |q| == |full| - 1 {
      assert q == full[..|q|] == KeySegments(key);
    }
  }

  /** A key shows up as sub-directory x of q exactly if it spells q + [x]. */
  lemma SeenDir(o: S3Object, q: seq<string>, x: string)
    requires WellFormedKey(o.key) && CleanSegments(q) && !ContainsReservedObjectSegment(q)
    ensures HasPrefix(o.key, CleanOf(q)) && See(o.key, CleanOf(q)) == InDir(x) <==> SpelledBy(o, q + [x])
  {
    hide Join, Split, KeySegments, WellFormedKey, ContainsReservedObjectSegment, CleanOf, HasReservedObjectSegment, See, CleanSegments;
    UnderPrefix(o.key, q);
    if ProperPrefix(q, FullSegments(o.key)) {
      SeeKey(o.key, q);
      SpelledNext(o.key, q, x);
    } else if SpelledBy(o, q + [x]) {
      SpelledNext(o.key, q, x);
      assert false;
    }
  }

  lemma SpelledNext(key: string, q: seq<string>, x: string)
    requires WellFormedKey(key)
    ensures q + [x] <= DirSegments(key) <==>
              ProperPrefix(q, FullSegments(key)) && q != KeySegments(key) && |FullSegments(key)| > |q| + 1 && FullSegments(key)[|q|] == x
  {
    var full, p := FullSegments(key), KeySegments(key);
    assert DirSegments(key) == full[..|full| - 1];
    if q + [x] <= DirSegments(key) {
      assert (q + [x])[|q|] == DirSegments(key)[|q|] == full[|q|];
      assert q == (q + [x])[..|q|] == full[..|q|];
    }
    if ProperPrefix(q, full) && |full| > |q| + 1 && full[|q|] == x {
      assert full[..|q| + 1] == q + [x];
    }
  }

  /** A key shows up as object x of q exactly if it is a counted object whose segments are q + [x]. */
  lemma SeenLeaf(o: S3Object, q: seq<string>, x: string)
    requires WellFormedKey(o.key) && CleanSegments(q) && !ContainsReservedObjectSegment(q)
    ensures HasPrefix(o.key, CleanOf(q)) && See(o.key, CleanOf(q)) == Leaf(x) <==> IsObjectKey(o.key) && KeySegments(o.key) == q + [x]
  {
    hide Join, Split, KeySegments, WellFormedKey, ContainsReservedObjectSegment, CleanOf, HasReservedObjectSegment, See, CleanSegments;
    UnderPrefix(o.key, q);
    MarkerIsLonger(o.key);
    ObjectPrefix(o.key, q, x);
    if ProperPrefix(q, FullSegments(o.key)) {
      SeeKey(o.key, q);
      MarkerSegments(o.key, q);
      var full := FullSegments(o.key);
      if |full| == |q| + 1 {
        assert full == q + [full[|q|]];
      }
    }
  }

  lemma ObjectPrefix(key: string, q: seq<string>, x: string)
    ensures !IsDirKey(key) && KeySegments(key) == q + [x] ==> ProperPrefix(q, FullSegments(key))
  {
  }

  lemma MarkerIsLonger(key: string)
    ensures |FullSegments(key)| == |KeySegments(key)| + (if IsDirKey(key) then 1 else 0)
  {
  }

  // ---- A directory's listing -----------------------------------------------------------

  lemma {:induction false} WithPrefixMember(objects: seq<S3Object>, prefix: string, o: S3Object)
    ensures o in WithPrefix(objects, prefix) <==> o in objects && HasPrefix(o.key, prefix)
  {
    hide HasPrefix;
    if objects != [] {
      WithPrefixMember(objects[..|objects| - 1], prefix, o);
      assert objects == objects[..|objects| - 1] + [objects[|objects| - 1]];
    }
  }

  lemma {:induction false} SubDirsMember(listed: seq<S3Object>, clean: string, x: string)
    ensures x in SubDirs(listed, clean) <==> exists o :: o in listed && See(o.key, clean) == InDir(x)
  {
    hide See;
    if listed != [] {
      SubDirsMember(listed[..|listed| - 1], clean, x);
      assert listed == listed[..|listed| - 1] + [listed[|listed| - 1]];
    }
  }

  lemma {:induction false} LeavesMember(bucket: string, listed: seq<S3Object>, clean: string, n: ObjectNode)
    ensures n in Leaves(bucket, listed, clean) <==>
              exists o :: o in listed && See(o.key, clean) == Leaf(n.name) && n == LeafNode(bucket, clean, n.name, o.size)
  {
    hide See, JoinPath;
    if listed != [] {
      LeavesMember(bucket, listed[..|listed| - 1], clean, n);
      assert listed == listed[..|listed| - 1] + [listed[|listed| - 1]];
    }
  }

  lemma {:induction false} FilterMember(nodes: seq<ObjectNode>, n: ObjectNode)
    ensures n in FilterReservedNodes(nodes) <==> n in nodes && Shown(n)
  {
    hide Shown;
    if nodes != [] {
      FilterMember(nodes[..|nodes| - 1], n);
      assert nodes == nodes[..|nodes| - 1] + [nodes[|nodes| - 1]];
    }
  }

  /** Membership in a listing. */
  lemma ListingMember(bucket: string, clean: string, listed: seq<S3Object>, nodes: seq<ObjectNode>, n: ObjectNode)
    requires IsListing(bucket, clean, listed, nodes)
    ensures n in nodes <==>
              && Shown(n)
              && ((n.name in SubDirs(listed, clean) && n == DirNode(bucket, clean, n.name)) || n in Leaves(bucket, listed, clean))
  {
    hide Shown, SubDirs, Leaves, FilterReservedNodes, DirNode;
    var dirs :| ListsDirs(bucket, clean, listed, dirs)
                && multiset(nodes) == multiset(FilterReservedNodes(dirs + Leaves(bucket, listed, clean)));
    FilterMember(dirs + Leaves(bucket, listed, clean), n);
    PermutationMembers(nodes, FilterReservedNodes(dirs + Leaves(bucket, listed, clean)), n);
  }

  lemma PathOfNode(bucket: string, q: seq<string>, x: string)
    requires CleanSegment(bucket) && CleanSegments(q) && CleanSegment(x)
    ensures JoinPath(bucket, CleanOf(q), x) == Join([bucket] + q + [x])
  {
    hide CleanSegment;
    assert ([bucket] + q + [x])[0] == bucket;
    assert ([bucket] + q + [x])[1..] == q + [x];
    if q != [] {
      NoLeadingSlash(q);
      assert TrimSuffix(CleanOf(q), "/") == Join(q);
      JoinSnoc(q, x);
    } else {
      assert q + [x] == [x];
    }
  }

  lemma NoLeadingSlash(q: seq<string>)
    requires q != [] && CleanSegments(q)
    ensures TrimPrefix(CleanOf(q), "/") == CleanOf(q) && Join(q) != ""
  {
    CleanParts(q);
    JoinEnds(q);
    assert CleanSegment(q[0]);
    assert q[0][0] in q[0];
  }

  lemma NotReservedSegments(q: seq<string>)
    requires CleanSegments(q) && |q| >= 1
    ensures HasReservedObjectSegment(Join(q)) <==> ContainsReservedObjectSegment(q)
  {
    CleanParts(q);
    SplitJoin(q);
    ReservedBySegments(Join(q));
  }

  lemma BucketNotReserved(bucket: string)
    requires WellFormedBucket(bucket)
    ensures !ContainsReservedObjectSegment([bucket])
  {
  }

  /** Nothing below an unreserved directory is filtered out of its listing. */
  lemma AllShown(bucket: string, q: seq<string>, x: string, kind: NodeType, size: int)
    requires WellFormedBucket(bucket) && CleanSegments(q + [x]) && !ContainsReservedObjectSegment(q + [x])
    ensures Shown(ObjectNode(x, JoinPath(bucket, CleanOf(q), x), kind, size))
  {
    hide CleanSegment, JoinPath, CleanOf, Join;
    assert (q + [x])[|q|] == x && x in q + [x];
    assert CleanSegment(x);
    CleanPrefixSegments(q + [x], q);
    PathOfNode(bucket, q, x);
    assert [bucket] + q + [x] == [bucket] + (q + [x]);
    BucketPath(bucket, q + [x]);
    NotReservedSegments([bucket] + (q + [x]));
    BucketNotReserved(bucket);
    ReservedConcat([bucket], q + [x]);
    ShownName(q + [x], x);
  }

  lemma ShownName(p: seq<string>, x: string)
    requires x in p && CleanSegment(x) && !ContainsReservedObjectSegment(p)
    ensures x != "" && !IsReservedObjectSegment(x)
  {
    hide IsReservedObjectSegment;
    assert x in ReservedIn(p) <==> IsReservedObjectSegment(TrimSpace(x));
  }

  lemma SpelledClean(o: S3Object, q: seq<string>)
    requires WellFormedKey(o.key) && SpelledBy(o, q)
    ensures CleanSegments(q) && !ContainsReservedObjectSegment(q)
  {
    CleanPrefixSegments(KeySegments(o.key), q);
    UnreservedPrefix(o.key, q);
  }

  lemma UnreservedPrefix(key: string, q: seq<string>)
    requires WellFormedKey(key) && !HasReservedObjectSegment(key) && q <= KeySegments(key)
    ensures !ContainsReservedObjectSegment(q)
  {
    hide Join, Split, KeySegments, WellFormedKey, ContainsReservedObjectSegment;
    var full := FullSegments(key);
    FullFacts(key);
    SplitJoin(full);
    ReservedBySegments(key);
    assert full == q + full[|q|..];
    ReservedConcat(q, full[|q|..]);
  }

  /** The sub-directories that a live listing of q shows are those that some unreserved key spells. */
  lemma ListedDirs(bucket: string, listed: seq<S3Object>, q: seq<string>, nodes: seq<ObjectNode>, x: string)
    requires WellFormedBucket(bucket) && WellFormedListing(listed) && CleanSegments(q) && !ContainsReservedObjectSegment(q)
    requires IsListing(bucket, CleanOf(q), WithPrefix(listed, CleanOf(q)), nodes)
    ensures (exists n :: n in nodes && n.kind.PrefixEntry? && n.name == x) <==> Spelled(listed, q + [x])
  {
    hide IsListing, SubDirs, Leaves, WithPrefix, CleanOf, CleanSegments, WellFormedBucket, WellFormedKey, See, Shown, JoinPath, SpelledBy,
      ContainsReservedObjectSegment, HasPrefix;
    var under := WithPrefix(listed, CleanOf(q));
    if exists n :: n in nodes && n.kind.PrefixEntry? && n.name == x {
      var n :| n in nodes && n.kind.PrefixEntry? && n.name == x;
      ListingMember(bucket, CleanOf(q), under, nodes, n);
      LeavesMember(bucket, under, CleanOf(q), n);
      SubDirsMember(under, CleanOf(q), x);
      var o :| o in under && See(o.key, CleanOf(q)) == InDir(x);
      WithPrefixMember(listed, CleanOf(q), o);
      SeenDir(o, q, x);
    }
    if Spelled(listed, q + [x]) {
      var o :| o in listed && SpelledBy(o, q + [x]);
      SeenDir(o, q, x);
      WithPrefixMember(listed, CleanOf(q), o);
      SubDirsMember(under, CleanOf(q), x);
      SpelledClean(o, q + [x]);
      AllShown(bucket, q, x, PrefixEntry, 0);
      ListingMember(bucket, CleanOf(q), under, nodes, DirNode(bucket, CleanOf(q), x));
    }
  }

  /** A live listing of a directory in a reserved one shows nothing. */
  lemma ReservedDirectoryIsEmpty(bucket: string, listed: seq<S3Object>, q: seq<string>, nodes: seq<ObjectNode>)
    requires CleanSegments(q) && ContainsReservedObjectSegment(q) && IsListing(bucket, CleanOf(q), listed, nodes)
    ensures nodes == []
  {
    hide IsListing, SubDirs, Leaves, See, JoinPath, HasReservedObjectSegment, ContainsReservedObjectSegment, CleanOf, Join;
    if nodes != [] {
      var n := nodes[0];
      ListingMember(bucket, CleanOf(q), listed, nodes, n);
      LeavesMember(bucket, listed, CleanOf(q), n);
      PathReserved(bucket, q, n.name);
    }
  }

  lemma PathReserved(bucket: string, q: seq<string>, name: string)
    requires CleanSegments(q) && ContainsReservedObjectSegment(q)
    ensures HasReservedObjectSegment(JoinPath(bucket, CleanOf(q), name))
  {
    hide HasReservedObjectSegment, ContainsReservedObjectSegment, CleanSegment;
    NothingReservedInNothing();
    NoLeadingSlash(q);
    NotReservedSegments(q);
    assert TrimSuffix(CleanOf(q), "/") == Join(q);
    ReservedJoin(bucket, Join(q));
    ReservedJoin(bucket + "/" + Join(q), name);
  }

  lemma NothingReservedInNothing()
    ensures !ContainsReservedObjectSegment([])
  {
  }

  lemma ObjectClean(o: S3Object, p: seq<string>)
    requires WellFormedKey(o.key) && IsObjectKey(o.key) && KeySegments(o.key) == p
    ensures CleanSegments(p) && !ContainsReservedObjectSegment(p)
  {
    UnreservedPrefix(o.key, p);
  }

  /** The objects it shows are the counted objects that sit in q, with their sizes. */
  lemma ListedObjects(bucket: string, listed: seq<S3Object>, q: seq<string>, nodes: seq<ObjectNode>, x: string, size: int)
    requires WellFormedBucket(bucket) && WellFormedListing(listed) && CleanSegments(q) && !ContainsReservedObjectSegment(q)
    requires IsListing(bucket, CleanOf(q), WithPrefix(listed, CleanOf(q)), nodes)
    ensures (exists n :: n in nodes && n.kind.LeafEntry? && n.name == x && n.sizeBytes == size) <==>
              exists o :: o in CountedObjects(listed) && KeySegments(o.key) == q + [x] && o.size == size
  {
    hide IsListing, SubDirs, Leaves, WithPrefix, CleanOf, CleanSegments, WellFormedBucket, WellFormedKey, See, Shown, JoinPath, KeySegments,
      ContainsReservedObjectSegment, HasPrefix, IsObjectKey;
    var under := WithPrefix(listed, CleanOf(q));
    if exists n :: n in nodes && n.kind.LeafEntry? && n.name == x && n.sizeBytes == size {
      var n :| n in nodes && n.kind.LeafEntry? && n.name == x && n.sizeBytes == size;
      ListingMember(bucket, CleanOf(q), under, nodes, n);
      LeavesMember(bucket, under, CleanOf(q), n);
      var o :| o in under && See(o.key, CleanOf(q)) == Leaf(x) && n == LeafNode(bucket, CleanOf(q), x, o.size);
      WithPrefixMember(listed, CleanOf(q), o);
      SeenLeaf(o, q, x);
      CountedObjectsMember(listed, o);
    }
    if exists o :: o in CountedObjects(listed) && KeySegments(o.key) == q + [x] && o.size == size {
      var o :| o in CountedObjects(listed) && KeySegments(o.key) == q + [x] && o.size == size;
      CountedObjectsMember(listed, o);
      SeenLeaf(o, q, x);
      WithPrefixMember(listed, CleanOf(q), o);
      var n := LeafNode(bucket, CleanOf(q), x, size);
      LeavesMember(bucket, under, CleanOf(q), n);
      ObjectClean(o, q + [x]);
      AllShown(bucket, q, x, LeafEntry, size);
      ListingMember(bucket, CleanOf(q), under, nodes, n);
    }
  }
}

/** From the nodes of a live listing back to their buckets and inner paths. */
module ListedPaths {
  import opened GoStrings
  import opened ObjectKeys
  import opened BucketRoundTrip
  import opened BucketScans
  import opened WholeBucketRun
  import opened ScannerPaths
  import Agreement = ListingAgreement
  import Live = LiveListing
  import Scanner = ObjectStorageScanner

  // ---- Where a node comes from ------------------------------------------------------------

  /** The bucket that `ListNodes` reads from a path, and the prefix that it lists there. */
  function BucketAt(path: string): string {
    Scanner.SplitPath(TrimSpace(path)).0
  }

  function PrefixAt(path: string): string {
    var prefix := Scanner.SplitPath(TrimSpace(path)).1;
    if prefix != "" && !HasSuffix(prefix, "/") then prefix + "/" else prefix
  }

  /** Node n shows the object itself. */
  ghost predicate IsLeafOf(bucket: string, clean: string, o: Scanner.S3Object, n: Live.ObjectNode) {
    HasPrefix(o.key, clean) && Live.See(o.key, clean) == Live.Leaf(n.name) && n == Live.LeafNode(bucket, clean, n.name, o.size)
  }

  /** Node n shows a sub-directory that the object's key makes known. */
  ghost predicate IsDirOf(bucket: string, clean: string, o: Scanner.S3Object, n: Live.ObjectNode) {
    HasPrefix(o.key, clean) && Live.See(o.key, clean) == Live.InDir(n.name) && n == Live.DirNode(bucket, clean, n.name)
  }

  /** Every node of an answer shows a listed object or a sub-directory above one. */
  lemma NodeOrigin(s: Scanner.S3Scanner, path: string, r: Live.ListAnswer, n: Live.ObjectNode) returns (o: Scanner.S3Object)
    requires Live.IsNodesAnswer(s, path, r) && r.Listed? && n in r.nodes
    ensures o in Scanner.BucketContents(s, BucketAt(path)) && n.name != ""
    ensures if n.kind.LeafEntry? then IsLeafOf(BucketAt(path), PrefixAt(path), o, n) else IsDirOf(BucketAt(path), PrefixAt(path), o, n)
  {
    hide Scanner.JoinPath, Live.IsListing, Live.See, Live.SubDirs, Live.Leaves, Scanner.SplitPath, TrimSpace, HasSuffix, HasPrefix;
    var bucket, clean := BucketAt(path), PrefixAt(path);
    var under := Scanner.ListObjects(s, bucket, clean);
    Agreement.ListingMember(bucket, clean, under, r.nodes, n);
    Agreement.SubDirsMember(under, clean, n.name);
    Agreement.LeavesMember(bucket, under, clean, n);
    if n.name in Live.SubDirs(under, clean) && n == Live.DirNode(bucket, clean, n.name) {
      o :| o in under && Live.See(o.key, clean) == Live.InDir(n.name);
    } else {
      o :| o in under && Live.See(o.key, clean) == Live.Leaf(n.name) && n == Live.LeafNode(bucket, clean, n.name, o.size);
    }
    Agreement.WithPrefixMember(Scanner.BucketContents(s, bucket), clean, o);
  }

  lemma PrefixEnds(path: string)
    ensures PrefixAt(path) == "" || HasSuffix(PrefixAt(path), "/")
    ensures SlashFree(BucketAt(path))
  {
    hide Trim, TrimPrefix, TrimSuffix;
  }

  /** A shown name is slash-free, and follows the prefix in the key, at once or behind one more slash; below a sub-directory a
      slash follows it. */
  lemma NameInKey(key: string, clean: string, seen: Live.Seen)
    requires HasPrefix(key, clean) && Live.See(key, clean) == seen && !seen.Ignored?
    ensures SlashFree(seen.name)
    ensures seen.Leaf? ==> key == clean + seen.name || key == clean + "/" + seen.name
    ensures seen.InDir? ==> HasPrefix(key, clean + seen.name + "/") || HasPrefix(key, clean + "/" + seen.name + "/")
  {
    hide Split, ContainsReservedObjectSegment;
    var rel := Scanner.Relative(key, clean);
    var parts := Split(rel);
    JoinSplit(rel);
    KeyAround(key, clean);
    if seen.InDir? {
      MoreParts(rel);
      if |parts| == 1 {
        MarkerTail(key, clean);
      }
    }
  }

  /** The key is the prefix and the relative key, with or without a slash in between. */
  lemma KeyAround(key: string, clean: string)
    requires HasPrefix(key, clean)
    ensures key == clean + Scanner.Relative(key, clean) || key == clean + "/" + Scanner.Relative(key, clean)
  {
    var rest := key[|clean|..];
    assert key == clean + rest;
    if HasPrefix(rest, "/") {
      assert rest == "/" + rest[1..];
      assert clean + ("/" + rest[1..]) == clean + "/" + rest[1..];
    }
  }

  /** Before its first slash a path has its first segment. */
  lemma MoreParts(rel: string)
    ensures |Split(rel)| > 1 ==> HasPrefix(rel, Split(rel)[0] + "/")
  {
    hide Split;
    JoinSplit(rel);
  }

  lemma MarkerTail(key: string, clean: string)
    requires HasPrefix(key, clean) && HasSuffix(key, "/") && Scanner.Relative(key, clean) != ""
    ensures |Split(Scanner.Relative(key, clean))| > 1
  {
    var rel := Scanner.Relative(key, clean);
    assert rel[|rel| - 1] == key[|key| - 1];
    var front := rel[..|rel| - 1];
    assert rel == front + "/" + "";
    SplitConcat(front, "");
  }

  // ---- The way back ---------------------------------------------------------------------------

  /** Whatever the keys look like, the path of a shown object leads back to the object's own key if and only if no space was
      trimmed from either end of it and the key has neither a leading slash nor a doubled one before the name. */
  lemma LeafLeadsBack(s: Scanner.S3Scanner, path: string, r: Live.ListAnswer, n: Live.ObjectNode, o: Scanner.S3Object)
    requires Live.IsNodesAnswer(s, path, r) && r.Listed? && n in r.nodes && n.kind.LeafEntry? && BucketAt(path) != ""
    requires o in Scanner.BucketContents(s, BucketAt(path)) && IsLeafOf(BucketAt(path), PrefixAt(path), o, n)
    ensures n.name != "" && n.sizeBytes == o.size
    ensures Scanner.SplitPath(n.path) == (BucketAt(path), o.key) <==>
              && BucketAt(path)[0] != ' ' && n.name[|n.name| - 1] != ' '
              && !HasPrefix(o.key, "/") && !HasPrefix(o.key, PrefixAt(path) + "/")
  {
    hide Scanner.JoinPath, Live.IsListing, Live.See, Scanner.SplitPath, TrimSpace, InnerPath, BucketAt, PrefixAt, HasPrefix, HasSuffix;
    var bucket, clean := BucketAt(path), PrefixAt(path);
    PrefixEnds(path);
    var _ := NodeOrigin(s, path, r, n);
    NameInKey(o.key, clean, Live.Leaf(n.name));
    PathLeadsTo(bucket, clean, n.name, o.key);
    OwnKey(clean, n.name, o.key);
  }

  /** Where the path that joins a listing prefix and a name leads. */
  lemma PathLeadsTo(bucket: string, clean: string, name: string, target: string)
    requires bucket != "" && SlashFree(bucket) && name != "" && SlashFree(name) && (clean == "" || HasSuffix(clean, "/"))
    requires |target| >= |clean + name|
    ensures Scanner.SplitPath(Scanner.JoinPath(bucket, clean, name)) == (bucket, target) <==>
              bucket[0] != ' ' && name[|name| - 1] != ' ' && target == InnerPath(clean, name)
  {
    hide Scanner.JoinPath, Scanner.SplitPath, InnerPath, HasSuffix;
    JoinedPath(bucket, clean, name);
    InnerOfListing(clean, name);
    SplitsInto(bucket, InnerPath(clean, name), target);
    assert name[|name| - 1] in name;
  }

  /** The joined inner path is the key exactly if no slash was dropped from the key. */
  lemma OwnKey(clean: string, name: string, key: string)
    requires name != "" && SlashFree(name) && (clean == "" || HasSuffix(clean, "/"))
    requires key == clean + name || key == clean + "/" + name
    ensures |key| >= |clean + name|
    ensures key == InnerPath(clean, name) <==> !HasPrefix(key, "/") && !HasPrefix(key, clean + "/")
  {
    hide InnerPath;
    InnerOfListing(clean, name);
    assert name[0] in name;
    if key == clean + name {
      assert key[|clean|] == name[0];
      assert clean == "" ==> key == name;
    } else {
      assert HasPrefix(key, clean + "/");
    }
  }

  /** The path of a shown sub-directory leads to the directory of its name if and only if no space was trimmed and the listed
      prefix has no leading slash; the key it was made known by lies in that directory unless it has a doubled slash there. */
  lemma DirLeadsBack(s: Scanner.S3Scanner, path: string, r: Live.ListAnswer, n: Live.ObjectNode, o: Scanner.S3Object)
    requires Live.IsNodesAnswer(s, path, r) && r.Listed? && n in r.nodes && n.kind.PrefixEntry? && BucketAt(path) != ""
    requires o in Scanner.BucketContents(s, BucketAt(path)) && IsDirOf(BucketAt(path), PrefixAt(path), o, n)
    ensures n.name != ""
    ensures Scanner.SplitPath(n.path) == (BucketAt(path), PrefixAt(path) + n.name) <==>
              BucketAt(path)[0] != ' ' && n.name[|n.name| - 1] != ' ' && !HasPrefix(PrefixAt(path), "/")
    ensures HasPrefix(o.key, PrefixAt(path) + n.name + "/") <==> !HasPrefix(o.key, PrefixAt(path) + "/")
  {
    hide Scanner.JoinPath, Live.IsListing, Live.See, Scanner.SplitPath, TrimSpace, InnerPath, BucketAt, PrefixAt, HasPrefix, HasSuffix;
    var bucket, clean := BucketAt(path), PrefixAt(path);
    PrefixEnds(path);
    var _ := NodeOrigin(s, path, r, n);
    NameInKey(o.key, clean, Live.InDir(n.name));
    PathLeadsTo(bucket, clean, n.name, clean + n.name);
    InnerOfListing(clean, n.name);
    NotBoth(o.key, clean, n.name);
  }

  lemma NotBoth(key: string, clean: string, name: string)
    requires name != "" && SlashFree(name)
    ensures HasPrefix(key, clean + name + "/") ==> !HasPrefix(key, clean + "/")
    ensures HasPrefix(key, clean + "/" + name + "/") ==> HasPrefix(key, clean + "/")
  {
    assert name[0] in name;
    if HasPrefix(key, clean + name + "/") {
      assert key[|clean|] == (clean + name + "/")[|clean|] == name[0];
    }
    if HasPrefix(key, clean + "/" + name + "/") {
      assert (clean + "/" + name + "/")[..|clean| + 1] == clean + "/";
    }
  }

  /** For every node the split undoes the join if and only if no space was trimmed, wherever the joined path leads. */
  lemma ListedPathSplits(s: Scanner.S3Scanner, path: string, r: Live.ListAnswer, n: Live.ObjectNode)
    requires Live.IsNodesAnswer(s, path, r) && r.Listed? && n in r.nodes && BucketAt(path) != ""
    ensures n.name != "" && SlashFree(n.name) && n.path == Scanner.JoinPath(BucketAt(path), PrefixAt(path), n.name)
    ensures Scanner.SplitPath(n.path) == (BucketAt(path), InnerPath(PrefixAt(path), n.name)) <==>
              BucketAt(path)[0] != ' ' && n.name[|n.name| - 1] != ' '
  {
    hide Scanner.JoinPath, InnerPath, Live.IsListing, Live.See, Scanner.SplitPath, TrimSpace, BucketAt, PrefixAt, HasPrefix, HasSuffix;
    var o := NodeOrigin(s, path, r, n);
    PrefixEnds(path);
    NameInKey(o.key, PrefixAt(path), Live.See(o.key, PrefixAt(path)));
    SplitInvertsJoin(BucketAt(path), PrefixAt(path), n.name);
    assert n.name[|n.name| - 1] in n.name;
  }

  // ---- Well-formed keys -------------------------------------------------------------------------

  /** With well-formed keys, in a bucket whose name has no leading space, every path of an answer leads back: an object's to its
      own key, a sub-directory's to a directory that some key lies in. */
  lemma ListedPathsLeadBack(s: Scanner.S3Scanner, path: string, r: Live.ListAnswer, n: Live.ObjectNode)
    requires Live.IsNodesAnswer(s, path, r) && r.Listed? && n in r.nodes
    requires BucketAt(path) != "" && BucketAt(path)[0] != ' ' && WellFormedListing(Scanner.BucketContents(s, BucketAt(path)))
    ensures Scanner.SplitPath(n.path) == (BucketAt(path), InnerPath(PrefixAt(path), n.name))
    ensures exists o :: o in Scanner.BucketContents(s, BucketAt(path)) && LeadsTo(n, o)
  {
    hide Scanner.JoinPath, Live.IsListing, Live.See, Scanner.SplitPath, TrimSpace, InnerPath, BucketAt, PrefixAt, HasPrefix, HasSuffix,
      WellFormedKey;
    var bucket, clean := BucketAt(path), PrefixAt(path);
    var o := NodeOrigin(s, path, r, n);
    PrefixEnds(path);
    CleanKey(o.key, clean);
    ListedPathSplits(s, path, r, n);
    SeenHead(o.key, clean, Live.See(o.key, clean));
    if n.kind.LeafEntry? {
      LeafLeadsBack(s, path, r, n, o);
    } else {
      DirLeadsBack(s, path, r, n, o);
    }
    assert LeadsTo(n, o);
  }

  /** The path of a node splits into an object's key, or into a directory above it. */
  ghost predicate LeadsTo(n: Live.ObjectNode, o: Scanner.S3Object) {
    var inner := Scanner.SplitPath(n.path).1;
    if n.kind.LeafEntry? then inner == o.key && n.sizeBytes == o.size else HasPrefix(o.key, inner + "/")
  }

  lemma SeenHead(key: string, clean: string, seen: Live.Seen)
    requires WellFormedKey(key) && HasPrefix(key, clean) && (clean == "" || HasSuffix(clean, "/"))
    requires Live.See(key, clean) == seen && !seen.Ignored? && seen.name != ""
    ensures seen.name[|seen.name| - 1] != ' '
  {
    hide Split, WellFormedKey, HasSuffix, HasPrefix, Scanner.Relative, ContainsReservedObjectSegment;
    CleanHead(key, clean);
  }

  /** A well-formed key has no leading slash and no doubled one. */
  lemma CleanKey(key: string, clean: string)
    requires WellFormedKey(key) && HasPrefix(key, clean) && (clean == "" || HasSuffix(clean, "/"))
    ensures !HasPrefix(key, "/") && !HasPrefix(clean, "/") && !HasPrefix(key, clean + "/")
  {
    hide Split, WellFormedKey, Join, KeySegments, TrimSlashes, IsDirKey;
    KeyFacts(key);
    assert clean != "" ==> clean[0] == key[0];
    if clean != "" && HasPrefix(key, clean + "/") {
      SlashAfterSlash(key, clean);
      NotDoubled(key, clean[..|clean| - 1], key[|clean| + 1..]);
    }
  }

  lemma SlashAfterSlash(key: string, clean: string)
    requires clean != "" && HasSuffix(clean, "/") && HasPrefix(key, clean + "/")
    ensures key == clean[..|clean| - 1] + "/" + ("/" + key[|clean| + 1..])
  {
    assert key == clean + "/" + key[|clean| + 1..];
    assert clean == clean[..|clean| - 1] + "/";
  }

  lemma NotDoubled(key: string, d: string, rest: string)
    requires WellFormedKey(key)
    ensures key != d + "/" + ("/" + rest)
  {
    hide Split, WellFormedKey, Join, KeySegments;
    assert "/" + rest == "" + "/" + rest;
    SplitConcat(d, "/" + rest);
    SplitConcat("", rest);
    SplitNothing();
    EmptyInside(key, Split(d), Split(rest));
  }

  /** No segment of a well-formed key but the last can be empty. */
  lemma EmptyInside(key: string, a: seq<string>, b: seq<string>)
    requires WellFormedKey(key) && |b| >= 1
    ensures Split(key) != a + ([""] + b)
  {
    hide KeySegments;
    var full := Agreement.FullSegments(key);
    Agreement.FullFacts(key);
    SplitJoin(full);
    assert (a + ([""] + b))[|a|] == "";
    if |a| < |full| - 1 {
      InnerSegment(key, |a|);
    }
  }

  lemma InnerSegment(key: string, k: nat)
    requires WellFormedKey(key) && k < |Agreement.FullSegments(key)| - 1
    ensures Agreement.FullSegments(key)[k] != ""
  {
    hide KeySegments;
    assert Agreement.FullSegments(key)[k] == KeySegments(key)[k];
    assert CleanSegment(KeySegments(key)[k]);
  }

  /** The first segment below a prefix is one of the key's. */
  lemma CleanHead(key: string, clean: string)
    requires WellFormedKey(key) && HasPrefix(key, clean) && (clean == "" || HasSuffix(clean, "/"))
    ensures var head := Split(Scanner.Relative(key, clean))[0]; head == "" || head[|head| - 1] != ' '
  {
    hide Split, WellFormedKey, Join, KeySegments;
    var full := Agreement.FullSegments(key);
    Agreement.FullFacts(key);
    SplitJoin(full);
    var rel := TrimPrefix(key, clean);
    if clean != "" {
      var d := clean[..|clean| - 1];
      assert key == d + "/" + rel;
      SplitConcat(d, rel);
      assert forall k :: 0 <= k < |Split(rel)| ==> Split(rel)[k] == full[|Split(d)| + k];
    }
    if HasPrefix(rel, "/") {
      SplitCons('/', rel[1..]);
      assert rel == ['/'] + rel[1..] && Split(rel)[1] == Split(rel[1..])[0];
    }
    FullSegmentEnds(key, Split(Scanner.Relative(key, clean))[0]);
  }

  lemma FullSegmentEnds(key: string, x: string)
    requires WellFormedKey(key) && x in Agreement.FullSegments(key)
    ensures x == "" || x[|x| - 1] != ' '
  {
    hide KeySegments;
    if x != "" {
      var k :| 0 <= k < |KeySegments(key)| && KeySegments(key)[k] == x;
      assert CleanSegment(x);
      TrimSpaceIdentity(x);
    }
  }

  /** The entries of the bucket list go back to their buckets if and only if the names have no slash and no outer spaces. */
  lemma ListedBucketsSplit(s: Scanner.S3Scanner, r: Live.ListAnswer, n: Live.ObjectNode)
    requires Live.IsBucketList(s, r) && n in r.nodes
    ensures n.path == n.name && (Scanner.SplitPath(n.path) == (n.name, "") <==> SlashFree(n.name) && Trim(n.name, Spaces) == n.name)
  {
    hide Trim, Split, Join;
    var name := n.name;
    var trimmed := TrimSuffix(TrimPrefix(Trim(name, Spaces), "/"), "/");
    SameLength(name);
    HeadLength(trimmed);
    if SlashFree(name) && Trim(name, Spaces) == name {
      assert name != "" ==> name[0] in name && name[|name| - 1] in name;
      SplitSlashFree(name);
      assert [name][1..] == [];
      NothingJoined();
    }
  }

  const SPACED := Scanner.S3Object("report ", 1)
  const SPACED_NODE := Live.ObjectNode("report ", "b/report ", Live.LeafEntry, 1)

  lemma SpacedTrimmed()
    ensures TrimSpace("report ") == "report" && TrimSpace("b") == "b"
  {
    assert "report "[..6] == "report";
    assert TrimLeft("report ", Blanks) == "report ";
    assert TrimRight("report ", Blanks) == TrimRight("report", Blanks) == "report";
  }

  lemma SpacedSeen()
    ensures Live.See("report ", "") == Live.Leaf("report ")
    ensures Live.Shown(SPACED_NODE)
  {
    hide TrimSpace, Split, ContainsReservedObjectSegment, HasReservedObjectSegment;
    SpacedTrimmed();
    Unreserved("report ");
    Unreserved("b");
    SplitSlashFree("report ");
    assert "report "[|"report "| - 1..] == " " && "report "[0] != "/"[0];
    assert TrimPrefix("report ", "") == "report " && Scanner.Relative("report ", "") == "report ";
    ReservedJoin("b", "report ");
    assert "b/report " == "b" + "/" + "report ";
  }

  lemma SpacedParts()
    ensures Live.SubDirs([SPACED], "") == {} && Live.Leaves("b", [SPACED], "") == [SPACED_NODE]
  {
    hide Live.See, Live.Shown;
    SpacedSeen();
    assert [SPACED][..0] == [];
    assert Live.LeafNode("b", "", "report ", 1) == SPACED_NODE;
  }

  lemma SpacedKept()
    ensures Live.FilterReservedNodes([] + [SPACED_NODE]) == [SPACED_NODE]
  {
    hide Live.Shown;
    SpacedSeen();
    assert ([] + [SPACED_NODE])[..0] == [];
  }

  lemma SpacedListed()
    ensures Live.IsListing("b", "", Scanner.WithPrefix([SPACED], ""), [SPACED_NODE])
  {
    hide Live.SubDirs, Live.Leaves, Live.FilterReservedNodes, Scanner.WithPrefix, SPACED, SPACED_NODE;
    EmptyPrefix([SPACED]);
    SpacedParts();
    SpacedKept();
    assert Live.ListsDirs("b", "", [SPACED], []);
  }

  const DOUBLED := Scanner.S3Object("a//f", 1)
  const DOUBLED_NODE := Live.ObjectNode("f", "b/a/f", Live.LeafEntry, 1)

  lemma DoubledPaths()
    ensures TrimSpace("f") == "f" && TrimSpace("b") == "b" && TrimSpace("a") == "a" && TrimSpace("b/a") == "b/a"
    ensures Scanner.SplitPath("b/a") == ("b", "a") && Scanner.SplitPath("b/a/f") == ("b", "a/f")
  {
    TrimSpaceIdentity("f");
    TrimSpaceIdentity("b");
    TrimSpaceIdentity("a");
    TrimSpaceIdentity("b/a");
    assert "b/a" == "b" + "/" + "a" && "b/a/f" == "b" + "/" + "a/f";
    SplitBucket("b", "a");
    SplitBucket("b", "a/f");
  }

  lemma DoubledRelative()
    ensures HasPrefix("a//f", "a/") && Scanner.Relative("a//f", "a/") == "f" && !HasSuffix("a//f", "/")
  {
    assert "a//f"[..2] == "a/" && "a//f"[2..] == "/f" && "/f"[..1] == "/" && "/f"[1..] == "f";
    assert "a//f"[|"a//f"| - 1..] == "f";
  }

  lemma DoubledSeen()
    ensures HasPrefix("a//f", "a/") && Live.See("a//f", "a/") == Live.Leaf("f")
  {
    hide TrimSpace, Split, ContainsReservedObjectSegment, HasReservedObjectSegment, Scanner.Relative, HasPrefix, HasSuffix;
    DoubledRelative();
    LetterUnreserved("f");
    SplitSlashFree("f");
  }

  lemma DoubledNode()
    ensures Live.LeafNode("b", "a/", "f", 1) == DOUBLED_NODE
  {
    hide TrimSpace;
    assert "a/"[0] != '/' && "a/"[1..] == "/" && "a/"[..1] == "a";
    assert TrimSuffix(TrimPrefix("a/", "/"), "/") == "a";
    assert "b" + "/" + ("a" + "/" + "f") == "b/a/f";
  }

  /** Names of one plain letter are not reserved. */
  lemma LetterUnreserved(x: string)
    requires |x| == 1 && 'a' <= x[0] <= 'z'
    ensures TrimSpace(x) == x && SlashFree(x)
    ensures !ContainsReservedObjectSegment([x]) && !HasReservedObjectSegment(x)
  {
    hide TrimSpace, ContainsReservedObjectSegment, HasReservedObjectSegment;
    TrimSpaceIdentity(x);
    assert x == [x[0]];
    Unreserved(x);
  }

  lemma DoubledFolder()
    ensures !HasReservedObjectSegment("b/a/f")
  {
    hide *;
    LetterUnreserved("b");
    LetterUnreserved("a");
    LetterUnreserved("f");
    ReservedJoin("b", "a");
    ReservedJoin("b" + "/" + "a", "f");
    assert "b" + "/" + "a" + "/" + "f" == "b/a/f";
  }

  lemma DoubledShown()
    ensures Live.Shown(DOUBLED_NODE)
  {
    hide TrimSpace, Split, ContainsReservedObjectSegment, HasReservedObjectSegment, Scanner.SplitPath;
    DoubledFolder();
    LetterUnreserved("f");
  }

  lemma DoubledParts()
    ensures Scanner.WithPrefix([DOUBLED], "a/") == [DOUBLED]
    ensures Live.SubDirs([DOUBLED], "a/") == {} && Live.Leaves("b", [DOUBLED], "a/") == [DOUBLED_NODE]
    ensures Live.FilterReservedNodes([] + [DOUBLED_NODE]) == [DOUBLED_NODE]
  {
    hide Live.See, Live.Shown, Live.LeafNode, HasPrefix;
    DoubledSeen();
    DoubledNode();
    DoubledShown();
    assert [DOUBLED][..0] == [] && ([] + [DOUBLED_NODE])[..0] == [];
  }

  /** A key with a doubled slash is listed under a path that leads to another key. */
  lemma SlashLost()
    ensures Live.IsNodesAnswer(Scanner.S3Scanner({"b"}, map["b" := [DOUBLED]]), "b/a", Live.Listed([DOUBLED_NODE]))
    ensures Scanner.SplitPath(DOUBLED_NODE.path) == ("b", "a/f") && "a/f" != DOUBLED.key
  {
    hide Live.SubDirs, Live.Leaves, Live.FilterReservedNodes, Scanner.WithPrefix, Scanner.SplitPath, TrimSpace, DOUBLED;
    DoubledPaths();
    DoubledParts();
    DoubledKey();
    assert Live.ListsDirs("b", "a/", [DOUBLED], []);
    assert Live.IsListing("b", "a/", [DOUBLED], [DOUBLED_NODE]);
    assert "a" + "/" == "a/" && !HasSuffix("a", "/");
  }

  lemma DoubledKey()
    ensures "a/f" != DOUBLED.key
  {
  }

  /** A key that ends in a space is listed under a path that does not lead back to it. */
  lemma SpaceLost()
    ensures Live.IsNodesAnswer(Scanner.S3Scanner({"b"}, map["b" := [SPACED]]), "b", Live.Listed([SPACED_NODE]))
    ensures Scanner.SplitPath(SPACED_NODE.path) != ("b", "report ")
  {
    hide Live.IsListing, Scanner.SplitPath, TrimSpace;
    SpacedTrimmed();
    SpacedListed();
    SplitBucket("b", "report ");
    BucketPathSplits("b");
    assert "b/report " == "b" + "/" + "report ";
  }
}

/** The rebuilt tree of a scanned bucket, against the keys and against the live listing. */
module CacheAgreement {
  import opened Options
  import opened GoStrings
  import opened ObjectKeys
  import opened MetadataForest
  import opened NodeNames
  import opened Deliveries
  import opened ScanSession
  import opened ScanRuns
  import opened ScanOutcomes
  import opened BucketScans
  import opened BucketRoundTrip
  import opened WholeBucketRun
  import opened ListingAgreement
  import opened ScannerPaths
  import opened ExplorerTree
  import opened ExplorerContents
  import Scanner = ObjectStorageScanner
  import Live = LiveListing

  /** A finished whole-bucket run and the maps the explorer groups its rows into. */
  ghost predicate IsCached(s: Scan, nodes: Nodes, items: Items, bucket: string, listed: seq<Scanner.S3Object>, a: ScanAnswer, objects: nat,
                           res: set<nat>, rows: ChildRows, its: NodeItems)
  {
    && IsBucketRun(s, nodes, items, bucket, listed, a, objects)
    && s.metaRes.id in res && IsSnapshot(nodes, items, res, rows, its) && Layered(nodes, rows)
  }

  /** The row of directory q of the bucket. */
  ghost predicate IsRowOf(s: Scan, nodes: Nodes, bucket: string, q: seq<string>, p: nat) {
    p in s.names && p in nodes && !Stranded(nodes[p]) && s.names[p] == [bucket] + q
  }

  lemma RowInScope(s: Scan, nodes: Nodes, items: Items, p: nat)
    requires IsOutcome(s, nodes, items) && p in s.names
    ensures p in nodes && nodes[p].res == s.metaRes.id && nodes[p].kind != SchemaNode
    decreases |s.names[p]|
  {
    assert NamedRow(nodes, s.roots, s.names, p);
    NamedDepth(nodes, s.roots, s.names, p);
    assert LinkedRow(nodes, p);
    if p !in s.roots {
      RowInScope(s, nodes, items, nodes[p].parent.value);
    }
  }

  lemma CachedParts(s: Scan, nodes: Nodes, items: Items)
    requires IsOutcome(s, nodes, items)
    ensures Linked(nodes) && ItemsPlaced(nodes, items) && IsNaming(nodes, s.roots, s.names)
  {
  }

  /** A level shows a directory of this name, or one with a path. */
  ghost predicate ShowsDir(level: seq<Entry>, x: string) {
    exists e :: e in level && e.kind.DirectoryEntry? && e.name == x
  }

  ghost predicate ShowsLabelledDir(nodes: Nodes, level: seq<Entry>, x: string) {
    exists e :: e in level && e.kind.DirectoryEntry? && e.name == x && e.id in nodes && !Stranded(nodes[e.id])
  }

  ghost predicate ShowsObject(level: seq<Entry>, x: string, size: int) {
    exists e :: e in level && e.kind.ObjectEntry? && e.name == x && e.sizeBytes == size
  }

  /** What a level is, for rows and items in place. */
  ghost predicate IsReadable(nodes: Nodes, items: Items, res: set<nat>, rows: ChildRows, its: NodeItems, p: nat) {
    && Linked(nodes) && ItemsPlaced(nodes, items) && IsSnapshot(nodes, items, res, rows, its) && Layered(nodes, rows)
    && p in nodes && nodes[p].res in res
  }

  lemma LevelReadable(s: Scan, nodes: Nodes, items: Items, res: set<nat>, rows: ChildRows, its: NodeItems, p: nat)
    requires IsOutcome(s, nodes, items) && s.metaRes.id in res && IsSnapshot(nodes, items, res, rows, its) && Layered(nodes, rows)
    requires p in s.names
    ensures IsReadable(nodes, items, res, rows, its, p) && IsNaming(nodes, s.roots, s.names)
  {
    hide IsSnapshot, Layered, IsOutcome, ItemsPlaced, Linked, IsNaming;
    CachedParts(s, nodes, items);
    RowInScope(s, nodes, items, p);
  }

  lemma ShownDirNamed(nodes: Nodes, items: Items, roots: set<nat>, names: Names, res: set<nat>, rows: ChildRows, its: NodeItems, p: nat, x: string)
    requires IsReadable(nodes, items, res, rows, its, p) && IsNaming(nodes, roots, names) && p in names
    ensures ShowsLabelledDir(nodes, Level(nodes, rows, its, p), x) ==> names[p] + [x] in Chains(nodes, names)
  {
    hide Level, IsSnapshot, Layered, ItemsPlaced, Stranded, Linked, IsNaming;
    if e :| e in Level(nodes, rows, its, p) && e.kind.DirectoryEntry? && e.name == x && e.id in nodes && !Stranded(nodes[e.id]) {
      LevelIsExact(nodes, items, res, rows, its, p, e);
      ChildNamed(nodes, roots, names, p, e.id);
      assert names[e.id] == names[p] + [x];
    }
  }

  lemma NamedDirShown(nodes: Nodes, items: Items, roots: set<nat>, names: Names, res: set<nat>, rows: ChildRows, its: NodeItems, p: nat, x: string)
    requires IsReadable(nodes, items, res, rows, its, p) && IsNaming(nodes, roots, names) && p in names
    ensures names[p] + [x] in Chains(nodes, names) ==> ShowsLabelledDir(nodes, Level(nodes, rows, its, p), x)
  {
    hide Level, IsSnapshot, Layered, ItemsPlaced, Stranded, Linked, IsNaming;
    if names[p] + [x] in Chains(nodes, names) {
      var j :| j in names && j in nodes && !Stranded(nodes[j]) && names[j] == names[p] + [x];
      NamedChild(nodes, roots, names, j, p, x);
      var e := DirEntry(nodes[j], Level(nodes, rows, its, j));
      RowId(nodes, j);
      LevelIsExact(nodes, items, res, rows, its, p, e);
      assert e.id == j;
    }
  }

  /** The labelled directories on a row's level are the chains one name longer. */
  lemma LevelDirs(s: Scan, nodes: Nodes, items: Items, res: set<nat>, rows: ChildRows, its: NodeItems, p: nat, x: string)
    requires IsOutcome(s, nodes, items) && s.metaRes.id in res && IsSnapshot(nodes, items, res, rows, its) && Layered(nodes, rows)
    requires p in s.names && p in nodes
    ensures ShowsLabelledDir(nodes, Level(nodes, rows, its, p), x) <==> s.names[p] + [x] in Chains(nodes, s.names)
  {
    hide *;
    LevelReadable(s, nodes, items, res, rows, its, p);
    ShownDirNamed(nodes, items, s.roots, s.names, res, rows, its, p, x);
    NamedDirShown(nodes, items, s.roots, s.names, res, rows, its, p, x);
  }

  lemma ChildNamed(nodes: Nodes, roots: set<nat>, names: Names, p: nat, c: nat)
    requires Linked(nodes) && IsNaming(nodes, roots, names) && p in names && c in nodes && nodes[c].parent == Some(p)
    ensures c in names && names[c] == names[p] + [nodes[c].name]
  {
    assert NamedRow(nodes, roots, names, c);
  }

  lemma ObjectEntrySize(it: Item, o: Scanner.S3Object, bucket: string)
    requires DataOf(it) == KeyDelivery(bucket, o).data
    ensures ItemEntry(it).sizeBytes == o.size && ItemEntry(it).name == it.name && ItemEntry(it).id == it.id && ItemEntry(it).kind == ObjectEntry
    ensures ItemEntry(it).fullName == bucket + "/" + o.key
  {
  }

  lemma SegmentsOfFile(bucket: string, o: Scanner.S3Object, q: seq<string>, x: string)
    requires WellFormedKey(o.key)
    ensures FileOf(bucket, o).chain == [bucket] + q && FileOf(bucket, o).name == x <==> KeySegments(o.key) == q + [x]
  {
    hide Split, CleanSegment;
    var p := KeySegments(o.key);
    var d := p[..|p| - 1];
    assert p == d + [p[|p| - 1]];
    assert ([bucket] + d)[1..] == d && ([bucket] + q)[1..] == q;
    if p == q + [x] {
      assert d == q;
    }
  }

  /** An object of this size sits in directory q under this name. */
  ghost predicate HasKey(listed: seq<Scanner.S3Object>, q: seq<string>, x: string, size: int) {
    exists o :: o in CountedObjects(listed) && KeySegments(o.key) == q + [x] && o.size == size
  }

  lemma ShownObjectListed(s: Scan, nodes: Nodes, items: Items, bucket: string, listed: seq<Scanner.S3Object>, res: set<nat>, rows: ChildRows,
                          its: NodeItems, p: nat, q: seq<string>, x: string, size: int)
    requires IsReadable(nodes, items, res, rows, its, p) && WellFormedListing(listed) && p in s.names && s.names[p] == [bucket] + q
    requires Files(items, s.names) == set o | o in CountedObjects(listed) :: FileOf(bucket, o)
    ensures ShowsObject(Level(nodes, rows, its, p), x, size) ==> HasKey(listed, q, x, size)
  {
    hide Level, IsSnapshot, Layered, Linked, ItemsPlaced, Files, FileOf, KeySegments, WellFormedListing, ItemEntry;
    if e :| e in Level(nodes, rows, its, p) && e.kind.ObjectEntry? && e.name == x && e.sizeBytes == size {
      LevelIsExact(nodes, items, res, rows, its, p, e);
      var o := ObjectOfItem(s, items, bucket, listed, e.id);
      SegmentsOfFile(bucket, o, q, x);
      ObjectEntrySize(items[e.id], o, bucket);
    }
  }

  lemma ListedObjectShown(s: Scan, nodes: Nodes, items: Items, bucket: string, listed: seq<Scanner.S3Object>, res: set<nat>, rows: ChildRows,
                          its: NodeItems, p: nat, q: seq<string>, x: string, size: int)
    requires IsReadable(nodes, items, res, rows, its, p) && WellFormedListing(listed) && p in s.names && s.names[p] == [bucket] + q
    requires IsOutcome(s, nodes, items) && Files(items, s.names) == set o | o in CountedObjects(listed) :: FileOf(bucket, o)
    ensures HasKey(listed, q, x, size) ==> ShowsObject(Level(nodes, rows, its, p), x, size)
  {
    hide Level, IsSnapshot, Layered, Linked, ItemsPlaced, Files, FileOf, KeySegments, WellFormedListing, ItemEntry, IsOutcome;
    if o :| o in CountedObjects(listed) && KeySegments(o.key) == q + [x] && o.size == size {
      var t := ItemOfObject(s, nodes, items, bucket, listed, o, p, q, x);
      ObjectEntrySize(items[t], o, bucket);
      LevelIsExact(nodes, items, res, rows, its, p, ItemEntry(items[t]));
    }
  }

  /** The objects on a row's level are the counted objects that sit in its directory. */
  lemma LevelObjects(s: Scan, nodes: Nodes, items: Items, bucket: string, listed: seq<Scanner.S3Object>, a: ScanAnswer, objects: nat,
                     res: set<nat>, rows: ChildRows, its: NodeItems, p: nat, q: seq<string>, x: string, size: int)
    requires IsCached(s, nodes, items, bucket, listed, a, objects, res, rows, its) && IsRowOf(s, nodes, bucket, q, p)
    ensures ShowsObject(Level(nodes, rows, its, p), x, size) <==> HasKey(listed, q, x, size)
  {
    hide *;
    CachedFacts(s, nodes, items, bucket, listed, a, objects, res, rows, its);
    NamesRow(s, nodes, bucket, q, p);
    LevelReadable(s, nodes, items, res, rows, its, p);
    ItemsAreListing(s, nodes, items, bucket, listed, a, objects);
    ShownObjectListed(s, nodes, items, bucket, listed, res, rows, its, p, q, x, size);
    ListedObjectShown(s, nodes, items, bucket, listed, res, rows, its, p, q, x, size);
  }

  lemma NamesRow(s: Scan, nodes: Nodes, bucket: string, q: seq<string>, p: nat)
    requires IsRowOf(s, nodes, bucket, q, p)
    ensures p in s.names && p in nodes && s.names[p] == [bucket] + q
  {
  }

  lemma ObjectOfItem(s: Scan, items: Items, bucket: string, listed: seq<Scanner.S3Object>, t: nat) returns (o: Scanner.S3Object)
    requires WellFormedListing(listed) && t in items && items[t].node in s.names
    requires Files(items, s.names) == set o | o in CountedObjects(listed) :: FileOf(bucket, o)
    ensures o in CountedObjects(listed) && WellFormedKey(o.key)
    ensures FileOf(bucket, o) == FileView(s.names[items[t].node], items[t].name, DataOf(items[t]))
    ensures DataOf(items[t]) == KeyDelivery(bucket, o).data
  {
    assert FileView(s.names[items[t].node], items[t].name, DataOf(items[t])) in Files(items, s.names);
    o :| o in CountedObjects(listed) && FileOf(bucket, o) == FileView(s.names[items[t].node], items[t].name, DataOf(items[t]));
    CountedObjectsMember(listed, o);
  }

  lemma ItemOfObject(s: Scan, nodes: Nodes, items: Items, bucket: string, listed: seq<Scanner.S3Object>, o: Scanner.S3Object, p: nat,
                     q: seq<string>, x: string) returns (t: nat)
    requires IsOutcome(s, nodes, items) && WellFormedListing(listed) && o in CountedObjects(listed)
    requires Files(items, s.names) == set o | o in CountedObjects(listed) :: FileOf(bucket, o)
    requires p in s.names && s.names[p] == [bucket] + q && KeySegments(o.key) == q + [x]
    ensures t in items && items[t].id == t && items[t].node == p && items[t].name == x && items[t].kind == ObjectItem
    ensures DataOf(items[t]) == KeyDelivery(bucket, o).data
  {
    hide KeySegments, IsSnapshot, Rooted, RowsKept, RootsKept, ItemsKept, Stored, Chains;
    CountedObjectsMember(listed, o);
    SegmentsOfFile(bucket, o, q, x);
    assert FileOf(bucket, o) in Files(items, s.names);
    t :| t in items && items[t].node in s.names && FileOf(bucket, o) == FileView(s.names[items[t].node], items[t].name, DataOf(items[t]));
    assert ShareChain(s.names, items[t].node, p);
    RowInScope(s, nodes, items, p);
    assert ItemRow(nodes, items, t);
  }

  // ---- The listing that ListNodes gives for a directory ------------------------------------

  lemma DirectoryPath(bucket: string, q: seq<string>)
    requires CleanSegment(bucket) && CleanSegments(q)
    ensures var path := Join([bucket] + q);
            TrimSpace(path) == path != "" && Scanner.SplitPath(path) == (bucket, Join(q))
  {
    hide CleanSegment, Scanner.SplitPath, Split;
    if q == [] {
      BucketPathSplits(bucket);
      assert [bucket] + q == [bucket];
    } else {
      JoinConcat([bucket], q);
      SegmentEnds(bucket);
      JoinedEnd(q);
      TrimSpaceIdentity(bucket + "/" + Join(q));
      assert bucket[0] in bucket;
      SplitBucket(bucket, Join(q));
    }
  }

  lemma SegmentEnds(x: string)
    requires CleanSegment(x)
    ensures x != "" && SlashFree(x) && !IsSpace(x[0]) && !IsSpace(x[|x| - 1]) && x[|x| - 1] != '/'
  {
    TrimSpaceIdentity(x);
    assert x[|x| - 1] in x;
  }

  lemma {:induction false} JoinedEnd(q: seq<string>)
    requires q != [] && CleanSegments(q)
    ensures Join(q) != "" && !IsSpace(Join(q)[|Join(q)| - 1]) && Join(q)[|Join(q)| - 1] != '/'
  {
    hide CleanSegment, IsSpace;
    SegmentEnds(q[0]);
    if |q| > 1 {
      JoinedEnd(q[1..]);
    }
  }

  /** Asked for the path of a directory, `ListNodes` lists that directory. */
  lemma ListNodesOfDirectory(scanner: Scanner.S3Scanner, bucket: string, q: seq<string>, r: Live.ListAnswer)
    requires WellFormedBucket(bucket) && CleanSegments(q) && bucket in scanner.allowedBucket
    requires Live.IsListNodesAnswer(scanner, Join([bucket] + q), r)
    ensures r.Listed? && Live.IsListing(bucket, CleanOf(q), Scanner.WithPrefix(Scanner.BucketContents(scanner, bucket), CleanOf(q)), r.nodes)
  {
    hide CleanSegment, Scanner.SplitPath, Live.IsListing, Join, TrimSpace;
    BucketIsClean(bucket);
    DirectoryPath(bucket, q);
    CleanOfJoin(q);
  }

  lemma BucketIsClean(bucket: string)
    requires WellFormedBucket(bucket)
    ensures CleanSegment(bucket)
  {
  }

  lemma CleanOfJoin(q: seq<string>)
    requires CleanSegments(q)
    ensures CleanOf(q) == if Join(q) != "" && !HasSuffix(Join(q), "/") then Join(q) + "/" else Join(q)
  {
    hide CleanSegment;
    if q != [] {
      JoinedEnd(q);
    }
  }

  ghost predicate ListsDir(live: seq<Live.ObjectNode>, x: string) {
    exists n :: n in live && n.kind.PrefixEntry? && n.name == x
  }

  ghost predicate ListsObject(live: seq<Live.ObjectNode>, x: string, size: int) {
    exists n :: n in live && n.kind.LeafEntry? && n.name == x && n.sizeBytes == size
  }

  /** The cache agrees with the live listing, directory by directory: the labelled sub-directories and the objects of a
      directory's level are those that `ListNodes` shows for the directory's path. */
  lemma CacheAgreesWithListing(s: Scan, nodes: Nodes, items: Items, bucket: string, scanner: Scanner.S3Scanner, a: ScanAnswer, objects: nat,
                               res: set<nat>, rows: ChildRows, its: NodeItems, p: nat, q: seq<string>, r: Live.ListAnswer, x: string, size: int)
    requires bucket in scanner.allowedBucket
    requires IsCached(s, nodes, items, bucket, Scanner.BucketContents(scanner, bucket), a, objects, res, rows, its)
    requires IsRowOf(s, nodes, bucket, q, p) && Live.IsListNodesAnswer(scanner, Join([bucket] + q), r)
    ensures r.Listed?
    ensures ShowsLabelledDir(nodes, Level(nodes, rows, its, p), x) <==> ListsDir(r.nodes, x)
    ensures ShowsObject(Level(nodes, rows, its, p), x, size) <==> ListsObject(r.nodes, x, size)
  {
    hide *;
    var listed := Scanner.BucketContents(scanner, bucket);
    CachedFacts(s, nodes, items, bucket, listed, a, objects, res, rows, its);
    RowFacts(s, nodes, items, bucket, listed, a, objects, p, q, x);
    ListNodesOfDirectory(scanner, bucket, q, r);
    LevelDirs(s, nodes, items, res, rows, its, p, x);
    RowsAreSpelled(s, nodes, items, bucket, listed, a, objects, [bucket] + q + [x]);
    LongerChain(bucket, q, x);
    ListedDirs(bucket, listed, q, r.nodes, x);
    LevelObjects(s, nodes, items, bucket, listed, a, objects, res, rows, its, p, q, x, size);
    ListedObjects(bucket, listed, q, r.nodes, x, size);
    NamedViews(listed, q, r.nodes, x, size);
  }

  /** The views by their definitions. */
  lemma NamedViews(listed: seq<Scanner.S3Object>, q: seq<string>, live: seq<Live.ObjectNode>, x: string, size: int)
    ensures HasKey(listed, q, x, size) <==> exists o :: o in CountedObjects(listed) && KeySegments(o.key) == q + [x] && o.size == size
    ensures ListsDir(live, x) <==> exists n :: n in live && n.kind.PrefixEntry? && n.name == x
    ensures ListsObject(live, x, size) <==> exists n :: n in live && n.kind.LeafEntry? && n.name == x && n.sizeBytes == size
  {
    hide KeySegments;
  }

  /** Row i is a child of p without a path, of a name that the listing does not show. */
  ghost predicate IsLeftOver(nodes: Nodes, p: nat, live: seq<Live.ObjectNode>, i: nat) {
    i in nodes && nodes[i].parent == Some(p) && Stranded(nodes[i]) && !ListsDir(live, nodes[i].name)
  }

  /** All sub-directories of the level, labelled or not, are those of the listing if and only if no such row is left over. */
  lemma WholeLevelAgrees(s: Scan, nodes: Nodes, items: Items, bucket: string, scanner: Scanner.S3Scanner, a: ScanAnswer, objects: nat,
                         res: set<nat>, rows: ChildRows, its: NodeItems, p: nat, q: seq<string>, r: Live.ListAnswer)
    requires bucket in scanner.allowedBucket
    requires IsCached(s, nodes, items, bucket, Scanner.BucketContents(scanner, bucket), a, objects, res, rows, its)
    requires IsRowOf(s, nodes, bucket, q, p) && Live.IsListNodesAnswer(scanner, Join([bucket] + q), r)
    ensures r.Listed?
    ensures (forall x :: ShowsDir(Level(nodes, rows, its, p), x) <==> ListsDir(r.nodes, x)) <==> !exists i :: IsLeftOver(nodes, p, r.nodes, i)
  {
    hide *;
    var listed := Scanner.BucketContents(scanner, bucket);
    CachedFacts(s, nodes, items, bucket, listed, a, objects, res, rows, its);
    CachedParts(s, nodes, items);
    RowFacts(s, nodes, items, bucket, listed, a, objects, p, q, "");
    RowInScope(s, nodes, items, p);
    CacheAgreesWithListing(s, nodes, items, bucket, scanner, a, objects, res, rows, its, p, q, r, "", 0);
    forall x ensures ShowsLabelledDir(nodes, Level(nodes, rows, its, p), x) <==> ListsDir(r.nodes, x) {
      CacheAgreesWithListing(s, nodes, items, bucket, scanner, a, objects, res, rows, its, p, q, r, x, 0);
    }
    forall x ensures ShowsDir(Level(nodes, rows, its, p), x) <==>
                       ShowsLabelledDir(nodes, Level(nodes, rows, its, p), x) || exists i :: IsStrandedChild(nodes, p, x, i)
    {
      ShownDirs(nodes, items, res, rows, its, p, x);
    }
    LeftOvers(nodes, p, Level(nodes, rows, its, p), r.nodes);
  }

  ghost predicate IsStrandedChild(nodes: Nodes, p: nat, x: string, i: nat) {
    i in nodes && nodes[i].parent == Some(p) && Stranded(nodes[i]) && nodes[i].name == x
  }

  lemma ShownDirs(nodes: Nodes, items: Items, res: set<nat>, rows: ChildRows, its: NodeItems, p: nat, x: string)
    requires Linked(nodes) && ItemsPlaced(nodes, items) && IsSnapshot(nodes, items, res, rows, its) && Layered(nodes, rows)
    requires p in nodes && nodes[p].res in res
    ensures ShowsDir(Level(nodes, rows, its, p), x) <==>
              ShowsLabelledDir(nodes, Level(nodes, rows, its, p), x) || exists i :: IsStrandedChild(nodes, p, x, i)
  {
    hide Level, IsSnapshot, Layered, ItemsPlaced, Stranded, Linked;
    var level := Level(nodes, rows, its, p);
    if e :| e in level && e.kind.DirectoryEntry? && e.name == x {
      LevelIsExact(nodes, items, res, rows, its, p, e);
      assert Stranded(nodes[e.id]) ==> IsStrandedChild(nodes, p, x, e.id);
    }
    if i :| IsStrandedChild(nodes, p, x, i) {
      var e := DirEntry(nodes[i], Level(nodes, rows, its, i));
      RowId(nodes, i);
      LevelIsExact(nodes, items, res, rows, its, p, e);
    }
  }

  lemma RowId(nodes: Nodes, i: nat)
    requires Linked(nodes) && i in nodes
    ensures nodes[i].id == i
  {
    assert LinkedRow(nodes, i);
  }

  lemma LeftOvers(nodes: Nodes, p: nat, level: seq<Entry>, live: seq<Live.ObjectNode>)
    requires forall x :: ShowsLabelledDir(nodes, level, x) <==> ListsDir(live, x)
    requires forall x :: ShowsDir(level, x) <==> ShowsLabelledDir(nodes, level, x) || exists i :: IsStrandedChild(nodes, p, x, i)
    ensures (forall x :: ShowsDir(level, x) <==> ListsDir(live, x)) <==> !exists i :: IsLeftOver(nodes, p, live, i)
  {
    hide ShowsDir, ShowsLabelledDir, ListsDir;
    if i :| IsLeftOver(nodes, p, live, i) {
      assert IsStrandedChild(nodes, p, nodes[i].name, i);
      assert ShowsDir(level, nodes[i].name) && !ListsDir(live, nodes[i].name);
    } else {
      forall x ensures ShowsDir(level, x) <==> ListsDir(live, x) {
        if i :| IsStrandedChild(nodes, p, x, i) {
          assert !IsLeftOver(nodes, p, live, i);
        }
      }
    }
  }

  lemma CachedFacts(s: Scan, nodes: Nodes, items: Items, bucket: string, listed: seq<Scanner.S3Object>, a: ScanAnswer, objects: nat,
                    res: set<nat>, rows: ChildRows, its: NodeItems)
    requires IsCached(s, nodes, items, bucket, listed, a, objects, res, rows, its)
    ensures IsBucketRun(s, nodes, items, bucket, listed, a, objects) && IsOutcome(s, nodes, items)
    ensures s.metaRes.id in res && IsSnapshot(nodes, items, res, rows, its) && Layered(nodes, rows)
    ensures WellFormedBucket(bucket) && WellFormedListing(listed)
  {
  }

  lemma LongerChain(bucket: string, q: seq<string>, x: string)
    ensures |[bucket] + q + [x]| >= 2 && ([bucket] + q + [x])[0] == bucket && ([bucket] + q + [x])[1..] == q + [x]
  {
  }

  lemma RowFacts(s: Scan, nodes: Nodes, items: Items, bucket: string, listed: seq<Scanner.S3Object>, a: ScanAnswer, objects: nat, p: nat,
                 q: seq<string>, x: string)
    requires IsBucketRun(s, nodes, items, bucket, listed, a, objects) && IsRowOf(s, nodes, bucket, q, p)
    ensures p in s.names && p in nodes && s.names[p] == [bucket] + q && s.names[p] + [x] == [bucket] + q + [x]
    ensures a.metas != [] && CleanSegments(q) && !ContainsReservedObjectSegment(q)
  {
    hide IsOutcome, IsExact, Scanner.IsScan, WellFormedListing, WellFormedBucket, Spelled, CleanSegment, Chains, Stranded;
    LabelledChain(nodes, s.names, p);
    RowsAreSpelled(s, nodes, items, bucket, listed, a, objects, s.names[p]);
    assert s.names[p][1..] == q;
    if q != [] {
      SpelledIsClean(listed, q);
    }
  }

  lemma SpelledIsClean(listed: seq<Scanner.S3Object>, q: seq<string>)
    requires WellFormedListing(listed) && Spelled(listed, q)
    ensures CleanSegments(q) && !ContainsReservedObjectSegment(q)
  {
    var o :| o in listed && SpelledBy(o, q);
    SpelledClean(o, q);
  }

  // ---- The whole tree ------------------------------------------------------------------

  /** The stored item and the listed object are the same thing. */
  ghost predicate Matches(s: Scan, items: Items, bucket: string, t: nat, o: Scanner.S3Object)
    requires t in items
  {
    && items[t].node in s.names
    && s.names[items[t].node] == [bucket] + KeySegments(o.key)[..|KeySegments(o.key)| - 1]
    && items[t].name == KeySegments(o.key)[|KeySegments(o.key)| - 1]
    && ItemEntry(items[t]).fullName == bucket + "/" + o.key && ItemEntry(items[t]).sizeBytes == o.size
  }

  lemma MatchingItem(s: Scan, items: Items, bucket: string, listed: seq<Scanner.S3Object>, t: nat) returns (o: Scanner.S3Object)
    requires WellFormedListing(listed) && t in items && items[t].node in s.names
    requires Files(items, s.names) == set o | o in CountedObjects(listed) :: FileOf(bucket, o)
    ensures o in CountedObjects(listed) && Matches(s, items, bucket, t, o)
  {
    hide KeySegments, Files;
    o := ObjectOfItem(s, items, bucket, listed, t);
    ObjectEntrySize(items[t], o, bucket);
  }

  lemma MatchingObject(s: Scan, items: Items, bucket: string, listed: seq<Scanner.S3Object>, o: Scanner.S3Object) returns (t: nat)
    requires Files(items, s.names) == set o | o in CountedObjects(listed) :: FileOf(bucket, o)
    requires o in CountedObjects(listed)
    ensures t in items && Matches(s, items, bucket, t, o)
  {
    hide KeySegments;
    assert FileOf(bucket, o) in Files(items, s.names);
    t :| t in items && items[t].node in s.names && FileOf(bucket, o) == FileView(s.names[items[t].node], items[t].name, DataOf(items[t]));
    ObjectEntrySize(items[t], o, bucket);
  }

  lemma MatchedBelow(s: Scan, nodes: Nodes, items: Items, bucket: string, p: nat, t: nat, o: Scanner.S3Object)
    requires IsOutcome(s, nodes, items) && t in items && Matches(s, items, bucket, t, o)
    requires p in s.names && p in nodes && s.names[p] == [bucket]
    ensures t in ItemsAtOrBelow(nodes, items, p)
  {
    hide Stored, RowsKept, RootsKept, ItemsKept, Chains, ItemEntry, KeySegments;
    BelowIsSubtree(nodes, items, s.roots, s.names, p, t);
    RowInScope(s, nodes, items, items[t].node);
    assert ItemRow(nodes, items, t);
    assert [bucket] <= s.names[items[t].node];
    var chain := IdChain(nodes, p);
    assert chain[|chain| - 1] == p;
  }

  lemma BelowIsNamed(s: Scan, nodes: Nodes, items: Items, p: nat, t: nat)
    requires IsOutcome(s, nodes, items) && p in s.names && p in nodes && t in ItemsAtOrBelow(nodes, items, p)
    ensures items[t].node in s.names
  {
    hide Stored, RowsKept, RootsKept, ItemsKept, Chains;
    BelowIsSubtree(nodes, items, s.roots, s.names, p, t);
    AtOrBelowMeans(nodes, items[t].node, p);
  }

  lemma AtOrBelowMeans(nodes: Nodes, i: nat, p: nat)
    requires Linked(nodes) && i in nodes && AtOrBelow(nodes, i, p)
    ensures i == p || IsProperDescendant(nodes, i, p)
  {
  }

  lemma SameMatchSameItem(s: Scan, nodes: Nodes, items: Items, bucket: string, t: nat, u: nat, o: Scanner.S3Object)
    requires IsOutcome(s, nodes, items) && t in items && u in items && Matches(s, items, bucket, t, o) && Matches(s, items, bucket, u, o)
    ensures t == u
  {
    hide Stored, RowsKept, RootsKept, ItemsKept, Chains, ItemEntry, KeySegments;
    assert ShareChain(s.names, items[t].node, items[u].node);
    assert ShareSlot(items, t, u);
  }

  /** End to end: the leaves of the bucket's rebuilt tree are the listed objects outside reserved segments.  Each object has
      exactly one leaf, under its own full name and size and in the directory that its key spells; there are no others. */
  lemma TreeRoundTrip(s: Scan, nodes: Nodes, items: Items, bucket: string, listed: seq<Scanner.S3Object>, a: ScanAnswer, objects: nat,
                      res: set<nat>, rows: ChildRows, its: NodeItems, p: nat)
    requires IsCached(s, nodes, items, bucket, listed, a, objects, res, rows, its) && IsRowOf(s, nodes, bucket, [], p)
    ensures Linked(nodes)
    ensures Objects(Level(nodes, rows, its, p)) == multiset(ItemsAtOrBelow(nodes, items, p))
    ensures Dirs(Level(nodes, rows, its, p)) == multiset(RowsBelow(nodes, p))
    ensures WellMade(nodes, items, Level(nodes, rows, its, p))
    ensures forall t :: t in ItemsAtOrBelow(nodes, items, p) ==> exists o :: o in CountedObjects(listed) && Matches(s, items, bucket, t, o)
    ensures forall o :: o in CountedObjects(listed) ==> exists t :: t in ItemsAtOrBelow(nodes, items, p) && Matches(s, items, bucket, t, o)
    ensures forall t, u, o :: t in items && u in items && Matches(s, items, bucket, t, o) && Matches(s, items, bucket, u, o) ==> t == u
  {
    hide *;
    CachedFacts(s, nodes, items, bucket, listed, a, objects, res, rows, its);
    RootRow(s, nodes, bucket, p);
    CachedParts(s, nodes, items);
    RowInScope(s, nodes, items, p);
    TreeConserves(nodes, items, res, rows, its, p);
    TreeIsWellMade(nodes, items, res, rows, its, p);
    ItemsAreListing(s, nodes, items, bucket, listed, a, objects);
    forall t | t in ItemsAtOrBelow(nodes, items, p) ensures exists o :: o in CountedObjects(listed) && t in items && Matches(s, items, bucket, t, o) {
      ItemsBelowAreItems(nodes, items, p, t);
      BelowIsNamed(s, nodes, items, p, t);
      var o := MatchingItem(s, items, bucket, listed, t);
    }
    forall o | o in CountedObjects(listed)
      ensures exists t :: t in ItemsAtOrBelow(nodes, items, p) && t in items && Matches(s, items, bucket, t, o)
    {
      var t := MatchingObject(s, items, bucket, listed, o);
      MatchedBelow(s, nodes, items, bucket, p, t, o);
    }
    forall t, u, o | t in items && u in items && Matches(s, items, bucket, t, o) && Matches(s, items, bucket, u, o) ensures t == u {
      SameMatchSameItem(s, nodes, items, bucket, t, u, o);
    }
  }

  lemma RootRow(s: Scan, nodes: Nodes, bucket: string, p: nat)
    requires IsRowOf(s, nodes, bucket, [], p)
    ensures p in s.names && p in nodes && s.names[p] == [bucket]
  {
  }

  lemma ItemsBelowAreItems(nodes: Nodes, items: Items, p: nat, t: nat)
    requires Linked(nodes) && t in ItemsAtOrBelow(nodes, items, p)
    ensures t in items
  {
  }
}

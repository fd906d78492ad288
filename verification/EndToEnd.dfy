/** From a bucket's listing to the explorer's tree: the scan, the queries and the rebuilding, one after the other. */
module EndToEnd {
  import opened Options
  import opened ObjectKeys
  import opened Sequences
  import opened MetadataForest
  import opened NodeNames
  import opened NodePlacement
  import opened Deliveries
  import opened ScanSession
  import opened ScanSteps
  import opened ScanOutcomes
  import opened ScanRuns
  import opened AutoScans
  import opened AutoOutcomes
  import opened BucketRoundTrip
  import opened BucketScans
  import opened WholeBucketRun
  import opened ExplorerTree
  import opened ExplorerContents
  import opened ExplorerQueries
  import opened CacheAgreement
  import opened ScanService
  import Scanner = ObjectStorageScanner

  // ---- What a user sees -----------------------------------------------------------

  /** An object as the tree shows it: the names of the directories it hangs under, and its own columns. */
  datatype Leaf = Leaf(dirs: seq<string>, name: string, fullName: string, sizeBytes: int)

  /** All objects of a level that hangs under the given directories, with multiplicity. */
  ghost function Leaves(dirs: seq<string>, es: seq<Entry>): multiset<Leaf>
    decreases es
  {
    if es == [] then multiset{} else LeavesOf(dirs, es[0]) + Leaves(dirs, es[1..])
  }

  ghost function LeavesOf(dirs: seq<string>, e: Entry): multiset<Leaf>
    decreases e
  {
    if e.kind.DirectoryEntry? then Leaves(dirs + [e.name], e.children) else multiset{Leaf(dirs, e.name, e.fullName, e.sizeBytes)}
  }

  /** An object as its key spells it. */
  function LeafOfKey(bucket: string, o: Scanner.S3Object): Leaf {
    var p := KeySegments(o.key);
    Leaf([bucket] + p[..|p| - 1], p[|p| - 1], bucket + "/" + o.key, o.size)
  }

  function LeavesOfKeys(bucket: string, os: seq<Scanner.S3Object>): multiset<Leaf> {
    if os == [] then multiset{} else LeavesOfKeys(bucket, os[..|os| - 1]) + multiset{LeafOfKey(bucket, os[|os| - 1])}
  }

  // ---- The tree against the tables ----------------------------------------------------

  /** Every entry of a level sits where the names of its row say. */
  ghost predicate Placed(items: Items, names: Names, dirs: seq<string>, es: seq<Entry>)
    decreases es
  {
    forall e :: e in es ==> PlacedEntry(items, names, dirs, e)
  }

  ghost predicate PlacedEntry(items: Items, names: Names, dirs: seq<string>, e: Entry)
    decreases e
  {
    match e.kind
    case DirectoryEntry => Placed(items, names, dirs + [e.name], e.children)
    case ObjectEntry => e.id in items && items[e.id].node in names && names[items[e.id].node] == dirs && e == ItemEntry(items[e.id])
  }

  lemma {:induction false} LevelPlaced(nodes: Nodes, items: Items, roots: set<nat>, names: Names, res: set<nat>, rows: ChildRows,
                                       its: NodeItems, p: nat)
    requires Linked(nodes) && ItemsPlaced(nodes, items) && IsSnapshot(nodes, items, res, rows, its) && Layered(nodes, rows)
    requires IsNaming(nodes, roots, names) && p in names && p in nodes && nodes[p].res in res
    ensures Placed(items, names, names[p], Level(nodes, rows, its, p))
    decreases Deeper(nodes, nodes[p].depth)
  {
    hide IsSnapshot, ItemsPlaced, Layered, Level, PlacedEntry, ItemEntry, Deeper, IsNaming;
    forall e | e in Level(nodes, rows, its, p) ensures PlacedEntry(items, names, names[p], e) {
      LevelIsExact(nodes, items, res, rows, its, p, e);
      if e.kind.DirectoryEntry? {
        ChildNamed(nodes, roots, names, p, e.id);
        assert LinkedRow(nodes, e.id);
        ChildDeeper(nodes, e.id, p);
        LevelPlaced(nodes, items, roots, names, res, rows, its, e.id);
      }
      EntryPlaced(nodes, items, names, rows, its, p, e);
    }
  }

  lemma EntryPlaced(nodes: Nodes, items: Items, names: Names, rows: ChildRows, its: NodeItems, p: nat, e: Entry)
    requires Layered(nodes, rows) && IsEntryOf(nodes, items, rows, its, p, e) && p in names
    requires e.kind.DirectoryEntry? ==> Placed(items, names, names[p] + [nodes[e.id].name], Level(nodes, rows, its, e.id))
    ensures PlacedEntry(items, names, names[p], e)
  {
    hide Level, Layered, ItemEntry, Placed;
  }

  /** The leaf a stored item becomes. */
  function LeafOfItem(items: Items, names: Names, t: nat): Leaf
    requires t in items && items[t].node in names
  {
    Leaf(names[items[t].node], ItemEntry(items[t]).name, ItemEntry(items[t]).fullName, ItemEntry(items[t]).sizeBytes)
  }

  ghost predicate HasLeaf(items: Items, names: Names, t: nat, l: Leaf) {
    t in items && items[t].node in names && LeafOfItem(items, names, t) == l
  }

  /** A leaf that one item alone can have shows as often as that item does. */
  lemma {:induction false} LeafCount(items: Items, names: Names, dirs: seq<string>, es: seq<Entry>, t: nat, l: Leaf)
    requires Placed(items, names, dirs, es) && HasLeaf(items, names, t, l)
    requires forall u :: HasLeaf(items, names, u, l) ==> u == t
    ensures Leaves(dirs, es)[l] == Objects(es)[t]
    decreases es
  {
    hide Leaves, LeavesOf, Objects, ObjectsOf, Placed, PlacedEntry, ItemEntry;
    NoLeaves(dirs);
    if es != [] {
      var e := es[0];
      PlacedParts(items, names, dirs, es);
      LeavesParts(dirs, es);
      LeafCount(items, names, dirs, es[1..], t, l);
      if e.kind.DirectoryEntry? {
        LeafCount(items, names, dirs + [e.name], e.children, t, l);
      }
    }
  }

  lemma NoLeaves(dirs: seq<string>)
    ensures Leaves(dirs, []) == multiset{} && Objects([]) == multiset{}
  {
  }

  lemma LeavesParts(dirs: seq<string>, es: seq<Entry>)
    requires es != []
    ensures var e := es[0];
            if e.kind.DirectoryEntry? then
              && Leaves(dirs, es) == Leaves(dirs + [e.name], e.children) + Leaves(dirs, es[1..])
              && Objects(es) == Objects(e.children) + Objects(es[1..])
            else
              && Leaves(dirs, es) == multiset{Leaf(dirs, e.name, e.fullName, e.sizeBytes)} + Leaves(dirs, es[1..])
              && Objects(es) == multiset{e.id} + Objects(es[1..])
  {
  }

  lemma PlacedParts(items: Items, names: Names, dirs: seq<string>, es: seq<Entry>)
    requires Placed(items, names, dirs, es) && es != []
    ensures Placed(items, names, dirs, es[1..])
    ensures var e := es[0];
            if e.kind.DirectoryEntry? then Placed(items, names, dirs + [e.name], e.children)
            else HasLeaf(items, names, e.id, Leaf(dirs, e.name, e.fullName, e.sizeBytes))
  {
    assert PlacedEntry(items, names, dirs, es[0]);
  }

  /** Every leaf is some item's. */
  lemma {:induction false} LeafIsItem(items: Items, names: Names, dirs: seq<string>, es: seq<Entry>, l: Leaf) returns (t: nat)
    requires Placed(items, names, dirs, es) && l in Leaves(dirs, es)
    ensures t in Objects(es) && HasLeaf(items, names, t, l)
    decreases es
  {
    var e := es[0];
    assert PlacedEntry(items, names, dirs, e);
    if l in LeavesOf(dirs, e) {
      if e.kind.DirectoryEntry? {
        t := LeafIsItem(items, names, dirs + [e.name], e.children, l);
      } else {
        t := e.id;
      }
    } else {
      t := LeafIsItem(items, names, dirs, es[1..], l);
    }
  }

  lemma SameLeafSameKey(bucket: string, o: Scanner.S3Object, p: Scanner.S3Object)
    ensures LeafOfKey(bucket, o) == LeafOfKey(bucket, p) ==> o.key == p.key
  {
    hide KeySegments;
    assert (bucket + "/" + o.key)[|bucket| + 1..] == o.key && (bucket + "/" + p.key)[|bucket| + 1..] == p.key;
  }

  /** Objects with different keys have different leaves. */
  lemma {:induction false} KeyLeafCount(bucket: string, os: seq<Scanner.S3Object>, l: Leaf)
    requires forall j, k :: 0 <= j < k < |os| ==> os[j].key != os[k].key
    ensures LeavesOfKeys(bucket, os)[l] == if exists o :: o in os && LeafOfKey(bucket, o) == l then 1 else 0
  {
    hide KeySegments;
    if os != [] {
      var front, last := os[..|os| - 1], os[|os| - 1];
      KeyLeafCount(bucket, front, l);
      FrontLast(os);
      forall o | o in front ensures LeafOfKey(bucket, o) == LeafOfKey(bucket, last) ==> o.key == last.key {
        SameLeafSameKey(bucket, o, last);
      }
    }
  }

  ghost predicate StoresKey(s: Scan, items: Items, bucket: string, t: nat, o: Scanner.S3Object) {
    t in items && Matches(s, items, bucket, t, o)
  }

  lemma MatchIsLeaf(s: Scan, items: Items, bucket: string, t: nat, o: Scanner.S3Object)
    ensures StoresKey(s, items, bucket, t, o) <==> HasLeaf(items, s.names, t, LeafOfKey(bucket, o))
  {
    hide KeySegments;
  }

  /** Items and keys match one to one. */
  ghost predicate OneToOne(s: Scan, items: Items, bucket: string, below: set<nat>, os: seq<Scanner.S3Object>) {
    && (forall t :: t in below ==> exists o :: o in os && StoresKey(s, items, bucket, t, o))
    && (forall o :: o in os ==> exists t :: t in below && StoresKey(s, items, bucket, t, o))
    && (forall t, u, o :: StoresKey(s, items, bucket, t, o) && StoresKey(s, items, bucket, u, o) ==> t == u)
  }

  lemma TreeMatches(s: Scan, nodes: Nodes, items: Items, bucket: string, listed: seq<Scanner.S3Object>, a: ScanAnswer, objects: nat,
                    res: set<nat>, rows: ChildRows, its: NodeItems, p: nat)
    requires IsCached(s, nodes, items, bucket, listed, a, objects, res, rows, its) && IsRowOf(s, nodes, bucket, [], p)
    ensures Linked(nodes) && OneToOne(s, items, bucket, ItemsAtOrBelow(nodes, items, p), CountedObjects(listed))
    ensures Objects(Level(nodes, rows, its, p)) == multiset(ItemsAtOrBelow(nodes, items, p))
  {
    hide Matches, IsCached, IsRowOf, Level, ItemsAtOrBelow, CountedObjects, Linked, Objects;
    TreeRoundTrip(s, nodes, items, bucket, listed, a, objects, res, rows, its, p);
    var below, os := ItemsAtOrBelow(nodes, items, p), CountedObjects(listed);
    forall t | t in below ensures exists o :: o in os && StoresKey(s, items, bucket, t, o) {
      ItemsBelowAreItems(nodes, items, p, t);
      var o :| o in os && Matches(s, items, bucket, t, o);
      assert StoresKey(s, items, bucket, t, o);
    }
    forall o | o in os ensures exists t :: t in below && StoresKey(s, items, bucket, t, o) {
      var t :| t in below && t in items && Matches(s, items, bucket, t, o);
      assert StoresKey(s, items, bucket, t, o);
    }
  }

  /** The round trip on what is shown: the leaves of the bucket's tree are the listed objects outside reserved segments. */
  lemma LeavesAreListing(s: Scan, nodes: Nodes, items: Items, bucket: string, listed: seq<Scanner.S3Object>, a: ScanAnswer, objects: nat,
                         res: set<nat>, rows: ChildRows, its: NodeItems, p: nat)
    requires IsCached(s, nodes, items, bucket, listed, a, objects, res, rows, its) && IsRowOf(s, nodes, bucket, [], p)
    ensures Leaves([bucket], Level(nodes, rows, its, p)) == LeavesOfKeys(bucket, CountedObjects(listed))
  {
    hide *;
    CachedFacts(s, nodes, items, bucket, listed, a, objects, res, rows, its);
    CachedParts(s, nodes, items);
    RootRow(s, nodes, bucket, p);
    RowInScope(s, nodes, items, p);
    TreeMatches(s, nodes, items, bucket, listed, a, objects, res, rows, its, p);
    LevelPlaced(nodes, items, s.roots, s.names, res, rows, its, p);
    CountedObjectsDistinct(listed);
    ShownOnce(s, items, bucket, ItemsAtOrBelow(nodes, items, p), CountedObjects(listed), Level(nodes, rows, its, p));
  }

  /** What is placed, complete and matched one to one shows every key's leaf once and no other. */
  lemma ShownOnce(s: Scan, items: Items, bucket: string, below: set<nat>, os: seq<Scanner.S3Object>, level: seq<Entry>)
    requires Placed(items, s.names, [bucket], level) && Objects(level) == multiset(below) && OneToOne(s, items, bucket, below, os)
    requires forall j, k :: 0 <= j < k < |os| ==> os[j].key != os[k].key
    ensures Leaves([bucket], level) == LeavesOfKeys(bucket, os)
  {
    hide *;
    forall l: Leaf ensures Leaves([bucket], level)[l] == LeavesOfKeys(bucket, os)[l] {
      KeyLeafCount(bucket, os, l);
      if o :| o in os && LeafOfKey(bucket, o) == l {
        var t := MatchedItem(s, items, bucket, below, os, o);
        LeafCount(items, s.names, [bucket], level, t, l);
      } else if l in Leaves([bucket], level) {
        var t := LeafIsItem(items, s.names, [bucket], level, l);
        var o := MatchedKey(s, items, bucket, below, os, t, l);
      }
    }
  }

  lemma MatchedItem(s: Scan, items: Items, bucket: string, below: set<nat>, os: seq<Scanner.S3Object>, o: Scanner.S3Object)
    returns (t: nat)
    requires OneToOne(s, items, bucket, below, os) && o in os
    ensures t in below && HasLeaf(items, s.names, t, LeafOfKey(bucket, o))
    ensures forall u :: HasLeaf(items, s.names, u, LeafOfKey(bucket, o)) ==> u == t
  {
    hide KeySegments, ItemEntry, Matches, HasLeaf, LeafOfKey;
    t :| t in below && StoresKey(s, items, bucket, t, o);
    forall u ensures HasLeaf(items, s.names, u, LeafOfKey(bucket, o)) ==> u == t {
      MatchIsLeaf(s, items, bucket, u, o);
    }
    MatchIsLeaf(s, items, bucket, t, o);
  }

  lemma MatchedKey(s: Scan, items: Items, bucket: string, below: set<nat>, os: seq<Scanner.S3Object>, t: nat, l: Leaf)
    returns (o: Scanner.S3Object)
    requires OneToOne(s, items, bucket, below, os) && t in below && HasLeaf(items, s.names, t, l)
    ensures o in os && LeafOfKey(bucket, o) == l
  {
    hide KeySegments, ItemEntry, Matches, LeafOfKey;
    o :| o in os && StoresKey(s, items, bucket, t, o);
    MatchIsLeaf(s, items, bucket, t, o);
  }

  // ---- The run -------------------------------------------------------------------------

  /** A key outside reserved segments, of an object or of a directory marker. */
  ghost predicate HasUnreservedKey(listed: seq<Scanner.S3Object>) {
    exists o :: o in listed && !HasReservedObjectSegment(o.key)
  }

  /** The scan of a bucket yields rows exactly if there is such a key. */
  lemma AnswerYields(bucket: string, listed: seq<Scanner.S3Object>, metas: seq<Scanner.ObjectMetadata>)
    requires WellFormedBucket(bucket) && WellFormedListing(listed)
    requires Scanner.IsScan(bucket, "", Scanner.Entries(bucket, listed, ""), metas)
    ensures metas != [] <==> HasUnreservedKey(listed)
  {
    hide Scanner.IsScan, Scanner.DirPaths, Scanner.CountedRows, WellFormedListing, WellFormedBucket, HasReservedObjectSegment, KeySegments,
      CountedObjects, Scanner.Entries, DirectoriesOf, Scanner.Survives, Scanner.DirRow;
    var es := Scanner.Entries(bucket, listed, "");
    CountedRowsOfKeys(bucket, listed);
    RowsAtLeast(bucket, es, metas);
    if o :| o in listed && !HasReservedObjectSegment(o.key) {
      CountedObjectsMember(listed, o);
      if IsDirKey(o.key) {
        var c := [bucket] + KeySegments(o.key);
        assert c[1..] == KeySegments(o.key);
        TreeIsSpelled(bucket, listed, metas, c);
        MarkerSpelled(o);
        NoDirectories(bucket);
      }
    }
    if metas != [] {
      if |Scanner.CountedRows(es)| == 0 {
        RowsSurvive(bucket, es, metas, metas[0]);
        DirPathsSpelled(bucket, listed, metas[0].relativePath);
      } else {
        CountedObjectsMember(listed, CountedObjects(listed)[0]);
      }
    }
  }

  lemma MarkerSpelled(o: Scanner.S3Object)
    requires IsDirKey(o.key) && !HasReservedObjectSegment(o.key)
    ensures SpelledBy(o, KeySegments(o.key))
  {
  }

  lemma RowsAtLeast(bucket: string, es: seq<Scanner.Entry>, metas: seq<Scanner.ObjectMetadata>)
    requires Scanner.IsScan(bucket, "", es, metas)
    ensures |metas| >= |Scanner.CountedRows(es)|
  {
    hide Scanner.DirPaths, Scanner.CountedRows, Scanner.Survives, Scanner.DirRow;
  }

  lemma NoDirectories(bucket: string)
    ensures DirectoriesOf(bucket, []) == {}
  {
  }

  /** Where a run that yielded anything left the row of its bucket. */
  lemma BucketRow(s: Scan, nodes: Nodes, items: Items, bucket: string, listed: seq<Scanner.S3Object>, a: ScanAnswer, objects: nat)
    returns (p: nat)
    requires IsBucketRun(s, nodes, items, bucket, listed, a, objects) && a.metas != []
    ensures IsRowOf(s, nodes, bucket, [], p)
    ensures nodes[p].id == p && nodes[p].parent == None && nodes[p].name == bucket && nodes[p].res == s.metaRes.id && nodes[p].status == Scanned
  {
    hide *;
    RunFacts(s, nodes, items, bucket, listed, a, objects);
    CachedParts(s, nodes, items);
    RowsAreSpelled(s, nodes, items, bucket, listed, a, objects, [bucket]);
    p := LabelledRowOf(nodes, s.names, bucket);
    RowInScope(s, nodes, items, p);
    NamedDepth(nodes, s.roots, s.names, p);
    TopRow(nodes, p);
    SingleName(s, nodes, items, bucket, p);
  }

  lemma LabelledRowOf(nodes: Nodes, names: Names, bucket: string) returns (p: nat)
    requires [bucket] in Chains(nodes, names)
    ensures p in names && p in nodes && !Stranded(nodes[p]) && names[p] == [bucket]
  {
    p :| p in names && p in nodes && !Stranded(nodes[p]) && names[p] == [bucket];
  }

  lemma SingleName(s: Scan, nodes: Nodes, items: Items, bucket: string, p: nat)
    requires IsOutcome(s, nodes, items) && p in s.names && p in nodes && !Stranded(nodes[p]) && s.names[p] == [bucket]
    requires nodes[p].parent == None
    ensures IsRowOf(s, nodes, bucket, [], p) && nodes[p].id == p && nodes[p].name == bucket && nodes[p].status == Scanned
  {
    hide Stored, RowsKept, RootsKept, ItemsKept, Chains, Stranded;
    assert [bucket] + [] == [bucket];
    assert NamedRow(nodes, s.roots, s.names, p) && LinkedRow(nodes, p);
    assert FinishedRow(nodes[p], s.names[p], s.log);
  }

  lemma {:induction false} GroupOfRow(nodes: Nodes, rows: ChildRows, its: NodeItems, buckets: seq<Node>, n: Node)
    requires Layered(nodes, rows) && (forall k :: 0 <= k < |buckets| ==> buckets[k].id in nodes) && n in buckets
    ensures n.id in nodes
    ensures Level(nodes, rows, its, n.id) != [] ==>
              ExplorerSchema(n.name, Level(nodes, rows, its, n.id)) in BucketGroups(nodes, rows, its, buckets)
  {
    hide Level, Layered;
    if n != buckets[|buckets| - 1] {
      GroupOfRow(nodes, rows, its, buckets[..|buckets| - 1], n);
    }
  }

  /** Every group is some row's. */
  lemma {:induction false} RowOfGroup(nodes: Nodes, rows: ChildRows, its: NodeItems, buckets: seq<Node>, g: ExplorerSchema) returns (n: Node)
    requires Layered(nodes, rows) && (forall k :: 0 <= k < |buckets| ==> buckets[k].id in nodes)
    requires g in BucketGroups(nodes, rows, its, buckets)
    ensures n in buckets && n.id in nodes && g == ExplorerSchema(n.name, Level(nodes, rows, its, n.id))
  {
    hide Level, Layered;
    var front, last := buckets[..|buckets| - 1], buckets[|buckets| - 1];
    if g in BucketGroups(nodes, rows, its, front) {
      n := RowOfGroup(nodes, rows, its, front, g);
    } else {
      n := last;
    }
  }

  /** `topNodesByResource[res.ID]`. */
  method TopNodesOf(topNodes: seq<Node>, res: nat) returns (own: seq<Node>)
    ensures forall n: Node :: n in own <==> n in topNodes && n.res == res
  {
    own := [];
    var i := 0;
    while i < |topNodes|
      invariant 0 <= i <= |topNodes|
      invariant forall n: Node :: n in own <==> n in topNodes[..i] && n.res == res
    {
      if topNodes[i].res == res {
        own := own + [topNodes[i]];
      }
      i := i + 1;
    }
  }

  /** The resource has no rows at top level but its own buckets. */
  ghost predicate OnlyOwnBuckets(nodes: Nodes, metaRes: MetaResource) {
    forall i {:trigger nodes[i]} :: i in nodes && nodes[i].parent == None && nodes[i].res == metaRes.id ==>
      nodes[i].kind == BucketNode && nodes[i].tenant == metaRes.tenant
  }

  /** Then no other row of the resource goes by a scanned bucket's name. */
  lemma OneBucketRow(s: Scan, nodes: Nodes, items: Items, bucket: string, p: nat, i: nat)
    requires IsOutcome(s, nodes, items) && OnlyOwnBuckets(s.nodes0, s.metaRes)
    requires IsRowOf(s, nodes, bucket, [], p) && nodes[p].parent == None && nodes[p].name == bucket
    requires i in nodes && nodes[i].parent == None && nodes[i].res == s.metaRes.id && nodes[i].name == bucket
    ensures i == p
  {
    hide *;
    OwnTopRow(s, nodes, items, i);
    RootRow(s, nodes, bucket, p);
    RowInScope(s, nodes, items, p);
    OwnTopRow(s, nodes, items, p);
    SameTopRow(s, nodes, items, i, p);
  }

  lemma OwnTopRow(s: Scan, nodes: Nodes, items: Items, i: nat)
    requires IsOutcome(s, nodes, items) && OnlyOwnBuckets(s.nodes0, s.metaRes)
    requires i in nodes && nodes[i].parent == None && nodes[i].res == s.metaRes.id
    ensures nodes[i].kind == BucketNode && nodes[i].tenant == s.metaRes.tenant
  {
    hide Stored, RootsKept, ItemsKept, Chains, Stranded, FinishedRow, Linked, Labelled;
    if i in s.names {
      assert NamedRow(nodes, s.roots, s.names, i);
    } else {
      assert nodes[i] == s.nodes0[i];
    }
  }

  lemma SameTopRow(s: Scan, nodes: Nodes, items: Items, i: nat, p: nat)
    requires IsOutcome(s, nodes, items) && i in nodes && p in nodes && SameAddress(nodes[i], nodes[p])
    ensures i == p
  {
    assert ShareAddress(nodes, i, p);
  }

  /** Some group of the bucket's name shows exactly the keys; every such group does. */
  ghost predicate Shows(schemas: seq<ExplorerSchema>, bucket: string, os: seq<Scanner.S3Object>) {
    exists g :: g in schemas && g.name == bucket && Leaves([bucket], g.tables) == LeavesOfKeys(bucket, os)
  }

  ghost predicate ShowsNothingElse(schemas: seq<ExplorerSchema>, bucket: string, os: seq<Scanner.S3Object>) {
    forall g :: g in schemas && g.name == bucket ==> Leaves([bucket], g.tables) == LeavesOfKeys(bucket, os)
  }

  /** What the explorer queried, and the top rows of the resource in it. */
  ghost predicate IsQueried(nodes: Nodes, items: Items, metaRes: MetaResource, top: seq<Node>, own: seq<Node>, childNodes: seq<Node>,
                            itemRows: seq<Item>)
  {
    && ListsTop(nodes, top) && (forall n: Node :: n in own <==> n in top && n.res == metaRes.id)
    && ListsRows(nodes, set n | n in top :: n.res, childNodes) && ListsItems(items, set n | n in top :: n.res, itemRows)
  }

  lemma QueriedRows(nodes: Nodes, items: Items, metaRes: MetaResource, top: seq<Node>, own: seq<Node>, childNodes: seq<Node>, itemRows: seq<Item>)
    requires IsQueried(nodes, items, metaRes, top, own, childNodes, itemRows)
    ensures forall n :: n in own ==> n.id in nodes && nodes[n.id] == n && n.parent == None && n.res == metaRes.id
    ensures forall k :: 0 <= k < |own| ==> own[k].id in nodes
  {
    forall k | 0 <= k < |own| ensures own[k].id in nodes {
      assert own[k] in own;
    }
  }

  lemma GroupShows(s: Scan, nodes: Nodes, items: Items, bucket: string, listed: seq<Scanner.S3Object>, a: ScanAnswer, objects: nat,
                   top: seq<Node>, own: seq<Node>, childNodes: seq<Node>, itemRows: seq<Item>)
    requires IsBucketRun(s, nodes, items, bucket, listed, a, objects) && a.metas != []
    requires IsQueried(nodes, items, s.metaRes, top, own, childNodes, itemRows)
    requires Layered(nodes, RowsByParent(childNodes)) && forall k :: 0 <= k < |own| ==> own[k].id in nodes
    ensures var groups := BucketGroups(nodes, RowsByParent(childNodes), ItemsByNode(itemRows), own);
            && (CountedObjects(listed) != [] ==> Shows(groups, bucket, CountedObjects(listed)))
            && (OnlyOwnBuckets(s.nodes0, s.metaRes) ==> ShowsNothingElse(groups, bucket, CountedObjects(listed)))
  {
    hide *;
    var res, rows, its := set n | n in top :: n.res, RowsByParent(childNodes), ItemsByNode(itemRows);
    var groups := BucketGroups(nodes, rows, its, own);
    RunFacts(s, nodes, items, bucket, listed, a, objects);
    var p := BucketRow(s, nodes, items, bucket, listed, a, objects);
    RootRow(s, nodes, bucket, p);
    QueriedRows(nodes, items, s.metaRes, top, own, childNodes, itemRows);
    BucketQueried(nodes, items, s.metaRes, top, own, childNodes, itemRows, nodes[p]);
    NowCached(s, nodes, items, bucket, listed, a, objects, res, rows, its);
    LeavesAreListing(s, nodes, items, bucket, listed, a, objects, res, rows, its, p);
    GroupOfRow(nodes, rows, its, own, nodes[p]);
    if CountedObjects(listed) != [] {
      ShownGroup(bucket, CountedObjects(listed), groups, Level(nodes, rows, its, p));
    }
    if OnlyOwnBuckets(s.nodes0, s.metaRes) {
      forall g | g in groups && g.name == bucket ensures Leaves([bucket], g.tables) == LeavesOfKeys(bucket, CountedObjects(listed)) {
        var n := RowOfGroup(nodes, rows, its, own, g);
        OneBucketRow(s, nodes, items, bucket, p, n.id);
      }
      NothingElse(groups, bucket, CountedObjects(listed));
    }
  }

  lemma NothingElse(groups: seq<ExplorerSchema>, bucket: string, os: seq<Scanner.S3Object>)
    requires forall g :: g in groups && g.name == bucket ==> Leaves([bucket], g.tables) == LeavesOfKeys(bucket, os)
    ensures ShowsNothingElse(groups, bucket, os)
  {
  }

  lemma BucketQueried(nodes: Nodes, items: Items, metaRes: MetaResource, top: seq<Node>, own: seq<Node>, childNodes: seq<Node>,
                      itemRows: seq<Item>, n: Node)
    requires IsQueried(nodes, items, metaRes, top, own, childNodes, itemRows)
    requires n.id in nodes && nodes[n.id] == n && n.parent == None && n.status == Scanned && n.res == metaRes.id
    ensures n in own && metaRes.id in set n | n in top :: n.res
    ensures IsSnapshot(nodes, items, set n | n in top :: n.res, RowsByParent(childNodes), ItemsByNode(itemRows))
  {
    hide ListsRows, ListsItems, IsSnapshot, RowsByParent, ItemsByNode;
    assert n in top;
    GroupedSnapshot(nodes, items, set n | n in top :: n.res, childNodes, itemRows);
  }

  lemma NowCached(s: Scan, nodes: Nodes, items: Items, bucket: string, listed: seq<Scanner.S3Object>, a: ScanAnswer, objects: nat,
                  res: set<nat>, rows: ChildRows, its: NodeItems)
    requires IsBucketRun(s, nodes, items, bucket, listed, a, objects)
    requires s.metaRes.id in res && IsSnapshot(nodes, items, res, rows, its) && Layered(nodes, rows)
    ensures IsCached(s, nodes, items, bucket, listed, a, objects, res, rows, its)
  {
  }

  lemma ShownGroup(bucket: string, os: seq<Scanner.S3Object>, groups: seq<ExplorerSchema>, level: seq<Entry>)
    requires os != [] && Leaves([bucket], level) == LeavesOfKeys(bucket, os)
    requires level != [] ==> ExplorerSchema(bucket, level) in groups
    ensures Shows(groups, bucket, os)
  {
    hide LeafOfKey;
    assert LeafOfKey(bucket, os[|os| - 1]) in LeavesOfKeys(bucket, os);
    if level != [] {
      assert ExplorerSchema(bucket, level) in groups;
    }
  }

  /** Of the buckets an automatic scan takes on, those with well-formed keys yield a row exactly if some key is unreserved, and what it
      counts in them are the unreserved objects. */
  lemma TakenYields(nodes: Nodes, items: Items, metaRes: MetaResource, scanner: Scanner.S3Scanner, bucket: string)
    requires WellFormedBucket(bucket) && bucket in scanner.allowedBucket && WellFormedListing(Scanner.BucketContents(scanner, bucket))
    requires BucketTaken(nodes, items, metaRes, scanner, bucket)
    ensures YieldsNothing(scanner, bucket) <==> !HasUnreservedKey(Scanner.BucketContents(scanner, bucket))
    ensures ObjectsIn(scanner, bucket) == |CountedObjects(Scanner.BucketContents(scanner, bucket))|
  {
    hide WellFormedListing, Scanner.BucketContents, YieldsNothing, IsOutcome, IsExact, Scanner.IsScan, Scanner.IsScanAnswer, Kept,
      HasUnreservedKey, Scanner.Entries, CleanSegment, BatchOf, CountedObjects, ObjectCount, ScanState.Consistent, Scanner.CountedRows;
    var s, nodes1, items1, a, objects :| LeftBy(s, nodes1, items1, a, objects, nodes, items, metaRes, scanner, bucket);
    var listed := Scanner.BucketContents(scanner, bucket);
    BucketReport(scanner, bucket, a);
    WholeBucketAnswer(scanner, bucket, a);
    AnswerNamesBucket(scanner, bucket, a);
    BatchOfBucket(bucket, a);
    AnswerYields(bucket, listed, a.metas);
    CountedIsObjectCount(bucket, listed);
    CountedRowsOfKeys(bucket, listed);
    if !HasUnreservedKey(listed) {
      NothingCounted(listed);
    }
  }

  lemma NothingCounted(listed: seq<Scanner.S3Object>)
    requires !HasUnreservedKey(listed)
    ensures CountedObjects(listed) == []
  {
    hide CountedObjects;
    if CountedObjects(listed) != [] {
      CountedObjectsMember(listed, CountedObjects(listed)[0]);
    }
  }

  /** Two runs over one listing leave the same directories and files, attributes included, whatever order the scanner emitted its
      directories in and whatever the tables held before. */
  lemma SameListingSameTrees(s: Scan, nodes: Nodes, items: Items, a: ScanAnswer, objects: nat,
                             s': Scan, nodes': Nodes, items': Items, a': ScanAnswer, objects': nat,
                             bucket: string, listed: seq<Scanner.S3Object>)
    requires IsBucketRun(s, nodes, items, bucket, listed, a, objects) && IsBucketRun(s', nodes', items', bucket, listed, a', objects')
    ensures objects == objects'
    ensures Directories(nodes, s.names) == Directories(nodes', s'.names) && Files(items, s.names) == Files(items', s'.names)
  {
    hide *;
    RunFacts(s, nodes, items, bucket, listed, a, objects);
    RunFacts(s', nodes', items', bucket, listed, a', objects');
    BucketRunLog(s, nodes, items, bucket, listed, a, objects);
    BucketRunLog(s', nodes', items', bucket, listed, a', objects');
    OrderIrrelevant(bucket, listed, a.metas, a'.metas);
    AnswerYields(bucket, listed, a.metas);
    AnswerYields(bucket, listed, a'.metas);
    LabelsAreOwn(s, nodes, items, bucket, listed, a, objects);
    LabelsAreOwn(s', nodes', items', bucket, listed, a', objects');
    LabelKeys(s.nodes, s.names);
    LabelKeys(s'.nodes, s'.names);
    OwnTablesEqual(bucket, Labels(s.nodes, s.names), Labels(s'.nodes, s'.names));
    HistoryFree(s, nodes, items, s', nodes', items');
  }

  /** A bucket is scanned and the explorer rebuilt, with a store that works.  Whatever the tables held before, the tree shows
      exactly the objects listed outside reserved segments, each once, in the directories its key spells and with its size; for a
      listing of markers alone, none.  A bucket with no key outside reserved segments leaves every table as it was, and so the
      tree of a bucket gone empty as well. */
  method ScanThenBrowse(service: ScanServiceNew, repository: MetadataRepository, metaRes: MetaResource, scanner: Scanner.S3Scanner, bucket: string)
    returns (schemas: seq<ExplorerSchema>)
    requires service.db.Inv() && service.db.reliable && repository.db == service.db
    requires WellFormedBucket(bucket) && bucket in scanner.allowedBucket && WellFormedListing(Scanner.BucketContents(scanner, bucket))
    modifies service.db
    ensures service.db.Inv()
    ensures CountedObjects(Scanner.BucketContents(scanner, bucket)) != [] ==>
              Shows(schemas, bucket, CountedObjects(Scanner.BucketContents(scanner, bucket)))
    ensures HasUnreservedKey(Scanner.BucketContents(scanner, bucket)) && OnlyOwnBuckets(old(service.db.nodes), metaRes) ==>
              ShowsNothingElse(schemas, bucket, CountedObjects(Scanner.BucketContents(scanner, bucket)))
    ensures !HasUnreservedKey(Scanner.BucketContents(scanner, bucket)) ==>
              service.db.nodes == old(service.db.nodes) && service.db.items == old(service.db.items)
  {
    hide *;
    service.db.InvMeans();
    var r, buckets, objects, answers, s, touched := service.ScanObjectStoragePaths(metaRes, scanner, [bucket]);
    ghost var db, listed := service.db, Scanner.BucketContents(scanner, bucket);
    RunCompletes(scanner, bucket, answers, r);
    BucketRunCompleted(s, db.nodes, db.items, scanner, bucket, answers, objects);
    db.InvMeans();
    var topNodes, childNodes, items := repository.ListScannedNodesAndItems();
    var own := TopNodesOf(topNodes, metaRes.id);
    OutcomeLinked(s, db.nodes, db.items, bucket, listed, answers[0], objects);
    ghost var res := set n | n in topNodes :: n.res;
    GroupedSnapshot(db.nodes, db.items, res, childNodes, items);
    SnapshotLayered(db.nodes, db.items, res, RowsByParent(childNodes), ItemsByNode(items));
    NowQueried(db.nodes, db.items, metaRes, topNodes, own, childNodes, items);
    QueriedRows(db.nodes, db.items, metaRes, topNodes, own, childNodes, items);
    schemas := ListBucketTrees(own, childNodes, items, db.nodes);
    RunFacts(s, db.nodes, db.items, bucket, listed, answers[0], objects);
    AnswerYields(bucket, listed, answers[0].metas);
    if answers[0].metas != [] {
      GroupShows(s, db.nodes, db.items, bucket, listed, answers[0], objects, topNodes, own, childNodes, items);
    } else {
      NoBatch(answers[0]);
      NothingChanged(s, db.nodes, db.items, answers[0], objects);
    }
    CountedIsUnreserved(listed);
  }

  lemma NoBatch(a: ScanAnswer)
    requires a.Metas? && a.metas == []
    ensures BatchOf(a) == []
  {
  }

  lemma CountedIsUnreserved(listed: seq<Scanner.S3Object>)
    ensures CountedObjects(listed) != [] ==> HasUnreservedKey(listed)
  {
    hide HasReservedObjectSegment;
    if CountedObjects(listed) != [] {
      CountedObjectsMember(listed, CountedObjects(listed)[0]);
    }
  }

  lemma NowQueried(nodes: Nodes, items: Items, metaRes: MetaResource, top: seq<Node>, own: seq<Node>, childNodes: seq<Node>, itemRows: seq<Item>)
    requires ListsTop(nodes, top) && forall n: Node :: n in own <==> n in top && n.res == metaRes.id
    requires ListsRows(nodes, set n | n in top :: n.res, childNodes) && ListsItems(items, set n | n in top :: n.res, itemRows)
    ensures IsQueried(nodes, items, metaRes, top, own, childNodes, itemRows)
  {
  }

  lemma RunCompletes(scanner: Scanner.S3Scanner, bucket: string, answers: seq<ScanAnswer>, r: RunResult)
    requires WellFormedBucket(bucket) && bucket in scanner.allowedBucket && WellFormedListing(Scanner.BucketContents(scanner, bucket))
    requires Answered(scanner, [bucket], answers)
    requires r.ScannerPanicked? <==> EndsInPanic(answers)
    requires !r.StoreFailed?
    ensures r.Completed?
  {
    hide WellFormedListing, WellFormedBucket, Scanner.IsScanAnswer, Scanner.BucketContents;
    if answers != [] {
      assert Scanner.IsScanAnswer(scanner, [bucket][0], answers[0]);
      WholeBucketAnswer(scanner, bucket, answers[0]);
    }
  }

  lemma OutcomeLinked(s: Scan, nodes: Nodes, items: Items, bucket: string, listed: seq<Scanner.S3Object>, a: ScanAnswer, objects: nat)
    requires IsBucketRun(s, nodes, items, bucket, listed, a, objects)
    ensures Linked(nodes)
  {
  }
}

/** Paths on their way back: shown by the explorer, sent back by the browser, and looked up in the item table. */
module PathRoundTrips {
  import opened GoStrings
  import opened ObjectKeys
  import opened MetadataForest
  import opened ScanSession
  import opened ScanRuns
  import opened ScanOutcomes
  import opened BucketScans
  import opened BucketRoundTrip
  import opened WholeBucketRun
  import opened ExplorerTree
  import opened CacheAgreement
  import Scanner = ObjectStorageScanner

  // ---- From the explorer to the preview ---------------------------------------------

  /** A node of the browser's tree. */
  datatype UiNode = UiNode(kind: EntryKind, caption: string, schema: string, table: string, path: string, fullName: string, children: seq<UiNode>)

  /** The path `transformTableNode` gives an entry of an object store. */
  function ExplorerPath(schemaName: string, fullName: string): string {
    if fullName != "" && HasPrefix(fullName, schemaName + "/") then fullName[|schemaName| + 1..] else fullName
  }

  /** `transformTableNode`, for object storage. */
  function TransformTableNode(schemaName: string, e: Entry): UiNode {
    var path := ExplorerPath(schemaName, e.fullName);
    UiNode(e.kind, e.name, schemaName, path, path, e.fullName, TransformAll(schemaName, e.children))
  }

  function TransformAll(schemaName: string, es: seq<Entry>): (r: seq<UiNode>)
    ensures |r| == |es|
    ensures forall k :: 0 <= k < |es| ==> r[k].fullName == es[k].fullName && r[k].caption == es[k].name && r[k].kind == es[k].kind
  {
    if es == [] then [] else [TransformTableNode(schemaName, es[0])] + TransformAll(schemaName, es[1..])
  }

  /** `previewObjectStorage` makes this of the path it is sent. */
  function PreviewPath(bucket: string, path: string): string {
    var objectPath := TrimSlashes(path);
    if HasPrefix(objectPath, bucket + "/") then TrimPrefix(objectPath, bucket + "/") else objectPath
  }

  /** The condition of `GetObjectMetadataItem`. */
  predicate IsLookedUp(it: Item, bucket: string, objectPath: string) {
    && it.kind == ObjectItem
    && "bucket" in it.attrs && it.attrs["bucket"] == bucket
    && (("path" in it.attrs && it.attrs["path"] == objectPath) || ("relative_path" in it.attrs && it.attrs["relative_path"] == objectPath))
  }

  lemma KeyTrimmed(key: string)
    requires WellFormedKey(key) && !IsDirKey(key)
    ensures TrimSlashes(key) == key != ""
  {
    KeyFacts(key);
  }

  /** What the preview looks up for an object of this key. */
  function SentFor(bucket: string, key: string): string {
    PreviewPath(bucket, ExplorerPath(bucket, bucket + "/" + key))
  }

  /** The full name of an object, made a path by the explorer and normalised by the preview, is the object's key again
      if and only if the key does not itself start with the bucket's name and a slash; else it has lost them. */
  lemma PreviewFindsKey(bucket: string, key: string)
    requires CleanSegment(bucket) && WellFormedKey(key) && !IsDirKey(key)
    ensures ExplorerPath(bucket, bucket + "/" + key) == key
    ensures SentFor(bucket, key) == if HasPrefix(key, bucket + "/") then key[|bucket| + 1..] else key
    ensures SentFor(bucket, key) == key <==> !HasPrefix(key, bucket + "/")
  {
    hide Split, CleanSegment, WellFormedKey;
    KeyTrimmed(key);
    assert bucket + "/" + key == (bucket + "/") + key;
  }

  /** The item a scan stores for a key. */
  predicate IsItemOfKey(it: Item, bucket: string, key: string) {
    it.kind == ObjectItem && it.attrs == map["bucket" := bucket, "path" := bucket + "/" + key, "relative_path" := key]
  }

  /** An object's preview finds the object's own item if and only if its key does not start with the bucket's name and a slash. */
  lemma OwnItemLookedUp(it: Item, bucket: string, key: string)
    requires CleanSegment(bucket) && WellFormedKey(key) && !IsDirKey(key) && IsItemOfKey(it, bucket, key)
    ensures IsLookedUp(it, bucket, SentFor(bucket, key)) <==> !HasPrefix(key, bucket + "/")
  {
    hide CleanSegment, WellFormedKey, SentFor;
    PreviewFindsKey(bucket, key);
    assert |bucket + "/" + key| == |bucket| + 1 + |key|;
  }

  /** Any other item it can find is of a key that completes the bucket's name, once or twice, to that key. */
  lemma OtherItemLookedUp(it: Item, bucket: string, other: string, key: string)
    requires CleanSegment(bucket) && WellFormedKey(key) && !IsDirKey(key) && IsItemOfKey(it, bucket, other) && other != key
    ensures IsLookedUp(it, bucket, SentFor(bucket, key)) <==>
              key == bucket + "/" + other || key == bucket + "/" + (bucket + "/" + other)
  {
    hide CleanSegment, WellFormedKey, SentFor;
    PreviewFindsKey(bucket, key);
    var p := bucket + "/";
    assert p + other == bucket + "/" + other && p + (p + other) == bucket + "/" + (bucket + "/" + other);
    if HasPrefix(key, p) {
      assert key == p + key[|bucket| + 1..];
    }
    if HasPrefix(p + other, p) {
      assert (p + other)[|p|..] == other && (p + (p + other))[|p|..] == p + other;
    }
  }

  /** An object is found under its own bucket only, by its key, alone or behind the name of the bucket. */
  lemma LookedUpByBucketAndKey(it: Item, bucket: string, otherBucket: string, other: string, objectPath: string)
    requires IsItemOfKey(it, otherBucket, other)
    ensures IsLookedUp(it, bucket, objectPath) <==> bucket == otherBucket && objectPath in {other, bucket + "/" + other}
  {
  }

  /** It happens: in a bucket "b" the preview of "b/x" shows the object "x". */
  lemma WrongObjectShown(own: Item, other: Item)
    requires IsItemOfKey(own, "b", "b/x") && IsItemOfKey(other, "b", "x")
    ensures !IsLookedUp(own, "b", SentFor("b", "b/x")) && IsLookedUp(other, "b", SentFor("b", "b/x"))
  {
    hide SentFor;
    WitnessKey();
    assert "b/x" == "b" + "/" + "x";
    assert HasPrefix("b/x", "b" + "/");
    OwnItemLookedUp(own, "b", "b/x");
    OtherItemLookedUp(other, "b", "x", "b/x");
  }

  lemma WitnessKey()
    ensures CleanSegment("b") && WellFormedKey("b/x") && !IsDirKey("b/x")
  {
    assert "b/x"[|"b/x"| - 1..] == "x";
    assert TrimSuffix("b/x", "/") == "b/x";
    SplitSlashFree("b");
    SplitSlashFree("x");
    SplitConcat("b", "x");
    assert "b/x" == "b" + "/" + "x";
    TrimSpaceIdentity("b");
    TrimSpaceIdentity("x");
  }

  /** The item of key o is the only one the lookup can return for it. */
  lemma LookupIsExact(s: Scan, items: Items, bucket: string, listed: seq<Scanner.S3Object>, o: Scanner.S3Object, t: nat)
    requires CleanSegment(bucket) && WellFormedListing(listed) && o in CountedObjects(listed) && !HasPrefix(o.key, bucket + "/")
    requires t in items && items[t].node in s.names && items[t].kind == ObjectItem
    requires Files(items, s.names) == set o | o in CountedObjects(listed) :: FileOf(bucket, o)
    ensures IsLookedUp(items[t], bucket, o.key) <==> DataOf(items[t]) == KeyDelivery(bucket, o).data
  {
    hide KeySegments, Files, WellFormedListing, KeyDelivery;
    var p := ObjectOfItem(s, items, bucket, listed, t);
    KeyAttributes(bucket, p);
    LookedUpByKey(items[t], bucket, p.key, o.key);
    if p.key == o.key {
      SameKeySameObject(listed, o, p);
    } else if DataOf(items[t]) == KeyDelivery(bucket, o).data {
      FullNamesDiffer(bucket, o, p);
    }
  }

  lemma KeyAttributes(bucket: string, o: Scanner.S3Object)
    ensures KeyDelivery(bucket, o).data.attrs == map["bucket" := bucket, "path" := bucket + "/" + o.key, "relative_path" := o.key]
  {
  }

  lemma LookedUpByKey(it: Item, bucket: string, key: string, wanted: string)
    requires it.kind == ObjectItem && !HasPrefix(wanted, bucket + "/")
    requires it.attrs == map["bucket" := bucket, "path" := bucket + "/" + key, "relative_path" := key]
    ensures IsLookedUp(it, bucket, wanted) <==> key == wanted
  {
    assert bucket + "/" + key == (bucket + "/") + key;
  }

  lemma FullNamesDiffer(bucket: string, o: Scanner.S3Object, p: Scanner.S3Object)
    requires KeyDelivery(bucket, o).data == KeyDelivery(bucket, p).data
    ensures o.key == p.key
  {
    hide KeySegments;
    assert KeyDelivery(bucket, o).data.attrs["relative_path"] == o.key;
    assert KeyDelivery(bucket, p).data.attrs["relative_path"] == p.key;
  }

  /** An object item of the scanned trees. */
  ghost predicate IsScannedObject(s: Scan, items: Items, t: nat) {
    t in items && items[t].node in s.names && items[t].kind == ObjectItem
  }

  /** What the preview looks up for the explorer's entry of an item. */
  function SentForEntry(bucket: string, it: Item): string {
    PreviewPath(bucket, TransformTableNode(bucket, ItemEntry(it)).path)
  }

  /** Of the scanned trees' items, the path sent for an item meets it and nothing else. */
  ghost predicate LeadsOnlyTo(s: Scan, items: Items, bucket: string, t: nat)
    requires t in items
  {
    forall u :: IsScannedObject(s, items, u) ==> (IsLookedUp(items[u], bucket, SentForEntry(bucket, items[t])) <==> u == t)
  }

  /** `GetObjectMetadataItem` answers item t: the first, by id, of all items of the resource that meet its condition. */
  ghost predicate IsAnswered(items: Items, res: nat, bucket: string, objectPath: string, t: nat) {
    && IsMet(items, res, bucket, objectPath, t)
    && forall u :: IsMet(items, res, bucket, objectPath, u) ==> t <= u
  }

  ghost predicate IsMet(items: Items, res: nat, bucket: string, objectPath: string, t: nat) {
    t in items && items[t].res == res && IsLookedUp(items[t], bucket, objectPath)
  }

  /** From a leaf of the explorer to its row: of the items of the scanned trees, the path sent for an object entry of the rebuilt
      tree meets that very item and no other if and only if the key does not start with the bucket's name and a slash.  Of all
      items of the resource, it is the one answered if and only if, besides, no item outside the scanned trees that carries the
      bucket's name and the key has a smaller id. */
  lemma LeafLeadsToItem(s: Scan, nodes: Nodes, items: Items, bucket: string, listed: seq<Scanner.S3Object>, a: ScanAnswer,
      objects: nat, t: nat)
    requires IsBucketRun(s, nodes, items, bucket, listed, a, objects)
    requires IsScannedObject(s, items, t)
    ensures exists o ::
              && o in CountedObjects(listed) && Matches(s, items, bucket, t, o)
              && (LeadsOnlyTo(s, items, bucket, t) <==> !HasPrefix(o.key, bucket + "/"))
              && (IsAnswered(items, s.metaRes.id, bucket, SentForEntry(bucket, items[t]), t) <==>
                    !HasPrefix(o.key, bucket + "/") && NoneBefore(s, items, bucket, o.key, t))
  {
    hide KeySegments, Files, WellFormedListing, Scanner.IsScan, IsOutcome, IsExact, CleanSegment, Scanner.Entries, KeyDelivery, Matches,
      ItemEntry, IsLookedUp, SentFor, SentForEntry, IsAnswered, NoneBefore;
    ItemsAreListing(s, nodes, items, bucket, listed, a, objects);
    var o := MatchingItem(s, items, bucket, listed, t);
    CountedKey(listed, o);
    BucketIsClean(bucket);
    SentForItem(s, items, bucket, t, o);
    ItemOfMatch(s, items, bucket, listed, t, o);
    OwnItemLookedUp(items[t], bucket, o.key);
    if !HasPrefix(o.key, bucket + "/") {
      PreviewFindsKey(bucket, o.key);
      forall u | IsScannedObject(s, items, u) ensures IsLookedUp(items[u], bucket, SentFor(bucket, o.key)) <==> u == t {
        LookupIsExact(s, items, bucket, listed, o, u);
        SameDataSameItem(s, nodes, items, bucket, listed, t, u, o);
      }
      AnsweredIfFirst(s, nodes, items, bucket, o.key, t);
    } else {
      NotMetNotAnswered(items, s.metaRes.id, bucket, SentFor(bucket, o.key), t);
    }
  }

  /** No item outside the scanned trees that the lookup of this path meets comes before item t. */
  ghost predicate NoneBefore(s: Scan, items: Items, bucket: string, objectPath: string, t: nat) {
    forall u :: IsMet(items, s.metaRes.id, bucket, objectPath, u) && items[u].node !in s.names ==> t <= u
  }

  lemma AnsweredIfFirst(s: Scan, nodes: Nodes, items: Items, bucket: string, objectPath: string, t: nat)
    requires IsOutcome(s, nodes, items) && IsScannedObject(s, items, t)
    requires forall u :: IsScannedObject(s, items, u) ==> (IsLookedUp(items[u], bucket, objectPath) <==> u == t)
    ensures IsAnswered(items, s.metaRes.id, bucket, objectPath, t) <==> NoneBefore(s, items, bucket, objectPath, t)
  {
    hide IsOutcome, IsLookedUp, ScanState.Consistent, IsAnswered, NoneBefore;
    ItemInScope(s, nodes, items, t);
    assert IsScannedObject(s, items, t);
    forall u | IsMet(items, s.metaRes.id, bucket, objectPath, u) && items[u].node in s.names ensures u == t {
      LookedUpKind(items[u], bucket, objectPath);
      assert IsScannedObject(s, items, u);
    }
    FirstOfAll(s, items, bucket, objectPath, t);
  }

  lemma LookedUpKind(it: Item, bucket: string, objectPath: string)
    requires IsLookedUp(it, bucket, objectPath)
    ensures it.kind == ObjectItem
  {
  }

  lemma FirstOfAll(s: Scan, items: Items, bucket: string, objectPath: string, t: nat)
    requires IsMet(items, s.metaRes.id, bucket, objectPath, t)
    requires forall u :: IsMet(items, s.metaRes.id, bucket, objectPath, u) && items[u].node in s.names ==> u == t
    ensures IsAnswered(items, s.metaRes.id, bucket, objectPath, t) <==> NoneBefore(s, items, bucket, objectPath, t)
  {
    hide IsLookedUp, ScanState.Consistent;
  }

  lemma NotMetNotAnswered(items: Items, res: nat, bucket: string, objectPath: string, t: nat)
    requires t in items && !IsLookedUp(items[t], bucket, objectPath)
    ensures !IsAnswered(items, res, bucket, objectPath, t)
  {
  }

  /** The items of the scanned trees are the resource's. */
  lemma ItemInScope(s: Scan, nodes: Nodes, items: Items, t: nat)
    requires IsOutcome(s, nodes, items) && t in items && items[t].node in s.names
    ensures items[t].res == s.metaRes.id
  {
    RowInScope(s, nodes, items, items[t].node);
    CachedParts(s, nodes, items);
    hide IsOutcome;
    assert ItemRow(nodes, items, t);
  }

  lemma SentForItem(s: Scan, items: Items, bucket: string, t: nat, o: Scanner.S3Object)
    requires t in items && Matches(s, items, bucket, t, o)
    ensures SentForEntry(bucket, items[t]) == SentFor(bucket, o.key)
  {
    hide KeySegments, PreviewPath, ExplorerPath;
  }

  lemma ItemOfMatch(s: Scan, items: Items, bucket: string, listed: seq<Scanner.S3Object>, t: nat, o: Scanner.S3Object)
    requires IsScannedObject(s, items, t) && Matches(s, items, bucket, t, o) && WellFormedListing(listed)
    requires Files(items, s.names) == set o | o in CountedObjects(listed) :: FileOf(bucket, o)
    ensures IsItemOfKey(items[t], bucket, o.key)
  {
    hide KeySegments, Files, WellFormedListing, KeyDelivery, Matches;
    var q := ObjectOfItem(s, items, bucket, listed, t);
    MatchedSameKey(s, items, bucket, t, o, q);
    KeyAttributes(bucket, q);
  }

  lemma CountedKey(listed: seq<Scanner.S3Object>, o: Scanner.S3Object)
    requires WellFormedListing(listed) && o in CountedObjects(listed)
    ensures WellFormedKey(o.key) && !IsDirKey(o.key)
  {
    CountedObjectsMember(listed, o);
  }

  lemma SameDataSameItem(s: Scan, nodes: Nodes, items: Items, bucket: string, listed: seq<Scanner.S3Object>, t: nat, u: nat, o: Scanner.S3Object)
    requires IsOutcome(s, nodes, items) && WellFormedListing(listed) && o in CountedObjects(listed)
    requires Files(items, s.names) == set o | o in CountedObjects(listed) :: FileOf(bucket, o)
    requires t in items && Matches(s, items, bucket, t, o) && u in items && items[u].node in s.names
    ensures DataOf(items[u]) == KeyDelivery(bucket, o).data <==> u == t
  {
    hide KeySegments, Files, WellFormedListing, IsOutcome;
    var p := ObjectOfItem(s, items, bucket, listed, u);
    var q := ObjectOfItem(s, items, bucket, listed, t);
    MatchedSameKey(s, items, bucket, t, o, q);
    SameKeySameObject(listed, o, q);
    if DataOf(items[u]) == KeyDelivery(bucket, o).data {
      FullNamesDiffer(bucket, o, p);
      SameKeySameObject(listed, o, p);
      ObjectEntrySize(items[u], o, bucket);
      SameMatchSameItem(s, nodes, items, bucket, t, u, o);
    }
  }

  lemma MatchedSameKey(s: Scan, items: Items, bucket: string, t: nat, o: Scanner.S3Object, q: Scanner.S3Object)
    requires t in items && Matches(s, items, bucket, t, o) && DataOf(items[t]) == KeyDelivery(bucket, q).data
    ensures o.key == q.key
  {
    hide KeySegments;
    ObjectEntrySize(items[t], q, bucket);
    var prefix := bucket + "/";
    assert prefix + o.key == prefix + q.key;
    assert (prefix + o.key)[|prefix|..] == o.key && (prefix + q.key)[|prefix|..] == q.key;
  }
}

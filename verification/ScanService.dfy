/** The scan service: upserts of rows, and the loops that turn scanned metadata into a forest of directories with
    counters kept in memory along the way. */
module ScanService {
  import opened Options
  import opened GoStrings
  import opened ObjectKeys
  import opened MetadataForest
  import opened MetadataStore
  import opened NodePlacement
  import opened Deliveries
  import opened ScanSession
  import opened ScanSteps
  import opened ScanBuckets
  import opened ScanRuns
  import opened SchemaScans
  import opened AutoScans
  import opened AutoOutcomes
  import Scanner = ObjectStorageScanner

  datatype Result<+T> = Ok(value: T) | StoreError

  // ---- A creation ----------------------------------------------------------------------

  /** The keys let in a row whose name is free. */
  lemma FreeAllows(nodes: Nodes, row: Node, metaRes: MetaResource, parent: Option<Node>, kind: NodeKind, name: string)
    requires row.parent == ParentId(parent) && row.res == metaRes.id && row.name == name
    requires forall i :: i in nodes ==> !AtAddress(nodes[i], metaRes, ParentId(parent), kind, name)
    ensures NameFree(nodes, metaRes, parent, kind, name) ==> KeysAllow(nodes, row)
  {
  }

  /** A created row is stranded until its labels are written, and upserted from then on. */
  lemma CreatedRow(nodes: Nodes, created: Node, node: Node, metaRes: MetaResource, parent: Option<Node>, kind: NodeKind, name: string,
                   fullName: string)
    requires created.tenant == metaRes.tenant && created.res == metaRes.id && created.kind == kind && created.name == name
    requires created.parent == ParentId(parent) && created.depth == DepthBelow(parent) && created.path == ""
    requires created.status == Unscanned && created.itemCount == 0 && created.totalSize == 0 && created.id !in nodes
    requires forall i :: i in nodes ==> !AtAddress(nodes[i], metaRes, ParentId(parent), kind, name)
    requires node == created.(path := ComposeNodePath(created.id, parent), fullName := ExpectedFullName(name, fullName, parent))
    ensures LeftStranded(nodes, nodes[created.id := created], metaRes, parent, kind, name)
    ensures IsUpserted(nodes, nodes[node.id := node], node, metaRes, parent, kind, name, fullName)
  {
    hide ComposeNodePath, ExpectedFullName, DepthBelow, ParentId;
    assert IsNewRow(nodes, created, metaRes, ParentId(parent), kind, name);
  }

  lemma LabelsWritten(nodes: Nodes, created: Node, node: Node)
    requires node == created.(path := node.path, fullName := node.fullName)
    ensures var change := SetLabels(node.depth, node.path, node.fullName, node.attrs);
            nodes[created.id := created][created.id := ChangeNode(created, change)] == nodes[node.id := node]
  {
  }

  // ---- The service ---------------------------------------------------------------------

  datatype RunResult = Completed | StoreFailed | ScannerPanicked

  class ScanServiceNew {
    const db: Database

    constructor (db: Database)
      ensures this.db == db
    {
      this.db := db;
    }

    /** The creation branch: insert the row, then write the path that needs its id. */
    method InsertNode(metaRes: MetaResource, parent: Option<Node>, kind: NodeKind, name: string, fullName: string, attrs: Option<Attributes>)
      returns (r: Result<Node>)
      requires db.Valid()
      requires forall i :: i in db.nodes ==> !AtAddress(db.nodes[i], metaRes, ParentId(parent), kind, name)
      modifies db`nodes, db`nextNode
      ensures db.Valid()
      ensures db.nextNode >= old(db.nextNode) && (r.Ok? && r.value.id !in old(db.nodes) ==> r.value.id >= old(db.nextNode))
      ensures r.Ok? ==> IsUpserted(old(db.nodes), db.nodes, r.value, metaRes, parent, kind, name, fullName)
      ensures r.Ok? ==> r.value.attrs == if attrs.Some? then attrs.value else map[]
      ensures r.StoreError? ==> db.nodes == old(db.nodes) || LeftStranded(old(db.nodes), db.nodes, metaRes, parent, kind, name)
      ensures db.reliable && NameFree(old(db.nodes), metaRes, parent, kind, name) ==> r.Ok?
    {
      hide *;
      ghost var nodes0 := db.nodes;
      var row := Node(0, metaRes.tenant, metaRes.id, ParentId(parent), kind, name, DepthBelow(parent), "", fullName, Unscanned, 0, 0, "",
                      if attrs.Some? then attrs.value else map[]);
      FreeAllows(db.nodes, row, metaRes, parent, kind, name);
      var id := db.CreateNode(row);
      if id.None? {
        return StoreError;
      }
      ghost var created := row.(id := id.value);
      var node := row.(id := id.value, path := ComposeNodePath(id.value, parent), fullName := ExpectedFullName(name, fullName, parent));
      var ok := db.UpdateNode(id.value, SetLabels(node.depth, node.path, node.fullName, node.attrs));
      CreatedRow(nodes0, created, node, metaRes, parent, kind, name, fullName);
      if !ok {
        return StoreError;
      }
      LabelsWritten(nodes0, created, node);
      return Ok(node);
    }

    /** The branch for an existing row: overwrite the labels that differ. */
    method RefreshNode(metaRes: MetaResource, parent: Option<Node>, found: Node, fullName: string, attrs: Option<Attributes>)
      returns (r: Result<Node>)
      requires db.Valid()
      requires found.id in db.nodes && db.nodes[found.id] == found && AtAddress(found, metaRes, ParentId(parent), found.kind, found.name)
      modifies db`nodes
      ensures db.Valid() && (db.reliable ==> r.Ok?)
      ensures r.Ok? ==> IsUpserted(old(db.nodes), db.nodes, r.value, metaRes, parent, found.kind, found.name, fullName)
      ensures r.Ok? ==> r.value.attrs == if attrs.Some? && attrs.value != map[] then attrs.value else found.attrs
      ensures r.StoreError? ==> db.nodes == old(db.nodes)
    {
      ghost var nodes0 := db.nodes;
      var node := found.(depth := DepthBelow(parent), path := ComposeNodePath(found.id, parent),
                         fullName := ExpectedFullName(found.name, fullName, parent),
                         attrs := if attrs.Some? && attrs.value != map[] then attrs.value else found.attrs);
      if node != found {
        var ok := db.UpdateNode(node.id, SetLabels(node.depth, node.path, node.fullName, node.attrs));
        if !ok {
          return StoreError;
        }
      }
      assert db.nodes == nodes0[node.id := node];
      return Ok(node);
    }

    /** Finds or creates the row at an address and brings its depth, path and full name to what the parent prescribes,
        whatever stale values were stored.  Only that row changes.  If the second write of a creation fails, a stranded
        row is left behind. */
    method UpsertNode(metaRes: MetaResource, parent: Option<Node>, kind: NodeKind, name: string, fullName: string, attrs: Option<Attributes>)
      returns (r: Result<Node>)
      requires db.Valid()
      modifies db`nodes, db`nextNode
      ensures db.Valid()
      ensures db.nextNode >= old(db.nextNode) && (r.Ok? && r.value.id !in old(db.nodes) ==> r.value.id >= old(db.nextNode))
      ensures r.Ok? ==> IsUpserted(old(db.nodes), db.nodes, r.value, metaRes, parent, kind, name, fullName)
      ensures r.Ok? && attrs.Some? && attrs.value != map[] ==> r.value.attrs == attrs.value
      ensures r.StoreError? ==> db.nodes == old(db.nodes) || LeftStranded(old(db.nodes), db.nodes, metaRes, parent, kind, name)
      ensures db.reliable && NameFree(old(db.nodes), metaRes, parent, kind, name) ==> r.Ok?
    {
      var found := db.FindNode(metaRes.tenant, metaRes.id, kind, name, ParentId(parent));
      match found {
        case LookupFailed =>
          r := StoreError;
        case NotFound =>
          r := InsertNode(metaRes, parent, kind, name, fullName, attrs);
        case Found(row) =>
          r := RefreshNode(metaRes, parent, row, fullName, attrs);
      }
    }

    method ResetNodeState(node: nat, status: ScanStatus) returns (ok: bool)
      requires db.Valid()
      modifies db`nodes
      ensures db.Valid() && (db.reliable ==> ok)
      ensures db.nodes == if ok && node in old(db.nodes) then old(db.nodes)[node := old(db.nodes)[node].(status := status, errorMessage := "")]
                          else old(db.nodes)
    {
      ok := db.UpdateNode(node, SetStatus(status, ""));
    }

    method FinalizeNodeState(node: nat, status: ScanStatus, itemCount: int, totalSize: int, errMsg: string) returns (ok: bool)
      requires db.Valid()
      modifies db`nodes
      ensures db.Valid() && (db.reliable ==> ok)
      ensures db.nodes == if ok && node in old(db.nodes)
                          then old(db.nodes)[node := old(db.nodes)[node].(status := status, itemCount := itemCount,
                              totalSize := totalSize, errorMessage := errMsg)]
                          else old(db.nodes)
    {
      ok := db.UpdateNode(node, SetOutcome(status, itemCount, totalSize, errMsg));
    }

    method HardDeleteItemsByNode(node: nat) returns (ok: bool)
      requires db.Inv()
      modifies db`items
      ensures db.Inv() && (db.reliable ==> ok)
      ensures db.items == if ok then ItemsOutside(old(db.items), {node}) else old(db.items)
    {
      ok := db.DeleteItemsOf(node);
    }

    /** Removes the rows and items below a node: all of them but the stranded direct children, which have no path to match. */
    method HardDeleteDescendantNodes(node: Node) returns (ok: bool)
      requires db.Inv() && Current(db.nodes, node)
      modifies db`nodes, db`items
      ensures db.Inv() && (db.reliable ==> ok)
      ensures !ok ==> db.nodes == old(db.nodes) && db.items == old(db.items)
      ensures ok ==> ClearedBelow(old(db.nodes), old(db.items), node.id, db.nodes, db.items)
    {
      if node.path == "" {
        return true;
      }
      ghost var nodes0, items0 := db.nodes, db.items;
      ok := db.DeleteNodesLike(node.path + "/" + "%", node.id);
      if ok {
        WipeRemovesDescendants(nodes0, items0, node.id, LikeHits(nodes0, node.path + "/" + "%", node.id));
        forall t | t in items0 ensures items0[t].node in nodes0 {
          assert ItemRow(nodes0, items0, t);
        }
      }
    }

    /** Inserts or overwrites the item of a name under a node. */
    method UpsertItem(metaRes: MetaResource, node: nat, kind: ItemKind, name: string, data: ItemData) returns (ok: bool, ghost t: nat)
      requires db.Valid()
      modifies db`items, db`nextItem
      ensures db.Valid()
      ensures !ok ==> db.items == old(db.items)
      ensures ok ==> IsUpsertedItem(old(db.items), db.items, t, metaRes, node, kind, name, data)
      ensures db.reliable && SlotFree(db.nodes, old(db.items), metaRes, node, kind, name) ==> ok
    {
      t := 0;
      var found := db.FindItem(metaRes.tenant, metaRes.id, node, kind, name);
      match found {
        case LookupFailed =>
          ok := false;
        case NotFound =>
          var id := db.CreateItem(Item(0, metaRes.tenant, metaRes.id, node, kind, name, data.fullName, data.rowCount, data.sizeBytes,
                                       data.objectSize, data.attrs));
          ok := id.Some?;
          if ok {
            t := id.value;
          }
        case Found(row) =>
          t := row.id;
          ok := db.UpdateItem(row.id, data.fullName, data.rowCount, data.sizeBytes, data.objectSize, data.attrs);
      }
    }

    // ---- Persisting a batch -------------------------------------------------------

    /** One turn of the loop over segments: the prefix row below `parent` and its counter. */
    method UpsertPrefix(metaRes: MetaResource, parent: Node, segment: string, attrs: Attributes, stats0: Stats, ghost s: Scan)
      returns (r: Result<Node>, stats: Stats, ghost s': Scan)
      requires db.Valid() && db.nodes == s.nodes && db.items == s.items && s.metaRes == metaRes && s.stats == stats0
      requires Current(s.nodes, parent) && parent.id in s.names && Holds(metaRes, parent) && attrs != map[]
      modifies db`nodes, db`nextNode
      ensures db.Valid() && db.nodes == s'.nodes && db.items == s'.items && s'.stats == stats
      ensures db.nextNode >= old(db.nextNode)
      ensures db.reliable ==> r.Ok?
      ensures r.Ok? ==> PrefixAdded(s, s', parent.id, r.value, segment) && r.value.id in stats && r.value.attrs == attrs
      ensures r.StoreError? ==> SameRun(s, s') && s'.log == s.log
    {
      hide *;
      var fullName := ComposeNodeFullName(segment, Some(parent), "/");
      PrefixNameFree(s, parent, segment);
      stats := stats0;
      r := UpsertNode(metaRes, Some(parent), PrefixNode, segment, fullName, Some(attrs));
      match r {
        case Ok(node) =>
          stats := EnsureNodeAggregate(stats0, node.id);
          s' := PrefixUpserted(s, db.nodes, parent, node, segment);
        case StoreError =>
          s' := PrefixRefused(s, db.nodes, parent, segment);
      }
    }

    /** The loop over a row's segments: every directory it names, below the bucket.  An object's last segment is left out. */
    method UpsertPrefixes(metaRes: MetaResource, bucketNode: Node, m: ObjectMetadata, stats0: Stats, ghost s0: Scan)
      returns (r: Result<Node>, chain: seq<nat>, stats: Stats, ghost s: Scan)
      requires db.Valid() && db.nodes == s0.nodes && db.items == s0.items && s0.metaRes == metaRes && s0.stats == stats0
      requires IsScannedBucket(s0, bucketNode) && !m.nodeType.BucketMeta?
      modifies db`nodes, db`nextNode
      ensures db.Valid() && db.nodes == s.nodes && db.items == s.items && s.stats == stats
      ensures db.nextNode >= old(db.nextNode)
      ensures db.reliable ==> r.Ok?
      ensures r.Ok? ==> OnPath(s0, s, bucketNode, r.value, chain, MetaDirs(m), |MetaDirs(m)|)
      ensures r.Ok? ==> Relabelled(s0, s, PathLabels(bucketNode.name, m.bucket, MetaDirs(m), |MetaDirs(m)|))
      ensures r.StoreError? ==> SameRun(s0, s) && s.log == s0.log
    {
      hide *;
      var segments := MetaSegments(m);
      ghost var dirs := MetaDirs(m);
      DirsOfSegments(m);
      var parent := bucketNode;
      chain, stats, s := [bucketNode.id], stats0, s0;
      WalkStart(s0, bucketNode, dirs);
      WalkUnlabelled(s0, bucketNode.name, m.bucket, dirs);
      var idx := 0;
      while idx < |segments|
        invariant 0 <= idx <= |dirs|
        invariant db.Valid() && db.nodes == s.nodes && db.items == s.items && s.stats == stats && db.nextNode >= old(db.nextNode)
        invariant OnPath(s0, s, bucketNode, parent, chain, dirs, idx)
        invariant Relabelled(s0, s, PathLabels(bucketNode.name, m.bucket, dirs, idx))
        decreases |segments| - idx
      {
        if m.nodeType.ObjectMeta? && idx == |segments| - 1 {
          break;
        }
        WalkFacts(s0, s, bucketNode, parent, chain, dirs, idx);
        var attrs := map["bucket" := m.bucket, "path" := Join(segments[..idx + 1])];
        RowAttributes(m, segments, dirs, idx);
        assert "bucket" in attrs;
        ghost var s1 := s;
        r, stats, s := UpsertPrefix(metaRes, parent, segments[idx], attrs, stats, s);
        if r.StoreError? {
          WalkAbandoned(s0, s1, bucketNode, parent, chain, dirs, idx, s);
          return;
        }
        WalkStep(s0, s1, bucketNode, parent, chain, dirs, idx, s, r.value);
        WalkLabelled(s0, s1, bucketNode, m.bucket, parent, chain, dirs, idx, s, r.value);
        parent := r.value;
        chain := chain + [r.value.id];
        idx := idx + 1;
      }
      r := Ok(parent);
    }

    /** The loop that credits every row above a delivered item. */
    method CreditChain(stats0: Stats, chain: seq<nat>, size: int) returns (stats: Stats)
      ensures stats == CreditedAll(stats0, chain, size)
    {
      stats := stats0;
      var j := 0;
      while j < |chain|
        invariant 0 <= j <= |chain| && stats == CreditedAll(stats0, chain[..j], size)
      {
        var agg := AggregateOf(stats, chain[j]);
        stats := stats[chain[j] := Aggregate(agg.itemCount + 1, agg.totalSize + size)];
        assert chain[..j + 1][..j] == chain[..j];
        j := j + 1;
      }
      assert chain[..j] == chain;
    }

    /** The object half of a row: its item below `parent`, then the counters of the rows above it.  The counters move
        only after the item is stored. */
    method PersistObject(metaRes: MetaResource, parent: Node, chain: seq<nat>, m: ObjectMetadata, stats0: Stats, ghost s: Scan)
      returns (ok: bool, stats: Stats, ghost s': Scan)
      requires db.Valid() && db.nodes == s.nodes && db.items == s.items && s.metaRes == metaRes && s.stats == stats0
      requires Current(s.nodes, parent) && parent.id in s.names && Holds(metaRes, parent) && Trail(s, chain, parent.id)
      modifies db`items, db`nextItem
      ensures db.Valid() && db.nodes == s'.nodes && db.items == s'.items && s'.stats == stats
      ensures db.reliable ==> ok
      ensures ok ==> ObjectAdded(s, s', Delivery(s.names[parent.id], ObjectName(m), ObjectData(Join(s.names[parent.id]), m)), chain)
      ensures !ok ==> s' == s
    {
      hide *;
      stats, s' := stats0, s;
      var name := NameObject(m);
      var trimmed := SanitizeObjectPath(m.relativePath);
      var attrs := map["bucket" := m.bucket, "path" := m.path, "relative_path" := trimmed];
      var data := ItemData(ComposeNodeFullName(name, Some(parent), "/"), None, Some(m.sizeBytes), Some(m.sizeBytes), attrs);
      ItemSlotFree(s, parent, name);
      ItemFullName(s, parent, name);
      ghost var t;
      ok, t := UpsertItem(metaRes, parent.id, ObjectItem, name, data);
      if ok {
        s' := ItemDelivered(s, db.items, t, parent, chain, name, data);
        stats := CreditChain(stats0, chain, m.sizeBytes);
        ObjectColumns(Join(s.names[parent.id]), m);
      }
    }

    method NameObject(m: ObjectMetadata) returns (name: string)
      ensures name == ObjectName(m)
    {
      name := Base(TrimSlashes(m.path));
      if name == "" {
        name := SanitizeObjectPath(m.relativePath);
      }
      name := TrimSlashes(name);
      if name == "" {
        name := "object_" + DecimalInt(m.sizeBytes);
      }
    }

    /** One turn of the loop over a batch: a prefix or object row. */
    method PersistMeta(metaRes: MetaResource, bucketNode: Node, m: ObjectMetadata, stats0: Stats, ghost s0: Scan)
      returns (ok: bool, stats: Stats, ghost s: Scan)
      requires db.Valid() && db.nodes == s0.nodes && db.items == s0.items && s0.metaRes == metaRes && s0.stats == stats0
      requires IsScannedBucket(s0, bucketNode) && !m.nodeType.BucketMeta?
      modifies db`nodes, db`nextNode, db`items, db`nextItem
      ensures db.Valid() && db.nodes == s.nodes && db.items == s.items && s.stats == stats
      ensures db.nextNode >= old(db.nextNode)
      ensures db.reliable ==> ok
      ensures ok ==> Filed(s0, s, RowDeliveries(bucketNode.name, m), RowDirs(bucketNode.name, m))
      ensures ok ==> Relabelled(s0, s, RowLabels(bucketNode.name, m))
      ensures !ok ==> SameRun(s0, s)
    {
      hide *;
      var r, chain;
      r, chain, stats, s := UpsertPrefixes(metaRes, bucketNode, m, stats0, s0);
      ok := r.Ok?;
      if !ok {
        return;
      }
      var parent := r.value;
      ReachedRow(s0, s, bucketNode, parent, chain, m);
      RowLabelsAre(bucketNode.name, m);
      if SanitizeObjectPath(m.relativePath) == "" {
        ghost var reached := s;
        stats := EnsureNodeAggregate(stats, bucketNode.id);
        s := EnsuredRow(s0, s, bucketNode, parent, chain, m, [], RowDirs(bucketNode.name, m));
        SameLabels(s0, reached, s, RowLabels(bucketNode.name, m));
      }
      FiledSameRun(s0, s, [], RowDirs(bucketNode.name, m));
      WithoutObject(bucketNode.name, m);
      if m.nodeType.ObjectMeta? {
        ghost var s1 := s;
        AtRowFacts(s1, bucketNode, parent, chain, m);
        ok, stats, s := PersistObject(metaRes, parent, chain, m, stats, s);
        if ok {
          RowFiled(s0, s1, s, bucketNode, parent, chain, m);
          RowLabelled(s0, s1, s, Delivery(s1.names[parent.id], ObjectName(m), ObjectData(Join(s1.names[parent.id]), m)), chain,
                      RowLabels(bucketNode.name, m));
        }
      }
    }

    /** Files a batch of scanned rows below a bucket.  On success exactly the rows' objects have been delivered and their
        directories made; a failure leaves a consistent scan. */
    method PersistObjectMetas(metaRes: MetaResource, bucketNode: Node, metas: seq<ObjectMetadata>, stats0: Stats, ghost s0: Scan)
      returns (ok: bool, objects: nat, stats: Stats, ghost s: Scan)
      requires db.Valid() && db.nodes == s0.nodes && db.items == s0.items && s0.metaRes == metaRes && s0.stats == stats0
      requires IsScannedBucket(s0, bucketNode)
      modifies db`nodes, db`nextNode, db`items, db`nextItem
      ensures db.Valid() && db.nodes == s.nodes && db.items == s.items && s.stats == stats
      ensures db.nextNode >= old(db.nextNode)
      ensures db.reliable ==> ok
      ensures ok ==> Filed(s0, s, DeliveriesOf(bucketNode.name, metas), DirectoriesOf(bucketNode.name, metas))
      ensures ok ==> bucketNode.id in stats && objects == |DeliveriesOf(bucketNode.name, metas)|
      ensures ok ==> Relabelled(s0, s, LabelsOf(bucketNode.name, metas))
      ensures !ok ==> SameRun(s0, s)
    {
      hide *;
      ok, objects, stats, s := true, 0, stats0, s0;
      StartFiled(s0, bucketNode.name, metas);
      StartLabelled(s0, bucketNode.name, metas);
      var n := 0;
      while n < |metas|
        invariant 0 <= n <= |metas| && ok
        invariant db.Valid() && db.nodes == s.nodes && db.items == s.items && s.stats == stats && s.metaRes == metaRes
        invariant db.nextNode >= old(db.nextNode)
        invariant IsScannedBucket(s, bucketNode)
        invariant Filed(s0, s, DeliveriesOf(bucketNode.name, metas[..n]), DirectoriesOf(bucketNode.name, metas[..n]))
        invariant objects == |DeliveriesOf(bucketNode.name, metas[..n])|
        invariant Relabelled(s0, s, LabelsOf(bucketNode.name, metas[..n]))
      {
        ghost var s1 := s;
        if metas[n].nodeType.BucketMeta? {
          stats := EnsureNodeAggregate(stats, bucketNode.id);
          s := BucketRowFiled(s, bucketNode, metas[n]);
          BucketRowUnlabelled(s1, s, bucketNode.name, metas[n]);
        } else {
          ok, stats, s := PersistMeta(metaRes, bucketNode, metas[n], stats, s);
          if !ok {
            BatchAbandoned(s0, s1, s, DeliveriesOf(bucketNode.name, metas[..n]), DirectoriesOf(bucketNode.name, metas[..n]));
            return;
          }
          if metas[n].nodeType.ObjectMeta? {
            objects := objects + 1;
          }
        }
        MoreFiled(s0, s1, s, bucketNode, metas, n);
        MoreLabelled(s0, s1, s, bucketNode.name, metas, n);
        n := n + 1;
      }
      assert metas[..n] == metas;
      ghost var s2 := s;
      stats := EnsureNodeAggregate(stats, bucketNode.id);
      s := EnsureFiled(s0, s, bucketNode, DeliveriesOf(bucketNode.name, metas), DirectoriesOf(bucketNode.name, metas));
      SameLabels(s0, s2, s, LabelsOf(bucketNode.name, metas));
    }

    // ---- A whole run ----------------------------------------------------------------

    /** Takes on a bucket: its row is found or created and marked as being scanned, and all it holds is deleted. */
    method OpenBucket(metaRes: MetaResource, bucket: string, ghost s: Scan)
      returns (r: Result<Node>, ghost s': Scan, ghost touched: set<nat>)
      requires db.Valid() && db.nodes == s.nodes && db.items == s.items && s.metaRes == metaRes && bucket != ""
      requires NotYetScanned(s, bucket) && StartIds(s, db.nextNode)
      modifies db
      ensures db.Inv() && db.nextNode >= old(db.nextNode)
      ensures db.reliable ==> r.Ok?
      ensures r.Ok? ==> db.nodes == s'.nodes && db.items == s'.items && BucketOpened(s, s', r.value, bucket)
      ensures r.Ok? ==> r.value.attrs == BucketAttributes(bucket)
      ensures r.StoreError? ==> OnlyBuckets(s.nodes0, metaRes, touched) && Untouched(s.nodes0, s.items0, touched, db.nodes, db.items)
    {
      hide *;
      s', touched := s, s.roots;
      TopNameIsFree(s.nodes, metaRes, BucketNode, bucket);
      BucketAttributesAre(bucket);
      r := UpsertNode(metaRes, None, BucketNode, bucket, bucket, Some(map["bucket" := bucket]));
      if r.StoreError? {
        BucketLost(s, db.nodes, bucket);
        db.InvMeans();
        return;
      }
      var node := r.value;
      ghost var nodes1 := db.nodes;
      BucketUpserted(s, nodes1, node, bucket, old(db.nextNode));
      BucketMarked(s, nodes1, node, bucket);
      touched := s.roots + {node.id};
      var ok := ResetNodeState(node.id, Scanning);
      BucketNotCleared(s, nodes1, node, bucket);
      BucketNotCleared(s, nodes1[node.id := Marked(nodes1[node.id])], Marked(node), bucket);
      db.InvMeans();
      if ok {
        ok := HardDeleteDescendantNodes(node);
      }
      if !ok {
        r := StoreError;
        return;
      }
      ghost var items3 := db.items;
      db.InvMeans();
      FewerItemsKeepForest(db.nodes, items3, {node.id});
      ok := HardDeleteItemsByNode(node.id);
      s' := BucketCleared(s, nodes1[node.id := Marked(nodes1[node.id])], node, bucket, db.nodes, items3, ItemsOutside(items3, {node.id}));
      if !ok {
        r := StoreError;
      }
    }

    /** The loop that writes every counter to its row. */
    method FinalizeCounted(stats: Stats, ghost s: Scan) returns (ok: bool, ghost done: set<nat>)
      requires db.Valid() && db.nodes == s.nodes && s.stats == stats
      modifies db`nodes
      ensures db.Valid() && (db.reliable ==> ok)
      ensures done <= stats.Keys && (ok ==> done == stats.Keys)
      ensures db.nodes == FinishedNodes(s.nodes, stats, done)
    {
      hide *;
      ok, done := true, {};
      NothingFinished(s);
      var todo := stats.Keys;
      while todo != {}
        invariant todo <= stats.Keys && done == stats.Keys - todo && ok
        invariant db.Valid() && db.nodes == FinishedNodes(s.nodes, stats, done)
      {
        var id :| id in todo;
        CounterRow(s, id);
        StatedAggregate(stats, id);
        FinishedStep(s, db.nodes, done, id, stats[id].itemCount, stats[id].totalSize);
        ok := FinalizeNodeState(id, Scanned, stats[id].itemCount, stats[id].totalSize, "");
        if !ok {
          return;
        }
        todo := todo - {id};
        done := done + {id};
      }
    }

    /** The loop over the buckets that have no counter. */
    method FinalizeBuckets(bucketNodes: map<string, Node>, stats: Stats, ghost s: Scan) returns (ok: bool, ghost done: set<nat>)
      requires db.Valid() && db.nodes == FinishedNodes(s.nodes, stats, stats.Keys) && s.stats == stats && Registered(s, bucketNodes)
      modifies db`nodes
      ensures db.Valid() && (db.reliable ==> ok)
      ensures done <= stats.Keys + s.roots && (ok ==> done == stats.Keys + s.roots)
      ensures db.nodes == FinishedNodes(s.nodes, stats, done)
    {
      hide *;
      ok, done := true, stats.Keys;
      var todo := bucketNodes.Keys;
      while todo != {}
        invariant todo <= bucketNodes.Keys && ok
        invariant stats.Keys <= done <= stats.Keys + s.roots
        invariant forall b :: b in bucketNodes && b !in todo ==> bucketNodes[b].id in done
        invariant db.Valid() && db.nodes == FinishedNodes(s.nodes, stats, done)
      {
        var b :| b in todo;
        var id := bucketNodes[b].id;
        RegisteredBucket(s, bucketNodes, b);
        if id !in stats {
          StatedAggregate(stats, id);
          FinishedStep(s, db.nodes, done, id, 0, 0);
          ok := FinalizeNodeState(id, Scanned, 0, 0, "");
          if !ok {
            return;
          }
          done := done + {id};
        }
        todo := todo - {b};
      }
      AllBucketsDone(s, bucketNodes, done);
    }

    /** The end of a run. */
    method Finalize(bucketNodes: map<string, Node>, stats: Stats, ghost s: Scan) returns (ok: bool)
      requires db.Valid() && db.nodes == s.nodes && db.items == s.items && s.stats == stats && Registered(s, bucketNodes)
      modifies db`nodes
      ensures db.Inv() && (db.reliable ==> ok)
      ensures ok ==> IsOutcome(s, db.nodes, db.items)
      ensures Untouched(s.nodes0, s.items0, s.roots, db.nodes, db.items)
    {
      hide *;
      ghost var done;
      ok, done := FinalizeCounted(stats, s);
      if ok {
        ok, done := FinalizeBuckets(bucketNodes, stats, s);
      }
      FinishedForest(s, done);
      FinishedUntouched(s, done);
      RunConcluded(s);
      db.InvMeans();
    }

    /** One path's answer: its bucket's row, opened at the first such answer, and its rows below. */
    method FileBatch(metaRes: MetaResource, metas: seq<ObjectMetadata>, bucketNodes0: map<string, Node>, stats0: Stats, ghost s0: Scan)
      returns (ok: bool, bucketNodes: map<string, Node>, stats: Stats, objects: nat, ghost s: Scan, ghost touched: set<nat>)
      requires metas != [] && metas[0].bucket != ""
      requires db.Valid() && db.nodes == s0.nodes && db.items == s0.items && s0.metaRes == metaRes && s0.stats == stats0
      requires Registered(s0, bucketNodes0) && InProgress(s0) && StartIds(s0, db.nextNode)
      modifies db
      ensures db.Inv() && db.nextNode >= old(db.nextNode)
      ensures ok ==> db.nodes == s.nodes && db.items == s.items && s.stats == stats && SameOrigin(s0, s) && Registered(s, bucketNodes)
      ensures ok ==> InProgress(s) && bucketNodes.Keys == bucketNodes0.Keys + {metas[0].bucket}
      ensures !ok ==> OnlyBuckets(s0.nodes0, metaRes, touched) && Untouched(s0.nodes0, s0.items0, touched, db.nodes, db.items)
      ensures db.reliable ==> ok && IsBatchExact(s0, s, metas, objects)
    {
      hide *;
      ok, bucketNodes, stats, objects, s, touched := true, bucketNodes0, stats0, 0, s0, {};
      var bucket := metas[0].bucket;
      if bucket in bucketNodes {
        RegisteredBucket(s0, bucketNodes, bucket);
        KnownBucketReady(s0, bucketNodes[bucket], bucket);
      } else {
        UnregisteredIsNew(s0, bucketNodes, bucket);
        var r;
        r, s, touched := OpenBucket(metaRes, bucket, s0);
        if r.StoreError? {
          ok := false;
          return;
        }
        db.InvMeans();
        NewBucketReady(s0, s, bucketNodes, r.value, bucket);
        bucketNodes := bucketNodes[bucket := r.value];
      }
      var bucketNode := bucketNodes[bucket];
      ghost var s1 := s;
      ReadyFacts(s0, s1, bucketNode, bucket);
      var filed;
      filed, objects, stats, s := PersistObjectMetas(metaRes, bucketNode, metas, stats, s);
      if filed {
        BatchExact(s0, s1, s, bucketNode, metas, objects);
        FiledIsRun(s1, s, DeliveriesOf(bucketNode.name, metas), DirectoriesOf(bucketNode.name, metas));
      } else {
        objects := 0;
      }
      RunGoesOn(s0, s1, s, bucketNode, bucket, bucketNodes);
      ScanForest(s);
      db.InvMeans();
    }

    /** One turn of the loop over paths: an answer without rows, or without a bucket, is passed over. */
    method FileAnswer(metaRes: MetaResource, answer: ScanAnswer, bucketNodes0: map<string, Node>, stats0: Stats, ghost s0: Scan)
      returns (ok: bool, bucketNodes: map<string, Node>, stats: Stats, objects: nat, ghost s: Scan, ghost touched: set<nat>)
      requires db.Valid() && IsRunning(s0, db.nodes, db.items, bucketNodes0, stats0) && s0.metaRes == metaRes && StartIds(s0, db.nextNode)
      modifies db
      ensures db.Valid() && (!ok ==> db.Inv())
      ensures ok ==> IsRunning(s, db.nodes, db.items, bucketNodes, stats) && SameOrigin(s0, s) && StartIds(s, db.nextNode)
      ensures ok ==> bucketNodes.Keys == bucketNodes0.Keys + BatchBucket(BatchOf(answer))
      ensures !ok ==> OnlyBuckets(s0.nodes0, metaRes, touched) && Untouched(s0.nodes0, s0.items0, touched, db.nodes, db.items)
      ensures db.reliable ==> ok && IsBatchExact(s0, s, BatchOf(answer), objects)
    {
      hide *;
      ok, bucketNodes, stats, objects, s, touched := true, bucketNodes0, stats0, 0, s0, {};
      RunningMeans(s0, db.nodes, db.items, bucketNodes0, stats0);
      BatchOfAnswer(answer);
      IdleTurn(s0);
      SameAsItself(s0);
      if answer.Metas? && |answer.metas| > 0 && answer.metas[0].bucket != "" {
        ghost var next := db.nextNode;
        ok, bucketNodes, stats, objects, s, touched := FileBatch(metaRes, answer.metas, bucketNodes0, stats0, s0);
        db.InvMeans();
        if ok {
          OriginFacts(s0, s);
          SameStartIds(s0, s, next, db.nextNode);
          RunningMeans(s, db.nodes, db.items, bucketNodes, stats);
        }
      }
    }

    /** The loop over paths. */
    method ScanPaths(metaRes: MetaResource, scanner: Scanner.S3Scanner, paths: seq<string>)
      returns (r: RunResult, bucketNodes: map<string, Node>, stats: Stats, totalObjects: nat,
               ghost answers: seq<ScanAnswer>, ghost s: Scan, ghost touched: set<nat>)
      requires db.Inv()
      modifies db
      ensures db.Valid() && s.nodes0 == old(db.nodes) && s.items0 == old(db.items) && s.metaRes == metaRes
      ensures r.Completed? ==> IsRunning(s, db.nodes, db.items, bucketNodes, stats) && |answers| == |paths|
      ensures r.Completed? ==> IsAsked(scanner, paths, answers, s, bucketNodes.Keys, totalObjects, db.reliable)
      ensures r.ScannerPanicked? ==> IsPanicked(scanner, paths, answers, s, db.nodes, db.items, totalObjects, db.reliable)
      ensures r.StoreFailed? ==> !db.reliable && Answered(scanner, paths, answers) && !EndsInPanic(answers)
      ensures !r.Completed? ==>
                db.Inv() && OnlyBuckets(s.nodes0, metaRes, touched) && Untouched(s.nodes0, s.items0, touched, db.nodes, db.items)
    {
      hide *;
      db.InvMeans();
      db.ValidMeans();
      bucketNodes, stats, r, totalObjects, answers := map[], map[], Completed, 0, [];
      touched := {};
      s := StartScan(db.nodes, db.items, metaRes);
      StartFacts(db.nodes, db.items, metaRes, s, db.nextNode);
      RunningMeans(s, db.nodes, db.items, bucketNodes, stats);
      NothingAsked(scanner, paths, s, db.reliable);
      assert bucketNodes.Keys == {};
      var n := 0;
      while n < |paths|
        invariant 0 <= n <= |paths| && |answers| == n && r == Completed
        invariant IsAsked(scanner, paths, answers, s, bucketNodes.Keys, totalObjects, db.reliable)
        invariant db.Valid() && IsRunning(s, db.nodes, db.items, bucketNodes, stats) && StartIds(s, db.nextNode)
        invariant s.nodes0 == old(db.nodes) && s.items0 == old(db.items) && s.metaRes == metaRes
      {
        var answer := Scanner.ScanPath(scanner, paths[n]);
        LastAnswer(scanner, paths, answers, answer, s, bucketNodes.Keys, totalObjects, db.reliable);
        ghost var s0, before, buckets := s, answers, bucketNodes.Keys;
        answers := answers + [answer];
        n := n + 1;
        if answer.Panicked? {
          r, touched := ScannerPanicked, s.roots;
          CutShort(scanner, paths, before, answer, s, db.nodes, db.items, bucketNodes, stats, totalObjects, db.reliable);
          db.InvMeans();
          return;
        }
        var ok, more;
        ok, bucketNodes, stats, more, s, touched := FileAnswer(metaRes, answer, bucketNodes, stats, s);
        if !ok {
          r, s := StoreFailed, s0;
          return;
        }
        OriginFacts(s0, s);
        OneMoreAsked(scanner, paths, before, answer, s0, s, buckets, totalObjects, more, db.reliable);
        totalObjects := totalObjects + more;
      }
    }

    /** Scans the given paths into the tables.
        Whatever happens, the tables stay a forest and no row or item outside the scanned buckets' trees changes.
        A completed run leaves every labelled row of those trees finished, with counters equal to what was delivered below it;
        one that the scanner's panic cuts short leaves the buckets it took on in the scanning state.
        With a reliable store the run completes unless the scanner panics, and exactly what the answers ask for is delivered. */
    method ScanObjectStoragePaths(metaRes: MetaResource, scanner: Scanner.S3Scanner, paths: seq<string>)
      returns (r: RunResult, totalBuckets: nat, totalObjects: nat, ghost answers: seq<ScanAnswer>, ghost s: Scan, ghost touched: set<nat>)
      requires db.Inv()
      modifies db
      ensures db.Inv()
      ensures s.nodes0 == old(db.nodes) && s.items0 == old(db.items) && s.metaRes == metaRes
      ensures OnlyBuckets(s.nodes0, metaRes, touched) && Untouched(s.nodes0, s.items0, touched, db.nodes, db.items)
      ensures Answered(scanner, paths, answers)
      ensures r.ScannerPanicked? <==> EndsInPanic(answers)
      ensures r.ScannerPanicked? ==> IsInterrupted(s, db.nodes, db.items, Earlier(answers))
      ensures r.ScannerPanicked? && db.reliable ==> IsExact(s, Earlier(answers), BucketsOf(Earlier(answers)), totalObjects)
      ensures r.Completed? ==> |answers| == |paths| && IsOutcome(s, db.nodes, db.items)
      ensures r.Completed? ==> totalBuckets == |BucketsOf(answers)|
      ensures r.Completed? && db.reliable ==> IsExact(s, answers, BucketsOf(answers), totalObjects)
      ensures db.reliable ==> !r.StoreFailed?
    {
      hide *;
      var bucketNodes, stats;
      r, bucketNodes, stats, totalObjects, answers, s, touched := ScanPaths(metaRes, scanner, paths);
      totalBuckets := |bucketNodes.Keys|;
      if !r.Completed? {
        if r.ScannerPanicked? {
          PanickedMeans(scanner, paths, answers, s, db.nodes, db.items, totalObjects, db.reliable);
        }
        return;
      }
      AskedMeans(scanner, paths, answers, s, bucketNodes.Keys, totalObjects, db.reliable);
      RunningMeans(s, db.nodes, db.items, bucketNodes, stats);
      var ok := Finalize(bucketNodes, stats, s);
      touched := s.roots;
      ScanOnlyBuckets(s);
      if !ok {
        r := StoreFailed;
      }
    }

    // ---- Relational sources ------------------------------------------------------------

    /** The loop over a schema's tables; a table whose columns or whose row cannot be handled is skipped. */
    method PersistTables(metaRes: MetaResource, source: DatabaseSource, n: Node, schema: string, tables: seq<TableInfo>, ghost items0: Items)
      returns (totalTables: nat, totalFields: nat, totalSize: int, ghost log: seq<Delivery>)
      requires db.Valid() && IsFilling(db.nodes, db.items, items0, metaRes, n, schema, [])
      modifies db`items, db`nextItem
      ensures db.Valid() && IsFilling(db.nodes, db.items, items0, metaRes, n, schema, log)
      ensures totalTables == |log| && totalSize == BytesOf(log)
      ensures forall x :: x in log ==> x in ReadableTables(source, schema, tables)
      ensures db.reliable ==> log == ReadableTables(source, schema, tables) && totalFields == FieldsRead(source, schema, tables)
    {
      hide *;
      totalTables, totalFields, totalSize, log := 0, 0, 0, [];
      NoTablesYet(source, schema, tables);
      var k := 0;
      while k < |tables|
        invariant 0 <= k <= |tables|
        invariant db.Valid() && IsFilling(db.nodes, db.items, items0, metaRes, n, schema, log)
        invariant totalTables == |log| && totalSize == BytesOf(log)
        invariant forall x :: x in log ==> x in ReadableTables(source, schema, tables[..k])
        invariant db.reliable ==> log == ReadableTables(source, schema, tables[..k]) && totalFields == FieldsRead(source, schema, tables[..k])
      {
        var info := tables[k];
        OneMoreTable(source, schema, tables, k);
        k := k + 1;
        if (schema, info.name) !in source.fields {
          continue;
        }
        FillingFacts(db.nodes, db.items, items0, metaRes, n, schema, log, info);
        var data := ItemData(ComposeNodeFullName(info.name, Some(n), "."), Some(info.rowCount), Some(info.sizeBytes), None, map[]);
        ghost var items1 := db.items;
        var ok;
        ghost var t;
        ok, t := UpsertItem(metaRes, n.id, TableItem, info.name, data);
        if !ok {
          continue;
        }
        TableFilled(db.nodes, items1, db.items, items0, t, metaRes, n, schema, log, info);
        BytesSnoc(log, TableDelivery(schema, info));
        log := log + [TableDelivery(schema, info)];
        totalTables := totalTables + 1;
        totalFields := totalFields + source.fields[(schema, info.name)];
        totalSize := totalSize + info.sizeBytes;
      }
      assert tables[..k] == tables;
    }

    /** Scans one schema.  Only its row and the items of that row change.  A schema whose tables cannot be listed ends
        unscanned and empty; otherwise it ends scanned, counting exactly what was persisted. */
    method ScanDatabaseSchema(metaRes: MetaResource, source: DatabaseSource, schema: string)
      returns (ok: bool, schemas: nat, tables: nat, fields: nat, ghost id: nat, ghost log: seq<Delivery>)
      requires db.Inv()
      modifies db
      ensures db.Inv()
      ensures forall i :: i in old(db.nodes) && i != id ==> i in db.nodes && db.nodes[i] == old(db.nodes)[i]
      ensures id in old(db.nodes) ==> id in db.nodes && SameAddress(old(db.nodes)[id], db.nodes[id])
      ensures id in old(db.nodes) ==> IsTopRow(old(db.nodes)[id], metaRes, schema)
      ensures db.reliable ==> db.nodes.Keys == old(db.nodes).Keys + {id}
      ensures OnlyItemsOf(old(db.items), db.items, id)
      ensures ok ==> IsScannedSchema(db.nodes, db.items, metaRes, schema, id, log, None) && schema in source.tables
      ensures ok ==> schemas == 1 && tables == |log| && forall x :: x in log ==> x in ReadableTables(source, schema, source.tables[schema])
      ensures db.reliable ==> (ok <==> schema in source.tables)
      ensures db.reliable && ok ==> log == ReadableTables(source, schema, source.tables[schema])
                                    && fields == FieldsRead(source, schema, source.tables[schema])
      ensures db.reliable && !ok ==> IsScannedSchema(db.nodes, db.items, metaRes, schema, id, [], Some(source.failure)) && tables == 0 && fields == 0
    {
      hide *;
      ok, schemas, tables, fields, id, log := false, 0, 0, 0, db.nextNode, [];
      ghost var nodes0, items0 := db.nodes, db.items;
      db.InvMeans();
      db.ValidMeans();
      TopNameIsFree(nodes0, metaRes, SchemaNode, schema);
      AllItemsKept(items0, id);
      var r := UpsertNode(metaRes, None, SchemaNode, schema, "", None);
      if r.StoreError? {
        SchemaLost(nodes0, items0, db.nodes, metaRes, schema);
        db.InvMeans();
        return;
      }
      var n := r.value;
      id := n.id;
      AllItemsKept(items0, id);
      SchemaUpserted(nodes0, items0, db.nodes, n, metaRes, schema);
      InPlaceMeans(nodes0, db.nodes, metaRes, n, schema);
      RowReset(nodes0, db.nodes, items0, metaRes, n, schema, Scanning);
      var marked := ResetNodeState(n.id, Scanning);
      InPlaceMeans(nodes0, db.nodes, metaRes, n, schema);
      db.InvMeans();
      if !marked {
        return;
      }
      StartFilling(nodes0, db.nodes, items0, metaRes, n, schema);
      var emptied := HardDeleteItemsByNode(n.id);
      if !emptied {
        return;
      }
      EmptiedItems(items0, id);
      if schema !in source.tables {
        RowFinalized(nodes0, db.nodes, db.items, items0, metaRes, n, schema, [], Some(source.failure), Unscanned, 0, 0, source.failure);
        var _ := FinalizeNodeState(n.id, Unscanned, 0, 0, source.failure);
        InPlaceMeans(nodes0, db.nodes, metaRes, n, schema);
        db.InvMeans();
        return;
      }
      var totalSize;
      tables, fields, totalSize, log := PersistTables(metaRes, source, n, schema, source.tables[schema], items0);
      RowFinalized(nodes0, db.nodes, db.items, items0, metaRes, n, schema, log, None, Scanned, tables, totalSize, "");
      ok := FinalizeNodeState(n.id, Scanned, tables, totalSize, "");
      InPlaceMeans(nodes0, db.nodes, metaRes, n, schema);
      db.InvMeans();
      schemas := if ok then 1 else 0;
    }

    // ---- The automatic scan ---------------------------------------------------------------

    /** The relational half of `scanResource`: scans the schemas that have no row yet, and reports what was read of them.  Rows
        and items that were there stay as they were, also when writes fail.  Afterwards every listed schema has a row, and a second
        pass finds nothing to do. */
    method ScanUnscannedSchemas(metaRes: MetaResource, source: DatabaseSource)
      returns (totalSchemas: nat, totalTables: nat, totalFields: nat)
      requires db.Inv()
      modifies db
      ensures db.Inv() && Kept(old(db.nodes), old(db.items), db.nodes, db.items)
      ensures db.reliable ==> SchemasTaken(old(db.nodes), old(db.items), db.nodes, db.items, metaRes, source, source.schemas)
      ensures db.reliable ==>
                var taken := NewNames(old(db.nodes), metaRes, SchemaNode, source.schemas);
                && totalSchemas == SchemasRead(source, taken) && totalTables == TablesRead(source, taken)
                && totalFields == FieldsOfAll(source, taken)
      ensures db.reliable ==> forall k :: 0 <= k < |source.schemas| ==> HasRow(db.nodes, metaRes, SchemaNode, source.schemas[k])
      ensures db.reliable && (forall k :: 0 <= k < |source.schemas| ==> HasRow(old(db.nodes), metaRes, SchemaNode, source.schemas[k])) ==>
                db.nodes == old(db.nodes) && db.items == old(db.items) && totalSchemas == totalTables == totalFields == 0
    {
      hide *;
      totalSchemas, totalTables, totalFields := 0, 0, 0;
      ghost var nodes0, items0, reliable := db.nodes, db.items, db.reliable;
      NothingGrown(nodes0, items0);
      GrownKeeps(nodes0, items0, nodes0, items0);
      StartSchemas(nodes0, items0, metaRes, source, reliable);
      var k := 0;
      while k < |source.schemas|
        invariant 0 <= k <= |source.schemas| && db.Inv() && Kept(nodes0, items0, db.nodes, db.items)
        invariant SchemasSoFar(nodes0, items0, db.nodes, db.items, metaRes, source, k, totalSchemas, totalTables, totalFields, reliable)
      {
        var name := source.schemas[k];
        db.InvMeans();
        LookupDecides(db.nodes, metaRes, SchemaNode, name);
        ghost var nodes1, items1 := db.nodes, db.items;
        var found := db.FindNamed(metaRes.tenant, metaRes.id, SchemaNode, name);
        if found.NotFound? {
          var ok, schemas, tables, fields;
          ghost var id, log;
          ok, schemas, tables, fields, id, log := ScanDatabaseSchema(metaRes, source, name);
          SchemaScanKeeps(nodes1, items1, db.nodes, db.items, metaRes, name, id);
          KeptTwice(nodes0, items0, nodes1, items1, db.nodes, db.items);
          ScannedIs(source, name, ok, log, reliable);
          SchemaTurn(nodes0, items0, nodes1, items1, db.nodes, db.items, metaRes, source, k, totalSchemas, totalTables, totalFields, id,
                     ok, schemas, tables, fields, reliable);
          if ok {
            totalSchemas := totalSchemas + schemas;
            totalTables := totalTables + tables;
            totalFields := totalFields + fields;
          }
        } else {
          if found.Found? {
            FoundRow(db.nodes, metaRes, SchemaNode, name, found.row.id);
          }
          SchemaSkipped(nodes0, items0, db.nodes, db.items, metaRes, source, k, totalSchemas, totalTables, totalFields, reliable);
        }
        k := k + 1;
      }
      db.InvMeans();
      SchemasAtEnd(nodes0, items0, db.nodes, db.items, metaRes, source, totalSchemas, totalTables, totalFields, reliable);
    }

    /** The object-storage half: scans the buckets that have no row yet, and reports those that yield one and what they hold.  Rows
        and items that were there stay as they were. */
    method ScanUnscannedBuckets(metaRes: MetaResource, scanner: Scanner.S3Scanner, buckets: seq<string>)
      returns (panicked: bool, totalBuckets: nat, totalObjects: nat)
      requires db.Inv()
      modifies db
      ensures db.Inv()
      ensures db.reliable && !panicked && AllClean(buckets) ==> AllBucketsSettled(db.nodes, metaRes, scanner, buckets)
      ensures db.reliable && AllBucketsSettled(old(db.nodes), metaRes, scanner, buckets) ==>
                !panicked && db.nodes == old(db.nodes) && db.items == old(db.items) && totalBuckets == totalObjects == 0
      ensures db.reliable && AllClean(buckets) ==> Kept(old(db.nodes), old(db.items), db.nodes, db.items)
      ensures db.reliable && AllClean(buckets) && !panicked ==>
                var taken := NewNames(old(db.nodes), metaRes, BucketNode, buckets);
                && BucketsTaken(old(db.nodes), old(db.items), db.nodes, db.items, metaRes, scanner, buckets)
                && totalBuckets == BucketsFiled(scanner, taken) && totalObjects == ObjectsFiled(scanner, taken)
    {
      hide *;
      panicked, totalBuckets, totalObjects := false, 0, 0;
      ghost var nodes0, items0, exact := db.nodes, db.items, db.reliable && AllClean(buckets);
      ghost var settled := db.reliable && AllBucketsSettled(nodes0, metaRes, scanner, buckets);
      AutoStart(nodes0, items0, metaRes, scanner, buckets, exact, settled);
      var k := 0;
      while k < |buckets|
        invariant 0 <= k <= |buckets| && db.Inv() && !panicked
        invariant IsAutoState(nodes0, items0, db.nodes, db.items, metaRes, scanner, buckets, k, totalBuckets, totalObjects, exact, settled)
      {
        var bucket := buckets[k];
        db.InvMeans();
        LookupDecides(db.nodes, metaRes, BucketNode, bucket);
        var found := db.FindNamed(metaRes.tenant, metaRes.id, BucketNode, bucket);
        if found.NotFound? {
          var r, schemas, objects;
          ghost var answers, s, touched;
          r, schemas, objects, answers, s, touched := ScanObjectStoragePaths(metaRes, scanner, [bucket]);
          if r.ScannerPanicked? {
            panicked := true;
            AutoPanic(nodes0, items0, s, db.nodes, db.items, scanner, buckets, k, totalBuckets, totalObjects, answers, db.reliable, settled);
            return;
          }
          if !r.Completed? {
            schemas, objects := 0, 0;
          }
          AutoRunIs(s, db.nodes, db.items, scanner, bucket, answers, schemas, objects, db.reliable);
          AutoTurn(nodes0, items0, s, db.nodes, db.items, scanner, buckets, k, totalBuckets, totalObjects, answers, schemas, objects,
                   db.reliable, settled);
          totalBuckets := totalBuckets + schemas;
          totalObjects := totalObjects + objects;
        } else {
          if found.Found? {
            FoundRow(db.nodes, metaRes, BucketNode, bucket, found.row.id);
          }
          AutoSkip(nodes0, items0, db.nodes, db.items, metaRes, scanner, buckets, k, totalBuckets, totalObjects, exact, settled);
        }
        k := k + 1;
      }
      AutoEnd(nodes0, items0, db.nodes, db.items, metaRes, scanner, buckets, totalBuckets, totalObjects, exact, settled);
    }

    /** `scanResource`: takes on what has no row yet, leaves everything else alone, and reports exactly what it took on. */
    method ScanResource(metaRes: MetaResource, scan: ResourceScanner) returns (panicked: bool, schemas: nat, tables: nat, fields: nat)
      requires db.Inv()
      modifies db
      ensures db.Inv()
      ensures db.reliable && !panicked && ProperNames(scan) ==> AllSettled(db.nodes, metaRes, scan)
      ensures db.reliable && AllSettled(old(db.nodes), metaRes, scan) ==>
                !panicked && db.nodes == old(db.nodes) && db.items == old(db.items) && schemas == tables == fields == 0
      ensures db.reliable && ProperNames(scan) ==> Kept(old(db.nodes), old(db.items), db.nodes, db.items)
      ensures db.reliable && ProperNames(scan) && !panicked ==>
                IsAutoOutcome(old(db.nodes), old(db.items), db.nodes, db.items, metaRes, scan, schemas, tables, fields)
    {
      hide *;
      SettledCases(db.nodes, metaRes, scan);
      panicked, fields := false, 0;
      match scan {
        case ObjectStorage(scanner, buckets) =>
          panicked, schemas, tables := ScanUnscannedBuckets(metaRes, scanner, buckets);
        case Relational(source) =>
          schemas, tables, fields := ScanUnscannedSchemas(metaRes, source);
      }
      SettledCases(db.nodes, metaRes, scan);
      OutcomeCases(old(db.nodes), old(db.items), db.nodes, db.items, metaRes, scan, schemas, tables, fields);
    }

    /** Two automatic scans in a row of a source that answers the same way: the second reports nothing and changes nothing,
        also where the first scan of a schema failed or a bucket was empty. */
    method ScanResourceTwice(metaRes: MetaResource, scan: ResourceScanner)
      returns (panicked: bool, ghost between: (Nodes, Items), schemas: nat, tables: nat, fields: nat)
      requires db.Inv() && db.reliable && ProperNames(scan)
      modifies db
      ensures db.Inv()
      ensures !panicked ==> (db.nodes, db.items) == between && schemas == tables == fields == 0
    {
      hide *;
      panicked, schemas, tables, fields := ScanResource(metaRes, scan);
      between := (db.nodes, db.items);
      if !panicked {
        panicked, schemas, tables, fields := ScanResource(metaRes, scan);
      }
    }
  }
}

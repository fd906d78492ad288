/** What a finished run means to a reader of the tables. */
module ScanOutcomes {
  import opened Options
  import opened GoStrings
  import opened MetadataForest
  import opened NodeNames
  import opened NodePlacement
  import opened Deliveries
  import opened ScanSession
  import opened ScanBuckets
  import opened ScanRuns

  // ---- Isolation --------------------------------------------------------------

  lemma RootNotTouched(nodes0: Nodes, metaRes: MetaResource, touched: set<nat>, r: nat)
    requires OnlyBuckets(nodes0, metaRes, touched)
    ensures r in touched && r in nodes0 ==>
              nodes0[r].kind == BucketNode && nodes0[r].tenant == metaRes.tenant && nodes0[r].res == metaRes.id
  {
  }

  /** A run, even a failed one, never touches a row or an item of another resource or tenant, nor of a schema. */
  lemma OthersUntouched(nodes0: Nodes, items0: Items, metaRes: MetaResource, touched: set<nat>, nodes: Nodes, items: Items, i: nat)
    requires Forest(nodes0, items0) && OnlyBuckets(nodes0, metaRes, touched) && Untouched(nodes0, items0, touched, nodes, items)
    requires i in nodes0 && (nodes0[i].tenant != metaRes.tenant || nodes0[i].res != metaRes.id || nodes0[i].kind == SchemaNode)
    ensures i in nodes && nodes[i] == nodes0[i]
    ensures forall t :: t in items0 && items0[t].node == i ==> t in items && items[t] == items0[t]
  {
    RootOfParent(nodes0, i);
    assert LinkedRow(nodes0, i);
    RootNotTouched(nodes0, metaRes, touched, RootOf(nodes0, i));
    assert Bystander(nodes0, touched, i);
  }

  // ---- Counters -----------------------------------------------------------------

  /** The items below a named row are those of the row and of its descendants in the tree. */
  lemma BelowIsSubtree(nodes: Nodes, items: Items, roots: set<nat>, names: Names, i: nat, t: nat)
    requires Linked(nodes) && ItemsPlaced(nodes, items) && IsNaming(nodes, roots, names) && i in names && t in items
    ensures i in nodes && items[t].node in nodes
    ensures t in ItemsBelow(items, names, names[i]) <==> items[t].node == i || IsProperDescendant(nodes, items[t].node, i)
  {
    assert ItemRow(nodes, items, t);
    var k := items[t].node;
    NamedDepth(nodes, roots, names, i);
    NamingIsSubtree(nodes, roots, names, k);
    NamingIsSubtree(nodes, roots, names, i);
    SameRoot(nodes, k, i);
    var chain := IdChain(nodes, i);
    assert chain[|chain| - 1] == i;
    if k in names {
      NamedAncestry(nodes, roots, names, k, i);
    }
  }

  /** Within the named trees, ancestry of rows is the prefix order on their chains. */
  lemma {:induction false} NamedAncestry(nodes: Nodes, roots: set<nat>, names: Names, k: nat, i: nat)
    requires Linked(nodes) && IsNaming(nodes, roots, names) && i in names && k in names
    ensures k in nodes && i in nodes
    ensures names[i] <= names[k] <==> i in IdChain(nodes, k)
    decreases |names[k]|
  {
    NamedDepth(nodes, roots, names, i);
    NamedDepth(nodes, roots, names, k);
    assert NamedRow(nodes, roots, names, k) && LinkedRow(nodes, k) && LinkedRow(nodes, i);
    if i == k {
      var c := IdChain(nodes, k);
      assert c[|c| - 1] == k;
    } else {
      assert !ShareChain(names, i, k);
      if k !in roots {
        var p := nodes[k].parent.value;
        NamedAncestry(nodes, roots, names, p, i);
        assert names[i] <= names[k] <==> names[i] <= names[p];
      } else {
        assert |names[i]| == nodes[i].depth >= 1;
      }
    }
  }

  /** A finished row never counts fewer items than its subtree holds, and counts exactly those if and only if no
      key at or below it was delivered twice; then its bytes are theirs too. */
  lemma CountersExact(s: Scan, nodes: Nodes, items: Items, i: nat)
    requires IsOutcome(s, nodes, items) && i in s.names && i in nodes && !Stranded(nodes[i])
    ensures nodes[i].status == Scanned
    ensures |ItemsBelow(items, s.names, s.names[i])| <= nodes[i].itemCount
    ensures |ItemsBelow(items, s.names, s.names[i])| == nodes[i].itemCount <==> DistinctBelow(s.log, s.names[i])
    ensures DistinctBelow(s.log, s.names[i]) ==> nodes[i].totalSize == TotalSize(items, ItemsBelow(items, s.names, s.names[i]))
  {
    hide Forest, IsNaming, Rooted, RowsKept, ItemsKept, RootsKept, Chains;
    assert FinishedRow(nodes[i], s.names[i], s.log);
    OutcomeItems(s, nodes, items);
    StoredKeys(items, s.names, s.log);
    CountIsExact(items, s.names, s.log, s.names[i]);
    if DistinctBelow(s.log, s.names[i]) {
      StoredIsBelow(items, s.names, s.log, s.names[i]);
      SizeIsExact(items, s.names, s.log, s.names[i]);
    }
  }

  lemma OutcomeItems(s: Scan, nodes: Nodes, items: Items)
    requires IsOutcome(s, nodes, items)
    ensures DistinctItems(items, s.names)
  {
  }

  /** No row of the scanned trees is left in the middle of a scan. */
  lemma NoneScanning(s: Scan, nodes: Nodes, items: Items, i: nat)
    requires IsOutcome(s, nodes, items) && i in s.names
    ensures i in nodes && nodes[i].status != Scanning
    ensures nodes[i].status == Scanned <==> !Stranded(nodes[i])
  {
    assert FinishedRow(nodes[i], s.names[i], s.log);
    assert LabelledRow(nodes, i);
  }

  /** Full names spell the chains. */
  lemma OutcomeFullNames(s: Scan, nodes: Nodes, items: Items, i: nat)
    requires IsOutcome(s, nodes, items) && i in s.names && i in nodes && !Stranded(nodes[i])
    ensures nodes[i].fullName == Join(s.names[i]) && nodes[i].depth == |s.names[i]|
  {
    FullNameIsJoin(nodes, s.roots, s.names, i);
  }

  // ---- A rescan forgets what was there before ---------------------------------------

  /** A labelled row, and an item, without their ids. */
  datatype DirView = DirView(chain: seq<string>, kind: NodeKind, depth: nat, fullName: string, status: ScanStatus, itemCount: int, totalSize: int,
                             errorMessage: string, attrs: Attributes)

  datatype FileView = FileView(chain: seq<string>, name: string, data: ItemData)

  function ViewOf(chain: seq<string>, n: Node): DirView {
    DirView(chain, n.kind, n.depth, n.fullName, n.status, n.itemCount, n.totalSize, n.errorMessage, n.attrs)
  }

  ghost function Directories(nodes: Nodes, names: Names): set<DirView> {
    set i | i in names && i in nodes && !Stranded(nodes[i]) :: ViewOf(names[i], nodes[i])
  }

  ghost function Files(items: Items, names: Names): set<FileView> {
    set t | t in items && items[t].node in names :: FileView(names[items[t].node], items[t].name, DataOf(items[t]))
  }

  /** The row of a bucket's own name is the bucket's, those below it are prefixes. */
  lemma OutcomeKinds(s: Scan, nodes: Nodes, items: Items, i: nat)
    requires IsOutcome(s, nodes, items) && i in s.names && i in nodes
    ensures nodes[i].kind == if |s.names[i]| == 1 then BucketNode else PrefixNode
  {
    hide Stored, RowsKept, ItemsKept, RootsKept, Chains, Stranded, FinishedRow;
    assert NamedRow(nodes, s.roots, s.names, i) && LinkedRow(nodes, i);
    NamedDepth(nodes, s.roots, s.names, i);
    TopRow(nodes, i);
  }

  lemma SameDirectories(s: Scan, nodes: Nodes, items: Items, s': Scan, nodes': Nodes, items': Items, v: DirView)
    requires IsOutcome(s, nodes, items) && IsOutcome(s', nodes', items')
    requires s.log == s'.log && Labels(nodes, s.names) == Labels(nodes', s'.names)
    requires v in Directories(nodes, s.names)
    ensures v in Directories(nodes', s'.names)
  {
    hide Forest, IsNaming, Rooted, RowsKept, ItemsKept, RootsKept, Stored, Stranded, Labels, Chains;
    var i :| i in s.names && i in nodes && !Stranded(nodes[i]) && v == ViewOf(s.names[i], nodes[i]);
    var j := SameLabelled(s, nodes, s', nodes', i);
    OutcomeFullNames(s, nodes, items, i);
    OutcomeFullNames(s', nodes', items', j);
    OutcomeKinds(s, nodes, items, i);
    OutcomeKinds(s', nodes', items', j);
    assert FinishedRow(nodes[i], s.names[i], s.log) && FinishedRow(nodes'[j], s'.names[j], s'.log);
    assert v == ViewOf(s'.names[j], nodes'[j]);
  }

  /** Rows of one directory, in two runs whose directories have the same attributes. */
  lemma SameLabelled(s: Scan, nodes: Nodes, s': Scan, nodes': Nodes, i: nat) returns (j: nat)
    requires Labels(nodes, s.names) == Labels(nodes', s'.names) && i in s.names && i in nodes && !Stranded(nodes[i])
    ensures j in s'.names && j in nodes' && !Stranded(nodes'[j]) && s'.names[j] == s.names[i] && nodes'[j].attrs == nodes[i].attrs
  {
    DistinctNames(s);
    DistinctNames(s');
    hide *;
    LabelOfRow(nodes, s.names, i);
    LabelKeys(nodes, s.names);
    LabelKeys(nodes', s'.names);
    j := RowOf(nodes', s'.names, s.names[i]);
    LabelOfRow(nodes', s'.names, j);
  }

  lemma SameFiles(items: Items, names: Names, items': Items, names': Names, log: seq<Delivery>, v: FileView)
    requires Stored(items, names, log) && Stored(items', names', log)
    requires v in Files(items, names)
    ensures v in Files(items', names')
  {
    var t :| t in items && items[t].node in names && v == FileView(names[items[t].node], items[t].name, DataOf(items[t]));
    LastDataOccurs(log, v.chain, v.name);
    var k :| 0 <= k < |log| && log[k].dir == v.chain && log[k].name == v.name;
    assert HasItem(items', names', log[k].dir, log[k].name);
    var u :| u in items' && items'[u].node in names' && names'[items'[u].node] == v.chain && items'[u].name == v.name;
    assert LastData(log, names'[items'[u].node], items'[u].name) == Some(DataOf(items'[u]));
    assert FileView(names'[items'[u].node], items'[u].name, DataOf(items'[u])) == v;
  }

  /** Two finished runs that delivered the same items and made the same directories, with the same attributes, leave the same
      trees, whatever the tables held before and whatever ids the rows got. */
  lemma HistoryFree(s: Scan, nodes: Nodes, items: Items, s': Scan, nodes': Nodes, items': Items)
    requires IsOutcome(s, nodes, items) && IsOutcome(s', nodes', items')
    requires s.log == s'.log && Labels(s.nodes, s.names) == Labels(s'.nodes, s'.names)
    ensures Directories(nodes, s.names) == Directories(nodes', s'.names)
    ensures Files(items, s.names) == Files(items', s'.names)
  {
    hide Forest, IsNaming, Rooted, RowsKept, ItemsKept, RootsKept, Stored, Stranded, Chains, Labels, FinishedRow, Directories, Files;
    forall v: DirView ensures v in Directories(nodes, s.names) <==> v in Directories(nodes', s'.names) {
      if v in Directories(nodes, s.names) {
        SameDirectories(s, nodes, items, s', nodes', items', v);
      }
      if v in Directories(nodes', s'.names) {
        SameDirectories(s', nodes', items', s, nodes, items, v);
      }
    }
    forall v: FileView ensures v in Files(items, s.names) <==> v in Files(items', s'.names) {
      if v in Files(items, s.names) {
        SameFiles(items, s.names, items', s'.names, s.log, v);
      }
      if v in Files(items', s'.names) {
        SameFiles(items', s'.names, items, s.names, s.log, v);
      }
    }
  }

  /** In particular two runs over the same answers do. */
  lemma RescanHistoryFree(s: Scan, nodes: Nodes, items: Items, s': Scan, nodes': Nodes, items': Items,
                          answers: seq<ScanAnswer>, objects: nat, objects': nat)
    requires IsOutcome(s, nodes, items) && IsExact(s, answers, BucketsOf(answers), objects)
    requires IsOutcome(s', nodes', items') && IsExact(s', answers, BucketsOf(answers), objects')
    ensures objects == objects'
    ensures Directories(nodes, s.names) == Directories(nodes', s'.names) && Files(items, s.names) == Files(items', s'.names)
    ensures forall v :: v in Directories(nodes, s.names) ==> v.chain in TreeOf(answers)
    ensures forall c :: c in TreeOf(answers) ==> exists v :: v in Directories(nodes, s.names) && v.chain == c
  {
    hide Forest, IsNaming, Rooted, RowsKept, ItemsKept, RootsKept, Stored, Stranded, Labels, FinishedRow;
    HistoryFree(s, nodes, items, s', nodes', items');
    forall c | c in TreeOf(answers) ensures exists v :: v in Directories(nodes, s.names) && v.chain == c {
      var i :| i in s.names && i in nodes && !Stranded(nodes[i]) && s.names[i] == c;
      assert ViewOf(c, nodes[i]) in Directories(nodes, s.names);
    }
  }
}

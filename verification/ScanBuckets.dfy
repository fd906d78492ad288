/** A scan takes on one more bucket: its row is found or created, marked as being scanned, and cleared of everything below it. */
module ScanBuckets {
  import opened Options
  import opened MetadataForest
  import opened NodeNames
  import opened NodePlacement
  import opened Deliveries
  import opened ScanSession

  /** What the two deletions leave behind: of the rows below a only stranded children, which have no path to match, and none of the items. */
  ghost predicate Wiped(nodes: Nodes, items: Items, a: nat, nodes': Nodes, items': Items)
    requires Linked(nodes)
  {
    && (forall i {:trigger i in nodes'} {:trigger i in nodes} :: i in nodes' <==>
          i in nodes && !(IsProperDescendant(nodes, i, a) && !(Stranded(nodes[i]) && nodes[i].parent == Some(a))))
    && (forall i {:trigger nodes'[i]} :: i in nodes' ==> nodes'[i] == nodes[i])
    && (forall t {:trigger t in items'} {:trigger t in items} :: t in items' <==>
          t in items && items[t].node in nodes' && items[t].node != a)
    && (forall t {:trigger items'[t]} :: t in items' ==> items'[t] == items[t])
  }

  /** What the LIKE deletion leaves behind. */
  ghost predicate ClearedBelow(nodes: Nodes, items: Items, a: nat, nodes': Nodes, items': Items)
    requires Linked(nodes)
  {
    && (forall i {:trigger i in nodes'} {:trigger i in nodes} :: i in nodes' <==>
          i in nodes && !(IsProperDescendant(nodes, i, a) && !(Stranded(nodes[i]) && nodes[i].parent == Some(a))))
    && (forall i {:trigger nodes'[i]} :: i in nodes' ==> nodes'[i] == nodes[i])
    && (forall t {:trigger t in items'} {:trigger t in items} :: t in items' <==> t in items && items[t].node in nodes')
    && (forall t {:trigger items'[t]} :: t in items' ==> items'[t] == items[t])
  }

  lemma ClearedThenWiped(nodes: Nodes, items: Items, a: nat, nodes': Nodes, items': Items)
    requires Linked(nodes) && ClearedBelow(nodes, items, a, nodes', items')
    ensures Wiped(nodes, items, a, nodes', ItemsOutside(items', {a}))
  {
  }

  /** b is a labelled top-level bucket row of the resource that the scan has not taken on, put in place of its prior version. */
  ghost predicate IsFreshBucket(nodes: Nodes, nodes': Nodes, metaRes: MetaResource, roots: set<nat>, b: Node) {
    && nodes' == nodes[b.id := b] && b.id !in roots
    && b.parent == None && b.kind == BucketNode && b.tenant == metaRes.tenant && b.res == metaRes.id
    && b.name != "" && !Stranded(b)
    && (b.id in nodes ==> SameAddress(nodes[b.id], b))
  }

  function WithBucket(nodes: Nodes, names: Names, b: Node): Names {
    map i | i in nodes && (i in names || i == b.id || nodes[i].parent == Some(b.id))
      :: if i in names then names[i] else if i == b.id then [b.name] else [b.name, nodes[i].name]
  }

  // ---- Where rows stand relative to the new bucket ------------------------------------

  lemma BucketUnnamed(nodes: Nodes, nodes': Nodes, metaRes: MetaResource, roots: set<nat>, names: Names, b: Node)
    requires Linked(nodes) && IsNaming(nodes, roots, names) && IsFreshBucket(nodes, nodes', metaRes, roots, b)
    ensures b.id !in names
    ensures IsNaming(nodes', roots, names)
  {
    assert b.id in names ==> NamedRow(nodes, roots, names, b.id);
    forall i | i in names ensures NamedRow(nodes', roots, names, i) {
      assert NamedRow(nodes, roots, names, i);
    }
    forall i | i in nodes' && nodes'[i].parent.Some? && nodes'[i].parent.value in names ensures i in names {
      assert nodes[i].parent.Some?;
    }
  }

  /** A row lies below a top-level row exactly if that row is its root. */
  lemma BelowRoot(nodes: Nodes, i: nat, a: nat)
    requires Linked(nodes) && i in nodes && a in nodes && nodes[a].parent == None
    ensures IsProperDescendant(nodes, i, a) <==> i != a && RootOf(nodes, i) == a
  {
    AncestorIsChainPrefix(nodes, i, a);
    assert IdChain(nodes, a) == [a];
    if i != a && RootOf(nodes, i) == a {
      assert IdChain(nodes, i)[0] == a;
    }
    if IsProperDescendant(nodes, i, a) {
      assert IdChain(nodes, a)[0] == IdChain(nodes, i)[..1][0];
    }
  }

  /** The new bucket's tree in the cleared table: itself and stranded children. */
  lemma ClearedRow(nodes: Nodes, items: Items, a: nat, nodes': Nodes, items': Items, i: nat)
    requires Linked(nodes) && a in nodes && nodes[a].parent == None && Wiped(nodes, items, a, nodes', items') && i in nodes
    ensures RootOf(nodes, i) != a ==> i in nodes'
    ensures i in nodes' ==> nodes'[i] == nodes[i]
    ensures i in nodes' && RootOf(nodes, i) == a ==> i == a || (Stranded(nodes[i]) && nodes[i].parent == Some(a))
    ensures nodes[i].parent == Some(a) ==> RootOf(nodes, i) == a
    ensures a in nodes' && RootOf(nodes, a) == a
  {
    BelowRoot(nodes, i, a);
    BelowRoot(nodes, a, a);
    RootOfParent(nodes, i);
    RootOfParent(nodes, a);
  }

  lemma NamedRowSurvives(nodes: Nodes, items: Items, a: nat, nodes': Nodes, items': Items, roots: set<nat>, names: Names, i: nat)
    requires Linked(nodes) && a in nodes && nodes[a].parent == None && Wiped(nodes, items, a, nodes', items')
    requires IsNaming(nodes, roots, names) && i in names && a !in names
    ensures i in nodes && i in nodes' && nodes'[i] == nodes[i] && nodes[i].parent != Some(a) && i != a
  {
    assert NamedRow(nodes, roots, names, i);
    NamingIsSubtree(nodes, roots, names, i);
    ClearedRow(nodes, items, a, nodes', items', i);
  }

  // ---- The naming ----------------------------------------------------------------------

  lemma FirstNameIsBucket(nodes: Nodes, roots: set<nat>, names: Names, i: nat) returns (r: nat)
    requires Linked(nodes) && IsNaming(nodes, roots, names) && i in names
    ensures r in roots && r in nodes && nodes[r].parent == None && |names[i]| >= 1 && names[i][0] == nodes[r].name
  {
    NamedDepth(nodes, roots, names, i);
    assert LinkedRow(nodes, i);
    r := NamedAncestor(nodes, roots, names, i, 1);
    NamedDepth(nodes, roots, names, r);
    assert NamedRow(nodes, roots, names, r) && LinkedRow(nodes, r);
    assert names[r][0] == names[i][..1][0];
    TopRow(nodes, r);
  }

  /** No chain so far starts with the new bucket's name. */
  lemma BucketNameFresh(nodes: Nodes, metaRes: MetaResource, roots: set<nat>, names: Names, b: Node, i: nat)
    requires Linked(nodes) && UniqueAddresses(nodes) && IsNaming(nodes, roots, names) && Rooted(nodes, metaRes, roots)
    requires IsFreshBucket(nodes, nodes, metaRes, roots, b) && i in names
    ensures |names[i]| >= 1 && names[i][0] != b.name
  {
    var r := FirstNameIsBucket(nodes, roots, names, i);
    assert r in roots;
    if nodes[r].name == b.name {
      assert ShareAddress(nodes, r, b.id);
    }
  }

  lemma BucketChains(nodes: Nodes, metaRes: MetaResource, roots: set<nat>, names: Names, b: Node, nodes': Nodes)
    requires Linked(nodes) && UniqueAddresses(nodes) && IsNaming(nodes, roots, names) && Rooted(nodes, metaRes, roots)
    requires IsFreshBucket(nodes, nodes, metaRes, roots, b) && b.id !in names
    requires forall i :: i in nodes' ==> i in nodes && nodes'[i] == nodes[i]
    ensures DistinctChains(WithBucket(nodes', names, b))
  {
    var names' := WithBucket(nodes', names, b);
    forall i: nat, j: nat | ShareChain(names', i, j) ensures i == j {
      if i in names {
        BucketNameFresh(nodes, metaRes, roots, names, b, i);
      }
      if j in names {
        BucketNameFresh(nodes, metaRes, roots, names, b, j);
      }
      assert names'[i][0] == names'[j][0];
      if i in names && j in names {
        assert ShareChain(names, i, j);
      } else if i !in names && j !in names && i != b.id && j != b.id {
        assert names'[i][1] == nodes[i].name && names'[j][1] == nodes[j].name;
        assert LinkedRow(nodes, i) && LinkedRow(nodes, j);
        assert ShareAddress(nodes, i, j);
      } else {
        assert |names'[b.id]| == 1;
      }
    }
  }

  lemma BucketNamedRow(nodes: Nodes, items: Items, roots: set<nat>, names: Names, b: Node, nodes': Nodes, items': Items, i: nat)
    requires Linked(nodes) && b.id in nodes && nodes[b.id] == b && b.parent == None && b.id !in names
    requires IsNaming(nodes, roots, names) && i in names
    requires Wiped(nodes, items, b.id, nodes', items')
    ensures i in WithBucket(nodes', names, b) && NamedRow(nodes', roots + {b.id}, WithBucket(nodes', names, b), i)
  {
    NamedRowSurvives(nodes, items, b.id, nodes', items', roots, names, i);
    assert NamedRow(nodes, roots, names, i);
    if i !in roots {
      NamedRowSurvives(nodes, items, b.id, nodes', items', roots, names, nodes[i].parent.value);
    }
  }

  /** A stranded row has no children. */
  lemma StrandedIsLeaf(nodes: Nodes, i: nat)
    requires Linked(nodes) && i in nodes && nodes[i].parent.Some?
    ensures nodes[i].parent.value in nodes && !Stranded(nodes[nodes[i].parent.value])
  {
    assert LinkedRow(nodes, i);
  }

  lemma BucketChildRow(nodes: Nodes, items: Items, roots: set<nat>, names: Names, b: Node, nodes': Nodes, items': Items, i: nat)
    requires Linked(nodes) && b.id in nodes && nodes[b.id] == b && b.parent == None && b.id !in names
    requires roots <= names.Keys && Wiped(nodes, items, b.id, nodes', items')
    requires i in WithBucket(nodes', names, b) && i !in names
    ensures NamedRow(nodes', roots + {b.id}, WithBucket(nodes', names, b), i)
  {
    ClearedRow(nodes, items, b.id, nodes', items', b.id);
  }

  lemma BucketClosed(nodes: Nodes, items: Items, roots: set<nat>, names: Names, b: Node, nodes': Nodes, items': Items, i: nat)
    requires Linked(nodes) && b.id in nodes && nodes[b.id] == b && b.parent == None && b.id !in names
    requires IsNaming(nodes, roots, names) && Wiped(nodes, items, b.id, nodes', items')
    requires i in nodes' && nodes'[i].parent.Some? && nodes'[i].parent.value in WithBucket(nodes', names, b)
    ensures i in WithBucket(nodes', names, b)
  {
    var p := nodes'[i].parent.value;
    ClearedRow(nodes, items, b.id, nodes', items', p);
    ClearedRow(nodes, items, b.id, nodes', items', i);
    StrandedIsLeaf(nodes, i);
    RootOfParent(nodes, p);
    assert p in names ==> i in names;
  }

  lemma WipedRows(nodes: Nodes, items: Items, a: nat, nodes': Nodes, items': Items)
    requires Linked(nodes) && Wiped(nodes, items, a, nodes', items')
    ensures forall i :: i in nodes' ==> i in nodes && nodes'[i] == nodes[i]
    ensures forall t :: t in items' ==> t in items && items'[t] == items[t]
    ensures forall t :: t in items && items[t].node in nodes' && items[t].node != a ==> t in items' && items'[t] == items[t]
  {
  }

  lemma BucketNaming(nodes: Nodes, items: Items, metaRes: MetaResource, roots: set<nat>, names: Names, b: Node, nodes': Nodes, items': Items)
    requires Linked(nodes) && UniqueAddresses(nodes) && IsNaming(nodes, roots, names) && Rooted(nodes, metaRes, roots)
    requires IsFreshBucket(nodes, nodes, metaRes, roots, b) && b.id !in names
    requires Wiped(nodes, items, b.id, nodes', items')
    ensures IsNaming(nodes', roots + {b.id}, WithBucket(nodes', names, b))
  {
    hide NamedRow, DistinctChains, Wiped, Rooted, UniqueAddresses, Linked;
    var names' := WithBucket(nodes', names, b);
    WipedRows(nodes, items, b.id, nodes', items');
    BucketChains(nodes, metaRes, roots, names, b, nodes');
    ClearedRow(nodes, items, b.id, nodes', items', b.id);
    forall i | i in names ensures i in names' && NamedRow(nodes', roots + {b.id}, names', i) {
      BucketNamedRow(nodes, items, roots, names, b, nodes', items', i);
    }
    forall i | i in names' && i !in names ensures NamedRow(nodes', roots + {b.id}, names', i) {
      BucketChildRow(nodes, items, roots, names, b, nodes', items', i);
    }
    forall i | i in nodes' && nodes'[i].parent.Some? && nodes'[i].parent.value in names' ensures i in names' {
      BucketClosed(nodes, items, roots, names, b, nodes', items', i);
    }
  }

  // ---- Counters, deliveries and bystanders -----------------------------------------------

  lemma BucketTallied(nodes: Nodes, items: Items, metaRes: MetaResource, roots: set<nat>, names: Names, b: Node, nodes': Nodes,
                      log: seq<Delivery>, stats: Stats)
    requires Linked(nodes) && UniqueAddresses(nodes) && IsNaming(nodes, roots, names) && Rooted(nodes, metaRes, roots)
    requires IsFreshBucket(nodes, nodes, metaRes, roots, b)
    requires Stored(items, names, log) && Tallied(stats, names, log)
    requires forall i {:trigger i in stats} :: i in stats ==> i in names
    ensures Tallied(stats, WithBucket(nodes', names, b), log)
  {
    var names' := WithBucket(nodes', names, b);
    forall i | i in names'
      ensures AggregateOf(stats, i) == Aggregate(TallyCount(log, names'[i]), TallySize(log, names'[i]))
    {
      if i !in names {
        forall j | j in names ensures names[j] != names'[i] {
          BucketNameFresh(nodes, metaRes, roots, names, b, j);
        }
        UnnamedTally(nodes, items, roots, names, log, |log|, names'[i]);
        assert log[..|log|] == log;
      }
    }
  }

  lemma BucketStored(nodes: Nodes, items: Items, roots: set<nat>, names: Names, b: Node, nodes': Nodes, items': Items, log: seq<Delivery>)
    requires Linked(nodes) && ItemsPlaced(nodes, items) && b.id in nodes && nodes[b.id] == b && b.parent == None && b.id !in names
    requires IsNaming(nodes, roots, names) && Stored(items, names, log)
    requires Wiped(nodes, items, b.id, nodes', items')
    ensures Stored(items', WithBucket(nodes', names, b), log)
    ensures forall t :: t in items' ==> items'[t].node in nodes && (items'[t].node in WithBucket(nodes', names, b) ==> items'[t].node in names)
  {
    var names' := WithBucket(nodes', names, b);
    forall i | i in names ensures i in names' && names'[i] == names[i] && i in nodes' && i != b.id {
      NamedRowSurvives(nodes, items, b.id, nodes', items', roots, names, i);
    }
    forall t | t in items' ensures items'[t].node in nodes && (items'[t].node in names' ==> items'[t].node in names) {
      assert ItemRow(nodes, items, t);
      ClearedRow(nodes, items, b.id, nodes', items', items[t].node);
      RootOfParent(nodes, items[t].node);
    }
    forall k | 0 <= k < |log| ensures HasItem(items', names', log[k].dir, log[k].name) {
      assert HasItem(items, names, log[k].dir, log[k].name);
      var t :| t in items && items[t].node in names && names[items[t].node] == log[k].dir && items[t].name == log[k].name;
      assert t in items';
    }
  }

  lemma BucketCounters(nodes: Nodes, items: Items, roots: set<nat>, names: Names, b: Node, nodes': Nodes, items': Items, stats: Stats)
    requires Linked(nodes) && Labelled(nodes) && b.id in nodes && nodes[b.id] == b && b.parent == None && b.id !in names
    requires IsNaming(nodes, roots, names)
    requires Wiped(nodes, items, b.id, nodes', items')
    requires CountersPlaced(nodes, roots, names, stats) && Unfinished(nodes, roots, names)
    ensures CountersPlaced(nodes', roots + {b.id}, WithBucket(nodes', names, b), stats)
    ensures Unfinished(nodes', roots + {b.id}, WithBucket(nodes', names, b))
  {
    var names' := WithBucket(nodes', names, b);
    forall i | i in names ensures i in names' && i in nodes' && nodes'[i] == nodes[i] {
      NamedRowSurvives(nodes, items, b.id, nodes', items', roots, names, i);
    }
    forall i | i in names' && i !in names && i != b.id
      ensures i in nodes && nodes'[i] == nodes[i] && Stranded(nodes[i]) && nodes[i].itemCount == 0 && nodes[i].totalSize == 0
          && nodes[i].status == Unscanned
    {
      ClearedRow(nodes, items, b.id, nodes', items', i);
      assert LabelledRow(nodes, i);
      assert nodes'[i] == nodes[i];
    }
  }

  lemma BucketRowsKept(nodes0: Nodes, items: Items, roots: set<nat>, prior: Nodes, nodes: Nodes, names: Names, b: Node, nodes': Nodes, items': Items)
    requires Linked(nodes0) && Linked(prior) && Linked(nodes) && nodes == prior[b.id := b] && b.parent == None && b.id !in names
    requires b.id in prior ==> prior[b.id].parent == None
    requires RowsKept(nodes0, roots, prior, names) && IsNaming(nodes, roots, names)
    requires Wiped(nodes, items, b.id, nodes', items')
    ensures RowsKept(nodes0, roots + {b.id}, nodes', WithBucket(nodes', names, b))
  {
    var names' := WithBucket(nodes', names, b);
    forall i: nat | i in nodes' && i !in names' ensures Bystander(nodes0, roots + {b.id}, i) && nodes'[i] == nodes0[i] {
      assert Bystander(nodes0, roots, i) && prior[i] == nodes0[i];
      BystanderStays(nodes0, roots, prior, nodes, names, b, i);
      ClearedRow(nodes, items, b.id, nodes', items', i);
    }
    forall i: nat | Bystander(nodes0, roots + {b.id}, i) ensures i in nodes' && i !in names' {
      assert Bystander(nodes0, roots, i);
      BystanderStays(nodes0, roots, prior, nodes, names, b, i);
      ClearedRow(nodes, items, b.id, nodes', items', i);
    }
  }

  /** Putting the new bucket's row in place leaves every bystander's root what it was at the start. */
  lemma {:induction false} BystanderStays(nodes0: Nodes, roots: set<nat>, prior: Nodes, nodes: Nodes, names: Names, b: Node, i: nat)
    requires Linked(nodes0) && Linked(prior) && Linked(nodes) && nodes == prior[b.id := b] && b.parent == None
    requires b.id in prior ==> prior[b.id].parent == None
    requires RowsKept(nodes0, roots, prior, names) && Bystander(nodes0, roots, i)
    ensures i in prior && prior[i] == nodes0[i] && i !in names && i in nodes && RootOf(nodes, i) == RootOf(nodes0, i)
    ensures i == b.id ==> RootOf(nodes0, i) == b.id
    decreases nodes0[i].depth
  {
    assert prior[i] == nodes0[i];
    RootOfParent(nodes0, i);
    RootOfParent(nodes, i);
    assert LinkedRow(nodes0, i);
    if nodes0[i].parent.Some? {
      BystanderStays(nodes0, roots, prior, nodes, names, b, nodes0[i].parent.value);
    }
  }

  lemma BucketItemsKept(nodes0: Nodes, items0: Items, roots: set<nat>, nodes: Nodes, items: Items, names: Names, b: Node,
      nodes': Nodes, items': Items)
    requires Linked(nodes0) && ItemsKept(nodes0, items0, roots, items, names)
    requires forall t :: t in items' ==>
               t in items && items'[t] == items[t] && (items'[t].node in names ==> items'[t].node in WithBucket(nodes', names, b))
    requires forall t :: t in items && items[t].node in nodes' && items[t].node != b.id ==> t in items' && items'[t] == items[t]
    requires forall i {:trigger Bystander(nodes0, roots + {b.id}, i)} :: Bystander(nodes0, roots + {b.id}, i) ==> i in nodes' && i != b.id
    ensures ItemsKept(nodes0, items0, roots + {b.id}, items', WithBucket(nodes', names, b))
  {
    forall t | t in items0 && Bystander(nodes0, roots + {b.id}, items0[t].node) ensures t in items' && items'[t] == items0[t] {
      assert Bystander(nodes0, roots, items0[t].node);
    }
  }

  // ---- The whole step ----------------------------------------------------------------------

  /** The cleared bucket joins the scan: it and the stranded rows left below it are named, the rest is as it was. */
  ghost predicate BucketAdded(s: Scan, s': Scan, b: Node) {
    && s'.nodes0 == s.nodes0 && s'.items0 == s.items0 && s'.metaRes == s.metaRes && s'.log == s.log && s'.stats == s.stats
    && s'.roots == s.roots + {b.id} && s'.names == WithBucket(s'.nodes, s.names, b)
    && b.id in s'.nodes && s'.nodes[b.id] == b
    && (forall r {:trigger r in s.roots} :: r in s.roots ==> r in s.nodes && r in s'.nodes && s'.nodes[r] == s.nodes[r])
  }

  lemma BucketSurroundings(s: Scan, b: Node, nodes: Nodes, nodes': Nodes, items': Items)
    requires IsFreshBucket(s.nodes, nodes, s.metaRes, s.roots, b) && Forest(nodes, s.items)
    requires Wiped(nodes, s.items, b.id, nodes', items')
    ensures b.id !in s.names && IsNaming(nodes, s.roots, s.names)
    ensures RowsKept(s.nodes0, s.roots + {b.id}, nodes', WithBucket(nodes', s.names, b))
    ensures ItemsKept(s.nodes0, s.items0, s.roots + {b.id}, items', WithBucket(nodes', s.names, b))
  {
    BucketUnnamed(s.nodes, nodes, s.metaRes, s.roots, s.names, b);
    BucketRowsKept(s.nodes0, s.items, s.roots, s.nodes, nodes, s.names, b, nodes', items');
    WipedRows(nodes, s.items, b.id, nodes', items');
    BucketStored(nodes, s.items, s.roots, s.names, b, nodes', items', s.log);
    forall i: nat {:trigger Bystander(s.nodes0, s.roots + {b.id}, i)} | Bystander(s.nodes0, s.roots + {b.id}, i) ensures i in nodes' && i != b.id {
      assert i !in WithBucket(nodes', s.names, b);
      assert Bystander(s.nodes0, s.roots, i);
      BystanderStays(s.nodes0, s.roots, s.nodes, nodes, s.names, b, i);
    }
    BucketItemsKept(s.nodes0, s.items0, s.roots, nodes, s.items, s.names, b, nodes', items');
  }

  lemma NamedCounters(s: Scan)
    ensures forall i {:trigger i in s.stats} :: i in s.stats ==> i in s.names
  {
  }

  lemma CountersStay(s: Scan, b: Node, nodes: Nodes)
    requires IsFreshBucket(s.nodes, nodes, s.metaRes, s.roots, b) && b.id !in s.names
    ensures CountersPlaced(nodes, s.roots, s.names, s.stats) && Unfinished(nodes, s.roots, s.names)
  {
  }

  lemma BucketContents(s: Scan, b: Node, nodes: Nodes, nodes': Nodes, items': Items)
    requires IsFreshBucket(s.nodes, nodes, s.metaRes, s.roots, b) && Forest(nodes, s.items) && IsNaming(nodes, s.roots, s.names) && b.id !in s.names
    requires Wiped(nodes, s.items, b.id, nodes', items')
    ensures var names := WithBucket(nodes', s.names, b);
            && Stored(items', names, s.log) && Tallied(s.stats, names, s.log)
            && CountersPlaced(nodes', s.roots + {b.id}, names, s.stats) && Unfinished(nodes', s.roots + {b.id}, names)
  {
    hide IsNaming, Wiped, Stored, Tallied, CountersPlaced, Unfinished, RowsKept, ItemsKept, RootsKept, WithBucket;
    assert Rooted(nodes, s.metaRes, s.roots);
    NamedCounters(s);
    CountersStay(s, b, nodes);
    BucketStored(nodes, s.items, s.roots, s.names, b, nodes', items', s.log);
    BucketTallied(nodes, s.items, s.metaRes, s.roots, s.names, b, nodes', s.log, s.stats);
    BucketCounters(nodes, s.items, s.roots, s.names, b, nodes', items', s.stats);
  }

  lemma BucketNames(s: Scan, b: Node, nodes: Nodes, nodes': Nodes, items': Items)
    requires IsFreshBucket(s.nodes, nodes, s.metaRes, s.roots, b) && Forest(nodes, s.items) && IsNaming(nodes, s.roots, s.names) && b.id !in s.names
    requires Wiped(nodes, s.items, b.id, nodes', items')
    ensures IsNaming(nodes', s.roots + {b.id}, WithBucket(nodes', s.names, b))
  {
    hide IsNaming, Wiped, Labelled, ItemsPlaced;
    assert Rooted(nodes, s.metaRes, s.roots);
    BucketNaming(nodes, s.items, s.metaRes, s.roots, s.names, b, nodes', items');
  }

  lemma BucketRoots(s: Scan, b: Node, nodes: Nodes, nodes': Nodes, items': Items)
    requires IsFreshBucket(s.nodes, nodes, s.metaRes, s.roots, b) && Forest(nodes, s.items) && IsNaming(nodes, s.roots, s.names) && b.id !in s.names
    requires Wiped(nodes, s.items, b.id, nodes', items')
    ensures Rooted(nodes', s.metaRes, s.roots + {b.id}) && b.id in nodes' && nodes'[b.id] == b
    ensures forall r :: r in s.roots ==> r in s.nodes && r in nodes' && nodes'[r] == s.nodes[r]
  {
    ClearedRow(nodes, s.items, b.id, nodes', items', b.id);
    forall r | r in s.roots ensures r in s.nodes && r in nodes' && nodes'[r] == s.nodes[r] {
      assert Rooted(s.nodes, s.metaRes, s.roots);
      NamedRowSurvives(nodes, s.items, b.id, nodes', items', s.roots, s.names, r);
    }
  }

  lemma BucketRootKept(s: Scan, b: Node, nodes: Nodes, nodes': Nodes)
    requires IsFreshBucket(s.nodes, nodes, s.metaRes, s.roots, b) && b.id !in s.names
    requires b.id in nodes' && nodes'[b.id] == b
    requires forall r {:trigger r in s.roots} :: r in s.roots ==> r in s.nodes && r in nodes' && nodes'[r] == s.nodes[r]
    requires b.id in s.nodes0 ==> b.id in s.nodes
    ensures RootsKept(s.nodes0, s.roots + {b.id}, nodes')
  {
    assert RootsKept(s.nodes0, s.roots, s.nodes);
    if b.id in s.nodes0 {
      assert s.nodes[b.id] == s.nodes0[b.id];
    }
  }

  lemma BucketKeepsScan(s: Scan, b: Node, nodes: Nodes, nodes': Nodes, items': Items) returns (s': Scan)
    requires IsFreshBucket(s.nodes, nodes, s.metaRes, s.roots, b) && Forest(nodes, s.items)
    requires Wiped(nodes, s.items, b.id, nodes', items') && Forest(nodes', items')
    requires b.id in s.nodes0 ==> b.id in s.nodes
    ensures BucketAdded(s, s', b) && s'.nodes == nodes' && s'.items == items'
  {
    hide Wiped, Stored, Tallied, CountersPlaced, Unfinished, RowsKept, RootsKept, ItemsKept, IsNaming, Labelled, ItemsPlaced,
      IsFreshBucket, Rooted, Linked, UniqueAddresses, Forest, WithBucket;
    BucketSurroundings(s, b, nodes, nodes', items');
    BucketContents(s, b, nodes, nodes', items');
    BucketNames(s, b, nodes, nodes', items');
    BucketRoots(s, b, nodes, nodes', items');
    BucketRootKept(s, b, nodes, nodes');
    BucketStart(s);
    s' := ScanState(s.nodes0, s.items0, s.metaRes, nodes', items', s.roots + {b.id}, WithBucket(nodes', s.names, b), s.log, s.stats);
  }

  lemma BucketStart(s: Scan)
    ensures Linked(s.nodes0)
  {
  }

  lemma OneMoreChain(nodes: Nodes, names: Names, nodes': Nodes, names': Names, b: nat)
    requires forall i {:trigger i in names} :: i in names ==>
               i in nodes && i in nodes' && nodes'[i] == nodes[i] && i in names' && names'[i] == names[i]
    requires forall i {:trigger i in names'} :: i in names' && i !in names && i != b ==> i in nodes' && Stranded(nodes'[i])
    requires b in names' && b in nodes' && !Stranded(nodes'[b])
    ensures Chains(nodes', names') == Chains(nodes, names) + {names'[b]}
  {
    forall c | c in Chains(nodes, names) ensures c in Chains(nodes', names') {
      var i :| i in names && i in nodes && !Stranded(nodes[i]) && names[i] == c;
      assert names'[i] == c;
    }
  }

  /** The rows named before the bucket was taken on are as they were; those it brings, but for its own, have no path. */
  lemma BucketNewRows(s: Scan, b: Node, nodes: Nodes, nodes': Nodes, items': Items)
    requires IsFreshBucket(s.nodes, nodes, s.metaRes, s.roots, b) && Forest(nodes, s.items)
    requires Wiped(nodes, s.items, b.id, nodes', items')
    ensures var names' := WithBucket(nodes', s.names, b);
            && b.id in nodes' && nodes'[b.id] == b && !Stranded(b) && b.id in names' && names'[b.id] == [b.name]
            && (forall i {:trigger i in s.names} :: i in s.names ==>
                  i in s.nodes && i in nodes' && nodes'[i] == s.nodes[i] && i in names' && names'[i] == s.names[i])
            && forall i {:trigger i in names'} :: i in names' && i !in s.names && i != b.id ==> i in nodes' && Stranded(nodes'[i])
  {
    var names' := WithBucket(nodes', s.names, b);
    BucketUnnamed(s.nodes, nodes, s.metaRes, s.roots, s.names, b);
    ClearedRow(nodes, s.items, b.id, nodes', items', b.id);
    forall i | i in s.names ensures i in s.nodes && i in nodes' && nodes'[i] == s.nodes[i] && i in names' && names'[i] == s.names[i] {
      NamedRowSurvives(nodes, s.items, b.id, nodes', items', s.roots, s.names, i);
    }
    forall i | i in names' && i !in s.names && i != b.id ensures i in nodes' && Stranded(nodes'[i]) {
      ClearedRow(nodes, s.items, b.id, nodes', items', i);
    }
  }

  lemma BucketChainSet(s: Scan, b: Node, nodes: Nodes, nodes': Nodes, items': Items)
    requires IsFreshBucket(s.nodes, nodes, s.metaRes, s.roots, b) && Forest(nodes, s.items)
    requires Wiped(nodes, s.items, b.id, nodes', items')
    ensures Chains(nodes', WithBucket(nodes', s.names, b)) == Chains(s.nodes, s.names) + {[b.name]}
  {
    hide *;
    BucketNewRows(s, b, nodes, nodes', items');
    OneMoreChain(s.nodes, s.names, nodes', WithBucket(nodes', s.names, b), b.id);
  }

  /** The bucket's row brings its attributes. */
  lemma BucketLabelSet(s: Scan, b: Node, nodes: Nodes, nodes': Nodes, items': Items, s': Scan)
    requires IsFreshBucket(s.nodes, nodes, s.metaRes, s.roots, b) && Forest(nodes, s.items)
    requires Wiped(nodes, s.items, b.id, nodes', items')
    requires s'.nodes == nodes' && s'.names == WithBucket(nodes', s.names, b)
    ensures Labels(s'.nodes, s'.names) == Labels(s.nodes, s.names)[[b.name] := b.attrs]
  {
    DistinctNames(s);
    DistinctNames(s');
    hide *;
    BucketNewRows(s, b, nodes, nodes', items');
    OneMoreLabelled(s.nodes, s.names, nodes', s'.names, b.id);
  }

  lemma OneMoreLabelled(nodes: Nodes, names: Names, nodes': Nodes, names': Names, b: nat)
    requires DistinctChains(names) && DistinctChains(names')
    requires forall i {:trigger i in names} :: i in names ==>
               i in nodes && i in nodes' && nodes'[i] == nodes[i] && i in names' && names'[i] == names[i]
    requires forall i {:trigger i in names'} :: i in names' && i !in names && i != b ==> i in nodes' && Stranded(nodes'[i])
    requires b in names' && b in nodes' && !Stranded(nodes'[b])
    ensures Labels(nodes', names') == Labels(nodes, names)[names'[b] := nodes'[b].attrs]
  {
    hide Chains, Labels, DistinctChains, Stranded;
    var t := Labels(nodes, names)[names'[b] := nodes'[b].attrs];
    OneMoreChain(nodes, names, nodes', names', b);
    LabelKeys(nodes, names);
    forall i | i in names' && i in nodes' && !Stranded(nodes'[i]) && names'[i] in t ensures t[names'[i]] == nodes'[i].attrs {
      if i != b {
        assert i in names;
        LabelOfRow(nodes, names, i);
        OnlyOneNamed(names', i, b);
      }
    }
    LabelsAre(nodes', names', t);
  }

  // ---- Failures ------------------------------------------------------------------------------

  /** Rows and items outside the trees of `roots` are as they were at the start. */
  ghost predicate Untouched(nodes0: Nodes, items0: Items, roots: set<nat>, nodes: Nodes, items: Items)
    requires Linked(nodes0)
  {
    && (forall i {:trigger Bystander(nodes0, roots, i)} :: Bystander(nodes0, roots, i) ==> i in nodes && nodes[i] == nodes0[i])
    && (forall t {:trigger items0[t]} :: t in items0 && Bystander(nodes0, roots, items0[t].node) ==> t in items && items[t] == items0[t])
  }

  lemma ScanUntouched(s: Scan)
    ensures Untouched(s.nodes0, s.items0, s.roots, s.nodes, s.items)
  {
    forall i: nat | Bystander(s.nodes0, s.roots, i) ensures i in s.nodes && s.nodes[i] == s.nodes0[i] {
      assert i in s.nodes && i !in s.names;
      assert s.nodes[i] == s.nodes0[i];
    }
  }

  /** A failure while the bucket's own row is being found, created or marked. */
  lemma BucketRefused(s: Scan, b: nat, nodes: Nodes)
    requires forall i :: i in s.nodes && i != b ==> i in nodes && nodes[i] == s.nodes[i]
    requires b in s.nodes ==> s.nodes[b].parent == None
    ensures Untouched(s.nodes0, s.items0, s.roots + {b}, nodes, s.items)
  {
    ScanUntouched(s);
    forall i: nat | Bystander(s.nodes0, s.roots + {b}, i) ensures i in nodes && nodes[i] == s.nodes0[i] {
      assert Bystander(s.nodes0, s.roots, i);
      assert s.nodes[i] == s.nodes0[i];
      RootOfParent(s.nodes0, i);
    }
    forall t | t in s.items0 && Bystander(s.nodes0, s.roots + {b}, s.items0[t].node) ensures t in s.items && s.items[t] == s.items0[t] {
      assert Bystander(s.nodes0, s.roots, s.items0[t].node);
    }
  }

  /** A failure between the two deletions leaves more items than planned, and nothing worse. */
  lemma BucketHalfCleared(s: Scan, nodes: Nodes, items: Items)
    requires nodes == s.nodes && forall t :: t in s.items ==> t in items && items[t] == s.items[t]
    ensures Untouched(s.nodes0, s.items0, s.roots, nodes, items)
  {
    ScanUntouched(s);
  }
}

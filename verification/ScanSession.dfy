/** What holds between the stored rows and the service's in-memory counters while a scan is under way. */
module ScanSession {
  import opened Options
  import opened MetadataForest
  import opened NodeNames
  import opened NodePlacement
  import opened Deliveries

  datatype Aggregate = Aggregate(itemCount: int, totalSize: int)

  /** `nodeStats`: counters by row id. */
  type Stats = map<nat, Aggregate>

  function AggregateOf(stats: Stats, id: nat): Aggregate {
    if id in stats then stats[id] else Aggregate(0, 0)
  }

  function EnsureNodeAggregate(stats: Stats, id: nat): Stats {
    if id in stats then stats else stats[id := Aggregate(0, 0)]
  }

  /** An upsert that reports its row ensures the row's counter; one that leaves it stranded does not. */
  function StatsAfter(stats: Stats, n: Node): Stats {
    if Stranded(n) then stats else EnsureNodeAggregate(stats, n.id)
  }

  function Credited(stats: Stats, id: nat, size: int): Stats {
    stats[id := Aggregate(AggregateOf(stats, id).itemCount + 1, AggregateOf(stats, id).totalSize + size)]
  }

  /** Every named row's counter is its share of the deliveries. */
  ghost predicate Tallied(stats: Stats, names: Names, log: seq<Delivery>) {
    forall i {:trigger names[i]} :: i in names ==> AggregateOf(stats, i) == Aggregate(TallyCount(log, names[i]), TallySize(log, names[i]))
  }

  /** Counters are kept for labelled rows of the scanned trees, and for all of them but perhaps the buckets. */
  ghost predicate CountersPlaced(nodes: Nodes, roots: set<nat>, names: Names, stats: Stats) {
    && (forall i {:trigger i in stats} :: i in stats ==> i in names && i in nodes && !Stranded(nodes[i]))
    && (forall i {:trigger i in names} :: i in names && i !in roots && i in nodes && !Stranded(nodes[i]) ==> i in stats)
  }

  /** The scanned rows are labelled top-level buckets of the resource. */
  ghost predicate Rooted(nodes: Nodes, metaRes: MetaResource, roots: set<nat>) {
    forall r {:trigger r in roots} :: r in roots ==>
      && r in nodes && nodes[r].kind == BucketNode && nodes[r].tenant == metaRes.tenant && nodes[r].res == metaRes.id
      && !Stranded(nodes[r]) && nodes[r].name != ""
  }

  /** A scanned bucket that was there at the start is still at the same address. */
  ghost predicate RootsKept(nodes0: Nodes, roots: set<nat>, nodes: Nodes) {
    forall r {:trigger r in roots} :: r in roots && r in nodes0 ==> r in nodes && SameAddress(nodes0[r], nodes[r])
  }

  /** Rows below the roots have not been finalised yet. */
  ghost predicate Unfinished(nodes: Nodes, roots: set<nat>, names: Names) {
    forall i {:trigger nodes[i]} {:trigger i in names} :: i in names && i !in roots ==>
      i in nodes && nodes[i].itemCount == 0 && nodes[i].totalSize == 0 && nodes[i].status == Unscanned
  }

  /** Row i of the start lies in none of the scanned trees. */
  ghost predicate Bystander(nodes0: Nodes, roots: set<nat>, i: nat)
    requires Linked(nodes0)
  {
    i in nodes0 && RootOf(nodes0, i) !in roots
  }

  /** The rows outside the scanned trees are exactly the bystanders, unchanged. */
  ghost predicate RowsKept(nodes0: Nodes, roots: set<nat>, nodes: Nodes, names: Names)
    requires Linked(nodes0)
  {
    && (forall i {:trigger Bystander(nodes0, roots, i)} {:trigger nodes[i]} ::
          i in nodes && i !in names ==> Bystander(nodes0, roots, i) && nodes[i] == nodes0[i])
    && (forall i {:trigger Bystander(nodes0, roots, i)} :: Bystander(nodes0, roots, i) ==> i in nodes && i !in names)
  }

  /** So are their items. */
  ghost predicate ItemsKept(nodes0: Nodes, items0: Items, roots: set<nat>, items: Items, names: Names)
    requires Linked(nodes0)
  {
    && (forall t {:trigger items[t]} :: t in items && items[t].node !in names ==> t in items0 && items[t] == items0[t])
    && (forall t {:trigger items0[t]} :: t in items0 && Bystander(nodes0, roots, items0[t].node) ==> t in items && items[t] == items0[t])
  }

  /** The tables at the start of the scan and now, the top-level rows scanned so far, the name chains of the rows
      in their trees, the items delivered, and the counters. */
  datatype ScanState = ScanState(nodes0: Nodes, items0: Items, metaRes: MetaResource,
                                 nodes: Nodes, items: Items, roots: set<nat>, names: Names, log: seq<Delivery>, stats: Stats)
  {
    ghost predicate Consistent() {
      && Linked(nodes0)
      && Forest(nodes, items)
      && IsNaming(nodes, roots, names)
      && Rooted(nodes, metaRes, roots) && Unfinished(nodes, roots, names)
      && Tallied(stats, names, log) && CountersPlaced(nodes, roots, names, stats)
      && Stored(items, names, log)
      && RootsKept(nodes0, roots, nodes) && RowsKept(nodes0, roots, nodes, names) && ItemsKept(nodes0, items0, roots, items, names)
    }
  }

  type Scan = s: ScanState | s.Consistent()
    ghost witness ScanState(map[], map[], MetaResource(0, 0), map[], map[], {}, map[], [], map[])

  /** Two states of a scan with the same start and the same buckets. */
  ghost predicate SameStart(s: ScanState, s': ScanState) {
    s'.nodes0 == s.nodes0 && s'.items0 == s.items0 && s'.metaRes == s.metaRes && s'.roots == s.roots
  }

  // ---- A prefix row is found or created below a named row -------------------------

  /** Row n is a child of p: the one already holding its name, or a new one whose name is unused.  Its counters are as
      they were, or zero. */
  ghost predicate IsChildUpsert(nodes: Nodes, p: nat, n: Node) {
    && n.parent == Some(p)
    && if n.id in nodes then
         && nodes[n.id].parent == n.parent && nodes[n.id].name == n.name && !Stranded(n)
         && nodes[n.id].itemCount == n.itemCount && nodes[n.id].totalSize == n.totalSize && nodes[n.id].status == n.status
       else
         && n.itemCount == 0 && n.totalSize == 0 && n.status == Unscanned
         && forall i :: i in nodes ==> !(nodes[i].parent == Some(p) && nodes[i].name == n.name)
  }

  lemma UpsertIsChild(nodes: Nodes, nodes': Nodes, metaRes: MetaResource, parent: Node, n: Node, name: string, fullName: string)
    requires Linked(nodes) && Current(nodes, parent) && parent.tenant == metaRes.tenant && parent.res == metaRes.id
    requires || (IsUpserted(nodes, nodes', n, metaRes, Some(parent), PrefixNode, name, fullName) && !Stranded(n))
             || IsNewRow(nodes, n, metaRes, Some(parent.id), PrefixNode, name)
    ensures IsChildUpsert(nodes, parent.id, n) && n.name == name
  {
    if n.id !in nodes {
      forall i | i in nodes ensures !(nodes[i].parent == Some(parent.id) && nodes[i].name == name) {
        assert LinkedRow(nodes, i);
        assert !AtAddress(nodes[i], metaRes, Some(parent.id), PrefixNode, name);
      }
    }
  }

  lemma ChildChain(nodes: Nodes, roots: set<nat>, names: Names, p: nat, n: Node)
    requires Linked(nodes) && IsNaming(nodes, roots, names) && p in names && IsChildUpsert(nodes, p, n)
    ensures p in nodes && n.id !in roots && n.id != p
    ensures n.id in nodes ==> n.id in names && names[n.id] == names[p] + [n.name]
    ensures n.id !in nodes ==> n.id !in names
    ensures n.id !in nodes ==> forall i :: i in names ==> names[i] != names[p] + [n.name]
  {
    assert NamedRow(nodes, roots, names, p);
    assert LinkedRow(nodes, p);
    if n.id in nodes {
      assert NamedRow(nodes, roots, names, n.id) && LinkedRow(nodes, n.id);
    } else {
      assert n.id in names ==> NamedRow(nodes, roots, names, n.id);
      forall i | i in names ensures names[i] != names[p] + [n.name] {
        if names[i] == names[p] + [n.name] {
          NamedChild(nodes, roots, names, i, p, n.name);
        }
      }
    }
  }

  lemma ChildNaming(nodes: Nodes, roots: set<nat>, names: Names, p: nat, n: Node)
    requires Linked(nodes) && IsNaming(nodes, roots, names) && p in names && IsChildUpsert(nodes, p, n)
    ensures IsNaming(nodes[n.id := n], roots, names[n.id := names[p] + [n.name]])
  {
    ChildChain(nodes, roots, names, p, n);
    var nodes' := nodes[n.id := n];
    var names' := names[n.id := names[p] + [n.name]];
    forall i | i in names' ensures NamedRow(nodes', roots, names', i) {
      if i != n.id {
        assert NamedRow(nodes, roots, names, i);
      }
    }
    forall i | i in nodes' && nodes'[i].parent.Some? && nodes'[i].parent.value in names' ensures i in names' {
      if i != n.id {
        assert LinkedRow(nodes, i);
      }
    }
    forall i, j | ShareChain(names', i, j) ensures i == j {
      if (i != n.id && j != n.id) || n.id in names {
        assert ShareChain(names, i, j);
      }
    }
  }

  /** No delivery lies at or below a chain that no row has. */
  lemma {:induction false} UnnamedTally(nodes: Nodes, items: Items, roots: set<nat>, names: Names, log: seq<Delivery>, k: nat, d: seq<string>)
    requires IsNaming(nodes, roots, names) && Stored(items, names, log)
    requires |d| >= 1 && k <= |log| && forall i :: i in names ==> names[i] != d
    ensures TallyCount(log[..k], d) == 0 && TallySize(log[..k], d) == 0
  {
    if k > 0 {
      UnnamedTally(nodes, items, roots, names, log, k - 1, d);
      TallyPrefix(log, k - 1, d);
      assert HasItem(items, names, log[k - 1].dir, log[k - 1].name);
      var t :| t in items && items[t].node in names && names[items[t].node] == log[k - 1].dir && items[t].name == log[k - 1].name;
      if d <= log[k - 1].dir {
        var _ := NamedAncestor(nodes, roots, names, items[t].node, |d|);
        assert false;
      }
    }
  }

  lemma MoreNamesStored(items: Items, names: Names, names': Names, log: seq<Delivery>)
    requires Stored(items, names, log)
    requires forall i :: i in names ==> i in names' && names'[i] == names[i]
    requires forall t :: t in items && items[t].node in names' ==> items[t].node in names
    ensures Stored(items, names', log)
  {
    forall k | 0 <= k < |log| ensures HasItem(items, names', log[k].dir, log[k].name) {
      assert HasItem(items, names, log[k].dir, log[k].name);
    }
  }

  lemma ChildStored(nodes: Nodes, items: Items, roots: set<nat>, names: Names, log: seq<Delivery>, p: nat, n: Node)
    requires Linked(nodes) && ItemsPlaced(nodes, items) && IsNaming(nodes, roots, names) && p in names && IsChildUpsert(nodes, p, n)
    requires Stored(items, names, log)
    ensures Stored(items, names[n.id := names[p] + [n.name]], log)
  {
    ChildChain(nodes, roots, names, p, n);
    forall t | t in items ensures items[t].node in nodes {
      assert ItemRow(nodes, items, t);
    }
    MoreNamesStored(items, names, names[n.id := names[p] + [n.name]], log);
  }

  lemma ChildTallied(nodes: Nodes, items: Items, roots: set<nat>, names: Names, log: seq<Delivery>, stats: Stats, p: nat, n: Node)
    requires Linked(nodes) && IsNaming(nodes, roots, names) && p in names && IsChildUpsert(nodes, p, n)
    requires Stored(items, names, log) && Tallied(stats, names, log) && CountersPlaced(nodes, roots, names, stats)
    ensures Tallied(stats, names[n.id := names[p] + [n.name]], log)
  {
    ChildChain(nodes, roots, names, p, n);
    if n.id !in nodes {
      UnnamedTally(nodes, items, roots, names, log, |log|, names[p] + [n.name]);
      assert log[..|log|] == log;
    }
  }

  lemma ChildCounters(nodes: Nodes, roots: set<nat>, names: Names, log: seq<Delivery>, stats: Stats, n: Node, d: seq<string>, stats': Stats)
    requires Tallied(stats, names[n.id := d], log) && CountersPlaced(nodes, roots, names, stats)
    requires (n.id in nodes ==> !Stranded(n)) && (n.id in names ==> n.id in nodes)
    requires stats' == StatsAfter(stats, n)
    ensures Tallied(stats', names[n.id := d], log) && CountersPlaced(nodes[n.id := n], roots, names[n.id := d], stats')
  {
    assert forall i :: AggregateOf(stats', i) == AggregateOf(stats, i);
  }

  lemma ChildRowsKept(nodes0: Nodes, nodes: Nodes, roots: set<nat>, names: Names, p: nat, n: Node)
    requires Linked(nodes0) && Linked(nodes) && IsNaming(nodes, roots, names) && p in names && IsChildUpsert(nodes, p, n)
    requires RowsKept(nodes0, roots, nodes, names)
    ensures RowsKept(nodes0, roots, nodes[n.id := n], names[n.id := names[p] + [n.name]])
    ensures Unfinished(nodes, roots, names) ==> Unfinished(nodes[n.id := n], roots, names[n.id := names[p] + [n.name]])
  {
    ChildChain(nodes, roots, names, p, n);
  }

  lemma ChildItemsKept(nodes0: Nodes, items0: Items, nodes: Nodes, items: Items, roots: set<nat>, names: Names, id: nat, d: seq<string>)
    requires Linked(nodes0) && ItemsKept(nodes0, items0, roots, items, names)
    ensures ItemsKept(nodes0, items0, roots, items, names[id := d])
  {
  }

  lemma ChildContents(s: Scan, p: nat, n: Node, stats: Stats)
    requires p in s.names && IsChildUpsert(s.nodes, p, n)
    requires stats == StatsAfter(s.stats, n)
    ensures var names := s.names[n.id := s.names[p] + [n.name]];
            Stored(s.items, names, s.log) && Tallied(stats, names, s.log) && CountersPlaced(s.nodes[n.id := n], s.roots, names, stats)
  {
    ChildStored(s.nodes, s.items, s.roots, s.names, s.log, p, n);
    ChildTallied(s.nodes, s.items, s.roots, s.names, s.log, s.stats, p, n);
    ChildCounters(s.nodes, s.roots, s.names, s.log, s.stats, n, s.names[p] + [n.name], stats);
  }

  lemma ChildSurroundings(s: Scan, p: nat, n: Node)
    requires p in s.names && IsChildUpsert(s.nodes, p, n)
    ensures var nodes := s.nodes[n.id := n];
            var names := s.names[n.id := s.names[p] + [n.name]];
            && IsNaming(nodes, s.roots, names) && Rooted(nodes, s.metaRes, s.roots) && Unfinished(nodes, s.roots, names)
            && RootsKept(s.nodes0, s.roots, nodes) && RowsKept(s.nodes0, s.roots, nodes, names)
            && ItemsKept(s.nodes0, s.items0, s.roots, s.items, names)
  {
    ChildChain(s.nodes, s.roots, s.names, p, n);
    ChildNaming(s.nodes, s.roots, s.names, p, n);
    ChildRowsKept(s.nodes0, s.nodes, s.roots, s.names, p, n);
    ChildItemsKept(s.nodes0, s.items0, s.nodes, s.items, s.roots, s.names, n.id, s.names[p] + [n.name]);
  }

  /** The scan stays consistent when a prefix row is found, created, or left stranded. */
  lemma ChildKeepsScan(s: Scan, p: nat, n: Node, stats: Stats) returns (s': Scan)
    requires p in s.names && IsChildUpsert(s.nodes, p, n)
    requires Forest(s.nodes[n.id := n], s.items)
    requires stats == StatsAfter(s.stats, n)
    ensures SameStart(s, s') && s'.items == s.items && s'.log == s.log
    ensures s'.nodes == s.nodes[n.id := n] && s'.names == s.names[n.id := s.names[p] + [n.name]] && s'.stats == stats
    ensures n.id !in s.roots && n.id != p
    ensures n.id in s.names ==> s.names[n.id] == s.names[p] + [n.name]
  {
    hide IsNaming, Rooted, Unfinished, Tallied, CountersPlaced, Stored, RootsKept, RowsKept, ItemsKept, IsChildUpsert, Linked, Labelled,
      UniqueAddresses, ItemsPlaced;
    ChildChain(s.nodes, s.roots, s.names, p, n);
    ChildSurroundings(s, p, n);
    ChildContents(s, p, n, stats);
    s' := s.(nodes := s.nodes[n.id := n], names := s.names[n.id := s.names[p] + [n.name]], stats := stats);
  }

  // ---- An item is delivered ---------------------------------------------------

  /** The effect of a successful `upsertItem` on the item table. */
  ghost predicate ItemUpserted(items: Items, items': Items, t: nat, node: nat, name: string, data: ItemData) {
    && t in items' && items' == items[t := items'[t]]
    && items'[t].node == node && items'[t].name == name && DataOf(items'[t]) == data
    && (t in items ==> items[t].node == node && items[t].name == name)
  }

  lemma DeliveryStored(nodes: Nodes, items: Items, items': Items, names: Names, log: seq<Delivery>, t: nat, p: nat, name: string, data: ItemData)
    requires ItemsPlaced(nodes, items') && Stored(items, names, log) && p in names
    requires DistinctChains(names)
    requires ItemUpserted(items, items', t, p, name, data)
    ensures Stored(items', names, log + [Delivery(names[p], name, data)])
  {
    var x := Delivery(names[p], name, data);
    var log' := log + [x];
    forall u | u in items' && items'[u].node in names
      ensures LastData(log', names[items'[u].node], items'[u].name) == Some(DataOf(items'[u]))
    {
      LastDataSnoc(log, x, names[items'[u].node], items'[u].name);
      if names[items'[u].node] == names[p] && items'[u].name == name {
        assert ShareChain(names, items'[u].node, p);
        assert ShareSlot(items', u, t);
      }
    }
    forall k | 0 <= k < |log'| ensures HasItem(items', names, log'[k].dir, log'[k].name) {
      if k < |log| {
        assert log'[k] == log[k];
        assert HasItem(items, names, log[k].dir, log[k].name);
        var u :| u in items && items[u].node in names && names[items[u].node] == log[k].dir && items[u].name == log[k].name;
        assert items'[u].node == items[u].node && items'[u].name == items[u].name;
      }
    }
  }

  // ---- Crediting the rows above an item -----------------------------------------

  /** `chain` is the list of rows from the bucket down to directory `dir`. */
  ghost predicate IsParentChain(names: Names, chain: seq<nat>, dir: seq<string>) {
    |chain| == |dir| && forall j :: 0 <= j < |chain| ==> chain[j] in names && names[chain[j]] == dir[..j + 1]
  }

  /** The counters after crediting each row of a chain, as the service's loop does it. */
  function CreditedAll(stats: Stats, chain: seq<nat>, size: int): Stats {
    if chain == [] then stats
    else Credited(CreditedAll(stats, chain[..|chain| - 1], size), chain[|chain| - 1], size)
  }

  lemma {:induction false} CreditedOnce(stats: Stats, names: Names, chain: seq<nat>, dir: seq<string>, size: int, i: nat)
    requires IsParentChain(names, chain, dir)
    ensures AggregateOf(CreditedAll(stats, chain, size), i)
            == if i in chain then Aggregate(AggregateOf(stats, i).itemCount + 1, AggregateOf(stats, i).totalSize + size)
               else AggregateOf(stats, i)
  {
    if chain != [] {
      var rest := chain[..|chain| - 1];
      var last := chain[|chain| - 1];
      ChainFront(names, chain, dir);
      CreditedOnce(stats, names, rest, dir[..|dir| - 1], size, i);
      assert chain == rest + [last];
    }
  }

  lemma {:induction false} CreditedKeys(stats: Stats, chain: seq<nat>, size: int)
    ensures CreditedAll(stats, chain, size).Keys == stats.Keys + set j | 0 <= j < |chain| :: chain[j]
  {
    if chain != [] {
      CreditedKeys(stats, chain[..|chain| - 1], size);
      assert chain == chain[..|chain| - 1] + [chain[|chain| - 1]];
    }
  }

  lemma ChainFront(names: Names, chain: seq<nat>, dir: seq<string>)
    requires IsParentChain(names, chain, dir) && chain != []
    ensures IsParentChain(names, chain[..|chain| - 1], dir[..|dir| - 1])
    ensures chain[|chain| - 1] !in chain[..|chain| - 1]
  {
    var rest := chain[..|chain| - 1];
    forall j | 0 <= j < |rest| ensures rest[j] in names && names[rest[j]] == dir[..|dir| - 1][..j + 1] {
      assert rest[j] == chain[j];
    }
    forall j | 0 <= j < |rest| ensures rest[j] != chain[|chain| - 1] {
      assert |names[chain[j]]| == j + 1 && |names[chain[|chain| - 1]]| == |dir|;
    }
  }

  /** The rows of the chain are exactly those at or above the directory. */
  lemma ChainIsAncestors(nodes: Nodes, roots: set<nat>, names: Names, chain: seq<nat>, dir: seq<string>, i: nat)
    requires Linked(nodes) && IsNaming(nodes, roots, names) && IsParentChain(names, chain, dir) && i in names
    ensures i in chain <==> names[i] <= dir
  {
    NamedDepth(nodes, roots, names, i);
    assert LinkedRow(nodes, i);
    if names[i] <= dir {
      var j := |names[i]| - 1;
      assert names[chain[j]] == dir[..j + 1] == names[i];
      assert ShareChain(names, chain[j], i);
    }
    if i in chain {
      var j :| 0 <= j < |chain| && chain[j] == i;
    }
  }

  lemma DeliveryTallied(nodes: Nodes, roots: set<nat>, names: Names, log: seq<Delivery>, stats: Stats, chain: seq<nat>, x: Delivery)
    requires Linked(nodes) && IsNaming(nodes, roots, names) && IsParentChain(names, chain, x.dir)
    requires Tallied(stats, names, log)
    ensures Tallied(CreditedAll(stats, chain, DataSize(x.data)), names, log + [x])
  {
    var stats' := CreditedAll(stats, chain, DataSize(x.data));
    forall i | i in names
      ensures AggregateOf(stats', i) == Aggregate(TallyCount(log + [x], names[i]), TallySize(log + [x], names[i]))
    {
      TallySnoc(log, x, names[i]);
      CreditedOnce(stats, names, chain, x.dir, DataSize(x.data), i);
      ChainIsAncestors(nodes, roots, names, chain, x.dir, i);
    }
  }

  lemma CreditedPlaced(nodes: Nodes, roots: set<nat>, names: Names, stats: Stats, chain: seq<nat>, dir: seq<string>, size: int)
    requires IsParentChain(names, chain, dir) && CountersPlaced(nodes, roots, names, stats)
    requires forall j :: 0 <= j < |chain| ==> chain[j] in nodes && !Stranded(nodes[chain[j]])
    ensures CountersPlaced(nodes, roots, names, CreditedAll(stats, chain, size))
  {
    CreditedKeys(stats, chain, size);
  }

  lemma DeliveryItemsKept(nodes0: Nodes, items0: Items, roots: set<nat>, names: Names, items: Items, items': Items,
                          t: nat, p: nat, name: string, data: ItemData)
    requires Linked(nodes0) && ItemsKept(nodes0, items0, roots, items, names)
    requires forall i {:trigger Bystander(nodes0, roots, i)} :: Bystander(nodes0, roots, i) ==> i !in names
    requires p in names && ItemUpserted(items, items', t, p, name, data)
    ensures ItemsKept(nodes0, items0, roots, items', names)
  {
  }

  /** The scan stays consistent when an item is upserted and the rows above it are credited once each. */
  lemma DeliveryKeepsScan(s: Scan, items': Items, t: nat, p: nat, name: string, data: ItemData, chain: seq<nat>) returns (s': Scan)
    requires p in s.names && IsParentChain(s.names, chain, s.names[p])
    requires ItemUpserted(s.items, items', t, p, name, data) && Forest(s.nodes, items')
    requires forall j :: 0 <= j < |chain| ==> chain[j] in s.nodes && !Stranded(s.nodes[chain[j]])
    ensures SameStart(s, s') && s'.nodes == s.nodes && s'.names == s.names && s'.items == items'
    ensures s'.log == s.log + [Delivery(s.names[p], name, data)] && s'.stats == CreditedAll(s.stats, chain, DataSize(data))
  {
    hide Rooted, Unfinished, Stored, Tallied, CountersPlaced, ItemsKept, ItemUpserted, IsParentChain;
    var x := Delivery(s.names[p], name, data);
    var raw := s.(items := items', log := s.log + [x], stats := CreditedAll(s.stats, chain, DataSize(data)));
    DeliveryStored(s.nodes, s.items, items', s.names, s.log, t, p, name, data);
    DeliveryTallied(s.nodes, s.roots, s.names, s.log, s.stats, chain, x);
    CreditedPlaced(s.nodes, s.roots, s.names, s.stats, chain, x.dir, DataSize(data));
    DeliveryItemsKept(s.nodes0, s.items0, s.roots, s.names, s.items, items', t, p, name, data);
    s' := raw;
  }

  /** Opening a counter at zero changes nothing else. */
  lemma EnsureKeepsScan(s: Scan, id: nat) returns (s': Scan)
    requires id in s.names && id in s.nodes && !Stranded(s.nodes[id])
    ensures SameStart(s, s') && s'.nodes == s.nodes && s'.items == s.items && s'.names == s.names && s'.log == s.log
    ensures s'.stats == EnsureNodeAggregate(s.stats, id)
  {
    hide Forest, IsNaming, Rooted, Unfinished, Stored, RowsKept, ItemsKept, Stranded;
    var stats := EnsureNodeAggregate(s.stats, id);
    assert forall i :: AggregateOf(stats, i) == AggregateOf(s.stats, i);
    s' := s.(stats := stats);
  }

  // ---- The set of directories ---------------------------------------------------

  /** The directories that labelled rows stand for. */
  ghost function Chains(nodes: Nodes, names: Names): set<seq<string>> {
    set i | i in names && i in nodes && !Stranded(nodes[i]) :: names[i]
  }

  lemma ChainsExtended(nodes: Nodes, names: Names, n: Node, d: seq<string>)
    requires (n.id in names ==> names[n.id] == d) && !Stranded(n)
    ensures Chains(nodes[n.id := n], names[n.id := d]) == Chains(nodes, names) + {d}
  {
    var nodes' := nodes[n.id := n];
    var names' := names[n.id := d];
    forall c | c in Chains(nodes, names) ensures c in Chains(nodes', names') {
      var i :| i in names && i in nodes && !Stranded(nodes[i]) && names[i] == c;
      assert names'[i] == c;
    }
    assert names'[n.id] == d;
  }

  // ---- What the rows say of their directories -------------------------------------

  /** The labelled row that stands for a directory. */
  ghost function RowOf(nodes: Nodes, names: Names, c: seq<string>): (i: nat)
    requires c in Chains(nodes, names)
    ensures i in names && i in nodes && !Stranded(nodes[i]) && names[i] == c
  {
    var i :| i in names && i in nodes && !Stranded(nodes[i]) && names[i] == c;
    i
  }

  /** The attributes of the directories that labelled rows stand for. */
  ghost function Labels(nodes: Nodes, names: Names): map<seq<string>, Attributes> {
    map c | c in Chains(nodes, names) :: nodes[RowOf(nodes, names, c)].attrs
  }

  lemma LabelOfRow(nodes: Nodes, names: Names, i: nat)
    requires DistinctChains(names) && i in names && i in nodes && !Stranded(nodes[i])
    ensures names[i] in Chains(nodes, names) && Labels(nodes, names)[names[i]] == nodes[i].attrs
  {
    assert names[i] in Chains(nodes, names);
    assert ShareChain(names, RowOf(nodes, names, names[i]), i);
  }

  lemma LabelsAre(nodes: Nodes, names: Names, t: map<seq<string>, Attributes>)
    requires t.Keys == Chains(nodes, names)
    requires forall i {:trigger names[i]} :: i in names && i in nodes && !Stranded(nodes[i]) && names[i] in t ==> t[names[i]] == nodes[i].attrs
    ensures Labels(nodes, names) == t
  {
    hide Chains, Stranded;
    forall c | c in t ensures Labels(nodes, names)[c] == t[c] {
      assert names[RowOf(nodes, names, c)] == c;
    }
  }

  lemma LabelsExtended(nodes: Nodes, names: Names, n: Node, d: seq<string>)
    requires DistinctChains(names) && DistinctChains(names[n.id := d])
    requires (n.id in names ==> names[n.id] == d) && !Stranded(n)
    ensures Labels(nodes[n.id := n], names[n.id := d]) == Labels(nodes, names)[d := n.attrs]
  {
    hide Chains, Labels, DistinctChains, Stranded;
    var nodes', names' := nodes[n.id := n], names[n.id := d];
    var t := Labels(nodes, names)[d := n.attrs];
    ChainsExtended(nodes, names, n, d);
    LabelKeys(nodes, names);
    forall i | i in names' && i in nodes' && !Stranded(nodes'[i]) && names'[i] in t ensures t[names'[i]] == nodes'[i].attrs {
      if i != n.id {
        LabelOfRow(nodes, names, i);
        OnlyOneNamed(names', i, n.id);
      }
    }
    LabelsAre(nodes', names', t);
  }

  lemma LabelKeys(nodes: Nodes, names: Names)
    ensures Labels(nodes, names).Keys == Chains(nodes, names)
  {
  }

  lemma DistinctNames(s: Scan)
    ensures DistinctChains(s.names)
  {
  }

  lemma OnlyOneNamed(names: Names, i: nat, j: nat)
    requires DistinctChains(names) && i in names && j in names && i != j
    ensures names[i] != names[j]
  {
    assert !ShareChain(names, i, j);
  }

  // ---- What a batch of metadata rows asks for --------------------------------------

  /** The non-empty initial parts of a chain below its bucket, up to k names. */
  function DirsUpTo(bucket: string, dirs: seq<string>, k: nat): set<seq<string>>
    requires k <= |dirs|
  {
    if k == 0 then {} else DirsUpTo(bucket, dirs, k - 1) + {[bucket] + dirs[..k]}
  }
}

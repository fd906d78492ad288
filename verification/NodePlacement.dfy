/** Where `upsertNode` puts a row, and why doing so keeps the forest. */
module NodePlacement {
  import opened Options
  import opened MetadataForest

  datatype MetaResource = MetaResource(id: nat, tenant: nat)

  // ---- Placing a row ----------------------------------------------------------

  predicate SameIdentity(m: Node, n: Node) {
    SameAddress(m, n) && m.id == n.id && m.depth == n.depth && m.path == n.path && m.fullName == n.fullName
  }

  /** The caller's copy of a row still says where the row is and how it is labelled. */
  ghost predicate Current(nodes: Nodes, n: Node) {
    n.id in nodes && SameIdentity(nodes[n.id], n) && !Stranded(n)
  }

  /** What `scan_service_new.go` passes to `upsertNode`: a top-level row, or a prefix below a row of the same resource. */
  ghost predicate WellPlaced(nodes: Nodes, metaRes: MetaResource, parent: Option<Node>, kind: NodeKind, name: string, fullName: string) {
    match parent
    case None => kind != PrefixNode && (fullName == "" || fullName == name)
    case Some(p) =>
      && kind == PrefixNode && Current(nodes, p)
      && p.tenant == metaRes.tenant && p.res == metaRes.id && p.kind != SchemaNode
      && fullName == ComposeNodeFullName(name, parent, "/")
  }

  function ParentId(parent: Option<Node>): Option<nat> {
    if parent.Some? then Some(parent.value.id) else None
  }

  function DepthBelow(parent: Option<Node>): nat {
    if parent.Some? then parent.value.depth + 1 else 1
  }

  function ExpectedFullName(name: string, fullName: string, parent: Option<Node>): string {
    if fullName != "" then fullName else ComposeNodeFullName(name, parent, ".")
  }

  /** The row sits where the arguments of `upsertNode` say and is labelled as they prescribe. */
  predicate PlacedAt(n: Node, metaRes: MetaResource, parent: Option<Node>, kind: NodeKind, name: string, fullName: string) {
    && n.tenant == metaRes.tenant && n.res == metaRes.id && n.kind == kind && n.name == name && n.parent == ParentId(parent)
    && n.depth == DepthBelow(parent)
    && n.path == ComposeNodePath(n.id, parent)
    && n.fullName == ExpectedFullName(name, fullName, parent)
  }

  predicate AtAddress(n: Node, metaRes: MetaResource, parent: Option<nat>, kind: NodeKind, name: string) {
    n.tenant == metaRes.tenant && n.res == metaRes.id && n.kind == kind && n.name == name && n.parent == parent
  }

  lemma PathNonEmpty(id: nat, parent: Option<Node>)
    ensures ComposeNodePath(id, parent) != ""
  {
  }

  /** A placed row meets the invariant's conditions on links and labels. */
  lemma PlacedRow(nodes: Nodes, n: Node, metaRes: MetaResource, parent: Option<Node>, kind: NodeKind, name: string, fullName: string)
    requires Linked(nodes) && WellPlaced(nodes, metaRes, parent, kind, name, fullName)
    requires AtAddress(n, metaRes, ParentId(parent), kind, name) && n.depth == DepthBelow(parent)
    requires parent.Some? ==> n.id != parent.value.id
    ensures LinkedRow(nodes[n.id := n], n.id)
    ensures PlacedAt(n, metaRes, parent, kind, name, fullName) ==> LabelledRow(nodes[n.id := n], n.id) && !Stranded(n)
    ensures Stranded(n) && n.itemCount == 0 && n.totalSize == 0 && n.status == Unscanned ==> LabelledRow(nodes[n.id := n], n.id)
  {
    PathNonEmpty(n.id, parent);
  }

  /** After a successful upsert only row n differs: it is placed as asked, and either it was there before and keeps its
      scan state, or its address was free. */
  ghost predicate IsUpserted(nodes: Nodes, nodes': Nodes, n: Node, metaRes: MetaResource, parent: Option<Node>, kind: NodeKind,
                             name: string, fullName: string)
  {
    && nodes' == nodes[n.id := n]
    && PlacedAt(n, metaRes, parent, kind, name, fullName)
    && if n.id in nodes then
         && AtAddress(nodes[n.id], metaRes, ParentId(parent), kind, name)
         && nodes[n.id].(depth := n.depth, path := n.path, fullName := n.fullName, attrs := n.attrs) == n
       else IsNewRow(nodes, n, metaRes, ParentId(parent), kind, name)
  }

  ghost predicate IsNewRow(nodes: Nodes, n: Node, metaRes: MetaResource, parent: Option<nat>, kind: NodeKind, name: string) {
    && n.id !in nodes && AtAddress(n, metaRes, parent, kind, name)
    && n.status == Unscanned && n.itemCount == 0 && n.totalSize == 0
    && (forall i :: i in nodes ==> !AtAddress(nodes[i], metaRes, parent, kind, name))
  }

  /** A creation that failed half-way left one new row without a path. */
  ghost predicate LeftStranded(nodes: Nodes, nodes': Nodes, metaRes: MetaResource, parent: Option<Node>, kind: NodeKind, name: string) {
    exists n: Node ::
      nodes' == nodes[n.id := n] && Stranded(n) && n.depth == DepthBelow(parent) && IsNewRow(nodes, n, metaRes, ParentId(parent), kind, name)
  }

  /** The parent exists and no row of another kind holds the name below it. */
  ghost predicate NameFree(nodes: Nodes, metaRes: MetaResource, parent: Option<Node>, kind: NodeKind, name: string) {
    parent.Some? ==>
      && parent.value.id in nodes
      && forall i :: i in nodes && nodes[i].res == metaRes.id && nodes[i].name == name && nodes[i].parent == Some(parent.value.id) ==>
           AtAddress(nodes[i], metaRes, ParentId(parent), kind, name)
  }

  lemma StrandedKeepsForest(nodes: Nodes, items: Items, n: Node, metaRes: MetaResource, parent: Option<Node>, kind: NodeKind,
      name: string, fullName: string)
    requires Forest(nodes, items) && WellPlaced(nodes, metaRes, parent, kind, name, fullName)
    requires n.depth == DepthBelow(parent) && Stranded(n) && IsNewRow(nodes, n, metaRes, ParentId(parent), kind, name)
    ensures Forest(nodes[n.id := n], items)
  {
    PlacedRow(nodes, n, metaRes, parent, kind, name, fullName);
    forall i | i in nodes ensures !SameAddress(nodes[i], n) {
      assert !AtAddress(nodes[i], metaRes, ParentId(parent), kind, name);
    }
    InsertKeepsForest(nodes, items, n);
  }

  lemma UpsertedKeepsForest(nodes: Nodes, items: Items, nodes': Nodes, n: Node,
                            metaRes: MetaResource, parent: Option<Node>, kind: NodeKind, name: string, fullName: string)
    requires Forest(nodes, items) && WellPlaced(nodes, metaRes, parent, kind, name, fullName)
    requires IsUpserted(nodes, nodes', n, metaRes, parent, kind, name, fullName)
    ensures Forest(nodes', items) && !Stranded(n)
  {
    if parent.Some? {
      assert LinkedRow(nodes, parent.value.id);
    }
    if n.id in nodes {
      assert LinkedRow(nodes, n.id);
      PlacedRow(nodes, n, metaRes, parent, kind, name, fullName);
      RepairKeepsForest(nodes, items, n);
    } else {
      PlacedRow(nodes, n, metaRes, parent, kind, name, fullName);
      forall i | i in nodes ensures !SameAddress(nodes[i], n) {
        assert !AtAddress(nodes[i], metaRes, ParentId(parent), kind, name);
      }
      InsertKeepsForest(nodes, items, n);
    }
  }

  /** Below a row of the resource the unique key (res_id, name, parent_node_id) never refuses what the lookup missed. */
  lemma PlacedNameIsFree(nodes: Nodes, metaRes: MetaResource, parent: Option<Node>, kind: NodeKind, name: string, fullName: string)
    requires Linked(nodes) && WellPlaced(nodes, metaRes, parent, kind, name, fullName)
    ensures NameFree(nodes, metaRes, parent, kind, name)
  {
    if parent.Some? {
      forall i | i in nodes && nodes[i].res == metaRes.id && nodes[i].name == name && nodes[i].parent == Some(parent.value.id)
        ensures AtAddress(nodes[i], metaRes, ParentId(parent), kind, name)
      {
        assert LinkedRow(nodes, i);
      }
    }
  }

  lemma TopNameIsFree(nodes: Nodes, metaRes: MetaResource, kind: NodeKind, name: string)
    ensures NameFree(nodes, metaRes, None, kind, name)
  {
  }

  predicate AtSlot(it: Item, metaRes: MetaResource, node: nat, kind: ItemKind, name: string) {
    it.tenant == metaRes.tenant && it.res == metaRes.id && it.node == node && it.kind == kind && it.name == name
  }

  function ItemOf(id: nat, metaRes: MetaResource, node: nat, kind: ItemKind, name: string, data: ItemData): Item {
    Item(id, metaRes.tenant, metaRes.id, node, kind, name, data.fullName, data.rowCount, data.sizeBytes, data.objectSize, data.attrs)
  }

  /** After a successful upsert only item t differs: it was at the slot before, or is new. */
  ghost predicate IsUpsertedItem(items: Items, items': Items, t: nat, metaRes: MetaResource, node: nat, kind: ItemKind,
      name: string, data: ItemData)
  {
    && items' == items[t := ItemOf(t, metaRes, node, kind, name, data)]
    && if t in items then AtSlot(items[t], metaRes, node, kind, name)
       else forall u :: u in items ==> !AtSlot(items[u], metaRes, node, kind, name)
  }

  /** The node exists and no item of another kind or resource holds the name in it. */
  ghost predicate SlotFree(nodes: Nodes, items: Items, metaRes: MetaResource, node: nat, kind: ItemKind, name: string) {
    && node in nodes
    && forall t :: t in items && items[t].node == node && items[t].name == name ==> AtSlot(items[t], metaRes, node, kind, name)
  }

  lemma PlacedSlotIsFree(nodes: Nodes, items: Items, metaRes: MetaResource, node: nat, kind: ItemKind, name: string)
    requires Forest(nodes, items) && node in nodes
    requires nodes[node].tenant == metaRes.tenant && nodes[node].res == metaRes.id
    requires kind == if nodes[node].kind == SchemaNode then TableItem else ObjectItem
    ensures SlotFree(nodes, items, metaRes, node, kind, name)
  {
    forall t | t in items && items[t].node == node && items[t].name == name ensures AtSlot(items[t], metaRes, node, kind, name) {
      assert ItemRow(nodes, items, t);
    }
  }

  lemma UpsertedItemKeepsForest(nodes: Nodes, items: Items, items': Items, t: nat, metaRes: MetaResource, node: nat, kind: ItemKind,
                                name: string, data: ItemData)
    requires Forest(nodes, items) && node in nodes && !Stranded(nodes[node])
    requires nodes[node].tenant == metaRes.tenant && nodes[node].res == metaRes.id
    requires kind == if nodes[node].kind == SchemaNode then TableItem else ObjectItem
    requires IsUpsertedItem(items, items', t, metaRes, node, kind, name, data)
    ensures Forest(nodes, items')
  {
    PlacedSlotIsFree(nodes, items, metaRes, node, kind, name);
    forall u | u in items && items[u].node == node && items[u].name == name ensures u == t {
      assert AtSlot(items[u], metaRes, node, kind, name);
      if t in items {
        assert ShareSlot(items, u, t);
      }
    }
    ItemKeepsForest(nodes, items, ItemOf(t, metaRes, node, kind, name, data));
  }

  lemma ItemKeepsForest(nodes: Nodes, items: Items, it: Item)
    requires Forest(nodes, items)
    requires ItemRow(nodes, items[it.id := it], it.id)
    requires forall t :: t in items && items[t].node == it.node && items[t].name == it.name ==> t == it.id
    ensures Forest(nodes, items[it.id := it])
  {
    var items' := items[it.id := it];
    forall t | t in items' ensures ItemRow(nodes, items', t) {
      if t != it.id {
        assert ItemRow(nodes, items, t);
      }
    }
    forall t, u | ShareSlot(items', t, u) ensures t == u {
      if t != it.id && u != it.id {
        assert ShareSlot(items, t, u);
      }
    }
  }
}

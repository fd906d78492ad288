/** The rows of `meta_node` and `meta_item`, the invariant that makes them a forest with
    materialised id-paths, and the theorem that the LIKE query on those paths is the tree relation. */
module MetadataForest {
  import opened Options
  import opened GoStrings
  import opened SqlLike

  datatype NodeKind = BucketNode | PrefixNode | SchemaNode
  datatype ItemKind = ObjectItem | TableItem
  datatype ScanStatus = Unscanned | Scanning | Scanned

  type Attributes = map<string, string>

  datatype Node = Node(id: nat, tenant: nat, res: nat, parent: Option<nat>, kind: NodeKind, name: string,
                       depth: nat, path: string, fullName: string, status: ScanStatus,
                       itemCount: int, totalSize: int, errorMessage: string, attrs: Attributes)

  datatype Item = Item(id: nat, tenant: nat, res: nat, node: nat, kind: ItemKind, name: string,
                       fullName: string, rowCount: Option<int>, sizeBytes: Option<int>,
                       objectSize: Option<int>, attrs: Attributes)

  /** The columns an `upsertItem` writes. */
  datatype ItemData = ItemData(fullName: string, rowCount: Option<int>, sizeBytes: Option<int>, objectSize: Option<int>,
                               attrs: Attributes)

  function DataOf(it: Item): ItemData {
    ItemData(it.fullName, it.rowCount, it.sizeBytes, it.objectSize, it.attrs)
  }

  type Nodes = map<nat, Node>
  type Items = map<nat, Item>

  // ---- Labels ---------------------------------------------------------------

  function ComposeNodePath(nodeId: nat, parent: Option<Node>): string {
    match parent
    case None => Decimal(nodeId)
    case Some(p) =>
      if p.path == "" then Decimal(p.id) + "/" + Decimal(nodeId)
      else p.path + "/" + Decimal(nodeId)
  }

  function ComposeNodeFullName(name: string, parent: Option<Node>, separator: string): string {
    if parent.None? || parent.value.fullName == "" then name
    else parent.value.fullName + (if separator == "" then "." else separator) + name
  }

  function ParentRow(nodes: Nodes, n: Node): Option<Node> {
    if n.parent.Some? && n.parent.value in nodes then Some(nodes[n.parent.value]) else None
  }

  // ---- The invariant --------------------------------------------------------

  /** Row i points at a row of the same resource one level up, or is a root.  A row that already
      has a child carries its path: only a just-created row can lack one. */
  ghost predicate LinkedRow(nodes: Nodes, i: nat)
    requires i in nodes
  {
    var n := nodes[i];
    && n.id == i
    && match n.parent
       case None => n.depth == 1 && n.kind != PrefixNode
       case Some(p) =>
         && n.kind == PrefixNode
         && p in nodes
         && nodes[p].tenant == n.tenant && nodes[p].res == n.res
         && nodes[p].kind != SchemaNode
         && n.depth == nodes[p].depth + 1
         && nodes[p].path != ""
  }

  ghost predicate Linked(nodes: Nodes) {
    forall i {:trigger LinkedRow(nodes, i)} :: i in nodes ==> LinkedRow(nodes, i)
  }

  /** The columns `upsertNode` looks a row up by. */
  predicate SameAddress(m: Node, n: Node) {
    m.res == n.res && m.tenant == n.tenant && m.kind == n.kind && m.name == n.name && m.parent == n.parent
  }

  ghost predicate ShareAddress(nodes: Nodes, i: nat, j: nat) {
    i in nodes && j in nodes && SameAddress(nodes[i], nodes[j])
  }

  ghost predicate UniqueAddresses(nodes: Nodes) {
    forall i, j {:trigger ShareAddress(nodes, i, j)} :: ShareAddress(nodes, i, j) ==> i == j
  }

  /** A row whose second write failed: no path yet, nothing counted.  By `LinkedRow` and
      `ItemRow` such a stranded row has neither children nor items. */
  predicate Stranded(n: Node) {
    n.path == ""
  }

  ghost predicate LabelledRow(nodes: Nodes, i: nat)
    requires i in nodes
  {
    var n := nodes[i];
    if Stranded(n) then n.itemCount == 0 && n.totalSize == 0 && n.status == Unscanned
    else
      && n.path == ComposeNodePath(i, ParentRow(nodes, n))
      && n.fullName == ComposeNodeFullName(n.name, ParentRow(nodes, n), "/")
  }

  ghost predicate Labelled(nodes: Nodes) {
    forall i {:trigger LabelledRow(nodes, i)} :: i in nodes ==> LabelledRow(nodes, i)
  }

  ghost predicate ItemRow(nodes: Nodes, items: Items, t: nat)
    requires t in items
  {
    var it := items[t];
    && it.id == t
    && it.node in nodes
    && it.tenant == nodes[it.node].tenant && it.res == nodes[it.node].res
    && it.kind == (if nodes[it.node].kind == SchemaNode then TableItem else ObjectItem)
    && !Stranded(nodes[it.node])
  }

  ghost predicate ShareSlot(items: Items, t: nat, u: nat) {
    t in items && u in items && items[t].node == items[u].node && items[t].name == items[u].name
  }

  /** UNIQUE (node_id, name). */
  ghost predicate UniqueSlots(items: Items) {
    forall t, u {:trigger ShareSlot(items, t, u)} :: ShareSlot(items, t, u) ==> t == u
  }

  ghost predicate ItemsPlaced(nodes: Nodes, items: Items) {
    && (forall t {:trigger ItemRow(nodes, items, t)} :: t in items ==> ItemRow(nodes, items, t))
    && UniqueSlots(items)
  }

  ghost predicate Forest(nodes: Nodes, items: Items) {
    Linked(nodes) && UniqueAddresses(nodes) && Labelled(nodes) && ItemsPlaced(nodes, items)
  }

  // ---- Ancestry -------------------------------------------------------------

  /** Ids from the root down to i. */
  function IdChain(nodes: Nodes, i: nat): (c: seq<nat>)
    requires Linked(nodes) && i in nodes
    ensures |c| == nodes[i].depth >= 1
    ensures c[|c| - 1] == i
    ensures forall k :: 0 <= k < |c| ==> c[k] in nodes
    decreases nodes[i].depth
  {
    assert LinkedRow(nodes, i);
    match nodes[i].parent
    case None => [i]
    case Some(p) => IdChain(nodes, p) + [i]
  }

  function RootOf(nodes: Nodes, i: nat): nat
    requires Linked(nodes) && i in nodes
  {
    IdChain(nodes, i)[0]
  }

  predicate IsProperDescendant(nodes: Nodes, i: nat, a: nat)
    requires Linked(nodes) && i in nodes
  {
    i != a && a in IdChain(nodes, i)
  }

  /** Everything above a row on its chain has the matching initial part of that chain. */
  lemma {:induction false} ChainPrefix(nodes: Nodes, i: nat, k: nat)
    requires Linked(nodes) && i in nodes && k < nodes[i].depth
    ensures IdChain(nodes, IdChain(nodes, i)[k]) == IdChain(nodes, i)[..k + 1]
    decreases nodes[i].depth
  {
    assert LinkedRow(nodes, i);
    var c := IdChain(nodes, i);
    if k == |c| - 1 {
      assert c[..k + 1] == c;
    } else {
      var p := nodes[i].parent.value;
      ChainPrefix(nodes, p, k);
      assert c[..k + 1] == IdChain(nodes, p)[..k + 1];
    }
  }

  lemma {:induction false} RootOfParent(nodes: Nodes, i: nat)
    requires Linked(nodes) && i in nodes
    ensures nodes[i].parent == None ==> RootOf(nodes, i) == i
    ensures nodes[i].parent.Some? ==> nodes[i].parent.value in nodes && RootOf(nodes, i) == RootOf(nodes, nodes[i].parent.value)
    ensures RootOf(nodes, i) in nodes && nodes[RootOf(nodes, i)].parent == None
    ensures nodes[RootOf(nodes, i)].tenant == nodes[i].tenant && nodes[RootOf(nodes, i)].res == nodes[i].res
    decreases nodes[i].depth
  {
    assert LinkedRow(nodes, i);
    if nodes[i].parent.Some? {
      RootOfParent(nodes, nodes[i].parent.value);
    }
  }

  lemma TopRow(nodes: Nodes, i: nat)
    requires Linked(nodes) && i in nodes
    ensures nodes[i].depth == 1 <==> nodes[i].parent == None
  {
    assert LinkedRow(nodes, i);
    if nodes[i].parent.Some? {
      assert LinkedRow(nodes, nodes[i].parent.value);
    }
  }

  /** Rows on one chain have one root. */
  lemma SameRoot(nodes: Nodes, i: nat, a: nat)
    requires Linked(nodes) && i in nodes && a in nodes
    ensures a in IdChain(nodes, i) ==> RootOf(nodes, a) == RootOf(nodes, i)
  {
    var c := IdChain(nodes, i);
    if a in c {
      var k :| 0 <= k < |c| && c[k] == a;
      ChainPrefix(nodes, i, k);
    }
  }

  lemma AncestorIsChainPrefix(nodes: Nodes, i: nat, a: nat)
    requires Linked(nodes) && i in nodes && a in nodes
    ensures IsProperDescendant(nodes, i, a) <==> ProperPrefix(IdChain(nodes, a), IdChain(nodes, i))
  {
    var c := IdChain(nodes, i);
    if IsProperDescendant(nodes, i, a) {
      var k :| 0 <= k < |c| && c[k] == a;
      ChainPrefix(nodes, i, k);
    }
    if ProperPrefix(IdChain(nodes, a), c) {
      var k := nodes[a].depth - 1;
      assert c[k] == IdChain(nodes, a)[k] == a;
    }
  }

  /** Chains depend only on the parent links along them. */
  lemma {:induction false} ChainFrame(nodes: Nodes, nodes': Nodes, i: nat)
    requires Linked(nodes) && Linked(nodes') && i in nodes
    requires forall k :: k in IdChain(nodes, i) ==> k in nodes' && nodes'[k].parent == nodes[k].parent
    ensures i in nodes' && IdChain(nodes', i) == IdChain(nodes, i)
    decreases nodes[i].depth
  {
    var c := IdChain(nodes, i);
    assert c[|c| - 1] == i;
    assert LinkedRow(nodes, i) && LinkedRow(nodes', i);
    if nodes[i].parent.Some? {
      var p := nodes[i].parent.value;
      forall k | k in IdChain(nodes, p) ensures k in c {}
      ChainFrame(nodes, nodes', p);
    }
  }

  // ---- The path column ------------------------------------------------------

  ghost function Decimals(ids: seq<nat>): (r: seq<string>)
    ensures |r| == |ids|
    ensures forall k :: 0 <= k < |ids| ==> r[k] == Decimal(ids[k])
    ensures AllSlashFree(r)
  {
    seq(|ids|, k requires 0 <= k < |ids| => Decimal(ids[k]))
  }

  /** The stored path is the "/"-joined chain of ids from the root, with `depth` segments. */
  lemma {:induction false} PathIsIdChain(nodes: Nodes, i: nat)
    requires Linked(nodes) && Labelled(nodes) && i in nodes && !Stranded(nodes[i])
    ensures nodes[i].path == Join(Decimals(IdChain(nodes, i)))
    ensures |Split(nodes[i].path)| == nodes[i].depth
    decreases nodes[i].depth
  {
    assert LinkedRow(nodes, i) && LabelledRow(nodes, i);
    var c := IdChain(nodes, i);
    match nodes[i].parent {
      case None =>
      case Some(p) =>
        PathIsIdChain(nodes, p);
        assert Decimals(c) == Decimals(IdChain(nodes, p)) + [Decimal(i)];
        JoinSnoc(Decimals(IdChain(nodes, p)), Decimal(i));
    }
    SplitJoin(Decimals(c));
  }

  lemma DecimalsPrefix(a: seq<nat>, b: seq<nat>)
    ensures ProperPrefix(Decimals(a), Decimals(b)) <==> ProperPrefix(a, b)
  {
    if ProperPrefix(Decimals(a), Decimals(b)) {
      forall k | 0 <= k < |a| ensures a[k] == b[k] {
        assert Decimals(a)[k] == Decimals(b)[..|a|][k];
        DecimalInjective(a[k], b[k]);
      }
      assert a == b[..|a|];
    }
    if ProperPrefix(a, b) {
      assert Decimals(a) == Decimals(b)[..|a|];
    }
  }

  lemma {:induction false} DigitsAreLiteral(ids: seq<nat>)
    requires |ids| >= 1
    ensures Literal(Join(Decimals(ids)) + "/")
  {
    var d := Decimals(ids);
    if |ids| == 1 {
    } else {
      DigitsAreLiteral(ids[1..]);
      assert d[1..] == Decimals(ids[1..]);
    }
  }

  /** `path LIKE '<path of a>/%'` holds of exactly the proper descendants of a that carry a path:
      whatever digits two sibling ids share, and although the query names no bucket, resource or tenant. */
  lemma LikeIsDescendant(nodes: Nodes, i: nat, a: nat)
    requires Linked(nodes) && Labelled(nodes) && i in nodes && a in nodes && !Stranded(nodes[a])
    ensures Like(nodes[i].path, nodes[a].path + "/" + "%")
            <==> !Stranded(nodes[i]) && IsProperDescendant(nodes, i, a)
  {
    var ca := IdChain(nodes, a);
    PathIsIdChain(nodes, a);
    DigitsAreLiteral(ca);
    LikePrefix(nodes[i].path, nodes[a].path + "/");
    if !Stranded(nodes[i]) {
      var ci := IdChain(nodes, i);
      PathIsIdChain(nodes, i);
      JoinPrefix(Decimals(ca), Decimals(ci));
      DecimalsPrefix(ca, ci);
      AncestorIsChainPrefix(nodes, i, a);
    }
  }

  // ---- Deletion with ON DELETE CASCADE --------------------------------------

  /** Rows removed when the rows in `hit` are deleted and `parent_node_id` cascades. */
  function Doomed(nodes: Nodes, hit: set<nat>): set<nat>
    requires Linked(nodes)
  {
    set i | i in nodes && exists k :: k in IdChain(nodes, i) && k in hit
  }

  lemma DoomedChildren(nodes: Nodes, hit: set<nat>, i: nat)
    requires Linked(nodes) && i in nodes
    ensures i in Doomed(nodes, hit) <==>
              i in hit || (nodes[i].parent.Some? && nodes[i].parent.value in Doomed(nodes, hit))
  {
    assert LinkedRow(nodes, i);
    var c := IdChain(nodes, i);
    assert c[|c| - 1] == i;
    if nodes[i].parent.Some? {
      var p := nodes[i].parent.value;
      var cp := IdChain(nodes, p);
      assert c == cp + [i];
      if i in Doomed(nodes, hit) && i !in hit {
        var k :| k in c && k in hit;
        assert k in cp;
      }
      if p in Doomed(nodes, hit) {
        var k :| k in cp && k in hit;
        assert k in c;
      }
    }
  }

  function LikeHits(nodes: Nodes, pattern: string, except: nat): set<nat> {
    set i | i in nodes && Like(nodes[i].path, pattern) && i != except
  }

  /** The items left when those of the nodes in `gone` are deleted. */
  function ItemsOutside(items: Items, gone: set<nat>): Items {
    map t | t in items && items[t].node !in gone :: items[t]
  }

  lemma FewerItemsKeepForest(nodes: Nodes, items: Items, gone: set<nat>)
    requires Forest(nodes, items)
    ensures Forest(nodes, ItemsOutside(items, gone))
  {
    forall t | t in ItemsOutside(items, gone) ensures ItemRow(nodes, ItemsOutside(items, gone), t) {
      assert ItemRow(nodes, items, t);
    }
    forall t, u | ShareSlot(ItemsOutside(items, gone), t, u) ensures t == u {
      assert ShareSlot(items, t, u);
    }
  }

  /** Deleting with cascade leaves a forest. */
  lemma DeleteKeepsForest(nodes: Nodes, items: Items, hit: set<nat>)
    requires Forest(nodes, items)
    ensures Forest(nodes - Doomed(nodes, hit), ItemsOutside(items, Doomed(nodes, hit)))
  {
    var gone := Doomed(nodes, hit);
    var nodes' := nodes - gone;
    var items' := ItemsOutside(items, gone);
    forall i | i in nodes' ensures LinkedRow(nodes', i) && LabelledRow(nodes', i) {
      DoomedChildren(nodes, hit, i);
      assert LinkedRow(nodes, i) && LabelledRow(nodes, i);
    }
    forall i, j | ShareAddress(nodes', i, j) ensures i == j {
      assert ShareAddress(nodes, i, j);
    }
    FewerItemsKeepForest(nodes, items, gone);
    forall t | t in items' ensures ItemRow(nodes', items', t) {
      assert ItemRow(nodes, items, t);
    }
  }

  /** What the LIKE deletion removes below node a, cascades included: every proper descendant except
      the stranded direct children of a. */
  lemma WipeRemovesDescendants(nodes: Nodes, items: Items, a: nat, hit: set<nat>)
    requires Forest(nodes, items) && a in nodes && !Stranded(nodes[a])
    requires hit == LikeHits(nodes, nodes[a].path + "/" + "%", a)
    ensures forall i :: i in nodes ==>
              (i in Doomed(nodes, hit) <==>
                 IsProperDescendant(nodes, i, a) && !(Stranded(nodes[i]) && nodes[i].parent == Some(a)))
  {
    forall i | i in nodes
      ensures i in Doomed(nodes, hit) <==>
                IsProperDescendant(nodes, i, a) && !(Stranded(nodes[i]) && nodes[i].parent == Some(a))
    {
      WipeRemovesRow(nodes, items, a, hit, i);
    }
  }

  lemma {:induction false} WipeRemovesRow(nodes: Nodes, items: Items, a: nat, hit: set<nat>, i: nat)
    requires Forest(nodes, items) && a in nodes && !Stranded(nodes[a]) && i in nodes
    requires hit == LikeHits(nodes, nodes[a].path + "/" + "%", a)
    ensures i in Doomed(nodes, hit) <==>
              IsProperDescendant(nodes, i, a) && !(Stranded(nodes[i]) && nodes[i].parent == Some(a))
    decreases nodes[i].depth
  {
    LikeIsDescendant(nodes, i, a);
    DoomedChildren(nodes, hit, i);
    assert LinkedRow(nodes, i);
    if nodes[i].parent.Some? {
      var p := nodes[i].parent.value;
      WipeRemovesRow(nodes, items, a, hit, p);
      AncestorIsChainPrefix(nodes, a, i);
      AncestorIsChainPrefix(nodes, p, a);
    }
  }

  const BUCKET_ROW := Node(1, 0, 0, None, BucketNode, "b", 1, "1", "b", Scanned, 0, 0, "", map[])
  const PATHLESS_ROW := Node(2, 0, 0, Some(1), PrefixNode, "p", 2, "", "", Unscanned, 0, 0, "", map[])
  const SURVIVOR := map[1 := BUCKET_ROW, 2 := PATHLESS_ROW]

  lemma SurvivorIsForest()
    ensures Forest(SURVIVOR, map[])
  {
    assert Decimal(1) == "1";
    assert forall i :: i in SURVIVOR ==> i == 1 || i == 2;
    forall i | i in SURVIVOR ensures LinkedRow(SURVIVOR, i) && LabelledRow(SURVIVOR, i) {
    }
  }

  /** A row that its creation left without a path outlives the wipe of its parent. */
  lemma PathlessRowSurvives()
    ensures Forest(SURVIVOR, map[]) && IsProperDescendant(SURVIVOR, 2, 1)
    ensures 2 !in Doomed(SURVIVOR, LikeHits(SURVIVOR, BUCKET_ROW.path + "/" + "%", 1))
  {
    SurvivorIsForest();
    assert IdChain(SURVIVOR, 2) == IdChain(SURVIVOR, 1) + [2] && IdChain(SURVIVOR, 1) == [1];
    WipeRemovesDescendants(SURVIVOR, map[], 1, LikeHits(SURVIVOR, BUCKET_ROW.path + "/" + "%", 1));
  }

  // ---- Inserting and repairing rows -----------------------------------------

  /** A row with an unused id and address, placed under an existing labelled parent, joins the forest,
      whether or not its path has been written yet. */
  lemma InsertKeepsForest(nodes: Nodes, items: Items, n: Node)
    requires Forest(nodes, items) && n.id !in nodes
    requires forall i :: i in nodes ==> !SameAddress(nodes[i], n)
    requires LinkedRow(nodes[n.id := n], n.id) && LabelledRow(nodes[n.id := n], n.id)
    ensures Forest(nodes[n.id := n], items)
  {
    var nodes' := nodes[n.id := n];
    forall i | i in nodes && i != n.id ensures LinkedRow(nodes', i) && LabelledRow(nodes', i) {
      assert LinkedRow(nodes, i) && LabelledRow(nodes, i);
    }
    forall i, j | ShareAddress(nodes', i, j) ensures i == j {
      if i != n.id && j != n.id {
        assert ShareAddress(nodes, i, j);
      }
    }
    forall t | t in items ensures ItemRow(nodes', items, t) {
      assert ItemRow(nodes, items, t);
    }
  }

  /** Rewriting the labels of a row to what its parent prescribes keeps the forest: if the row was
      stranded it had no children to disturb, and otherwise nothing changes but its other columns. */
  lemma RepairKeepsForest(nodes: Nodes, items: Items, n: Node)
    requires Forest(nodes, items) && n.id in nodes && SameAddress(nodes[n.id], n)
    requires LinkedRow(nodes[n.id := n], n.id)
    requires !Stranded(n) && LabelledRow(nodes[n.id := n], n.id)
    ensures Forest(nodes[n.id := n], items)
  {
    var nodes' := nodes[n.id := n];
    assert LinkedRow(nodes, n.id) && LabelledRow(nodes, n.id);
    forall i | i in nodes && i != n.id ensures LinkedRow(nodes', i) && LabelledRow(nodes', i) {
      assert LinkedRow(nodes, i) && LabelledRow(nodes, i);
    }
    forall t | t in items ensures ItemRow(nodes', items, t) {
      assert ItemRow(nodes, items, t);
    }
    forall i, j | ShareAddress(nodes', i, j) ensures i == j {
      assert ShareAddress(nodes, i, j);
    }
  }
}

/** The queries of `ListScannedNodesAndItems`, from which the explorer starts. */
module ExplorerQueries {
  import opened GoStrings
  import opened Sequences
  import opened MetadataForest
  import opened MetadataStore
  import opened ExplorerContents

  /** `ORDER BY resource_id, name`. */
  predicate ResNameLe(a: Node, b: Node) {
    a.res < b.res || (a.res == b.res && StrLe(a.name, b.name))
  }

  /** `ORDER BY depth, name`. */
  predicate DepthNameLe(a: Node, b: Node) {
    a.depth < b.depth || (a.depth == b.depth && StrLe(a.name, b.name))
  }

  lemma RowOrders()
    ensures TotalPreorder(ResNameLe) && TotalPreorder(DepthNameLe)
  {
    forall a: Node, b: Node ensures StrLe(a.name, b.name) || StrLe(b.name, a.name) {
      StrLeTotal(a.name, b.name);
    }
    forall a: Node, b: Node, c: Node | StrLe(a.name, b.name) && StrLe(b.name, c.name) ensures StrLe(a.name, c.name) {
      StrLeTransitive(a.name, b.name, c.name);
    }
  }

  /** Top rows come by resource, the rows below them by depth, and each by name. */
  lemma RowsInOrder(top: seq<Node>, below: seq<Node>, i: nat, j: nat)
    requires Sorted(top, ResNameLe) && Sorted(below, DepthNameLe) && i < j
    ensures j < |top| ==> top[i].res <= top[j].res && (top[i].res == top[j].res ==> IsAtMost(top[i].name, top[j].name))
    ensures j < |below| ==> below[i].depth <= below[j].depth && (below[i].depth == below[j].depth ==> IsAtMost(below[i].name, below[j].name))
  {
    hide StrLe, IsAtMost;
    if j < |top| {
      StrLeIsAtMost(top[i].name, top[j].name);
      assert ResNameLe(top[i], top[j]);
    }
    if j < |below| {
      StrLeIsAtMost(below[i].name, below[j].name);
      assert DepthNameLe(below[i], below[j]);
    }
  }

  /** The scanned rows at top level, each once. */
  ghost predicate ListsTop(nodes: Nodes, top: seq<Node>) {
    && NoDuplicates(top)
    && forall n: Node {:trigger n in top} :: n in top <==> n.id in nodes && nodes[n.id] == n && n.parent.None? && n.status == Scanned
  }

  /** What a query over rows has selected once it has seen the ids below k. */
  ghost predicate SelectsBelow(rows: seq<Node>, k: nat) {
    NoDuplicates(rows) && forall j :: 0 <= j < |rows| ==> rows[j].id < k
  }

  lemma SelectOne(rows: seq<Node>, k: nat, n: Node)
    requires SelectsBelow(rows, k) && n.id == k
    ensures SelectsBelow(rows, k + 1) && SelectsBelow(rows + [n], k + 1)
  {
    NoDuplicatesSnoc(rows, n);
  }

  lemma SortedRows(rows: seq<Node>, sorted: seq<Node>)
    requires multiset(rows) == multiset(sorted) && NoDuplicates(rows)
    ensures NoDuplicates(sorted) && forall n :: n in sorted <==> n in rows
  {
    PermutationKeepsDistinct(rows, sorted);
    forall n ensures n in sorted <==> n in rows {
      PermutationMembers(rows, sorted, n);
    }
  }

  class MetadataRepository {
    const db: Database

    constructor (db: Database)
      ensures this.db == db
    {
      this.db := db;
    }

    method SelectTopNodes() returns (top: seq<Node>)
      requires db.Valid()
      ensures ListsTop(db.nodes, top) && Sorted(top, ResNameLe)
    {
      var rows: seq<Node> := [];
      var k := 0;
      while k < db.nextNode
        invariant 0 <= k <= db.nextNode && SelectsBelow(rows, k)
        invariant forall n: Node {:trigger n in rows} :: n in rows <==>
                    n.id < k && n.id in db.nodes && db.nodes[n.id] == n && n.parent.None? && n.status == Scanned
      {
        if k in db.nodes {
          SelectOne(rows, k, db.nodes[k]);
          if db.nodes[k].parent.None? && db.nodes[k].status == Scanned {
            rows := rows + [db.nodes[k]];
          }
        }
        k := k + 1;
      }
      RowOrders();
      top := Sort(rows, ResNameLe);
      SortedRows(rows, top);
    }

    method SelectChildNodes(res: set<nat>) returns (childNodes: seq<Node>)
      requires db.Valid()
      ensures ListsRows(db.nodes, res, childNodes) && Sorted(childNodes, DepthNameLe)
    {
      var rows: seq<Node> := [];
      var k := 0;
      while k < db.nextNode
        invariant 0 <= k <= db.nextNode && SelectsBelow(rows, k)
        invariant forall n: Node {:trigger n in rows} :: n in rows <==>
                    n.id < k && n.id in db.nodes && db.nodes[n.id] == n && n.parent.Some? && n.res in res
      {
        if k in db.nodes {
          SelectOne(rows, k, db.nodes[k]);
          if db.nodes[k].parent.Some? && db.nodes[k].res in res {
            rows := rows + [db.nodes[k]];
          }
        }
        k := k + 1;
      }
      RowOrders();
      childNodes := Sort(rows, DepthNameLe);
      SortedRows(rows, childNodes);
    }

    method SelectItems(res: set<nat>) returns (items: seq<Item>)
      requires db.Valid()
      ensures ListsItems(db.items, res, items)
    {
      items := [];
      var k := 0;
      while k < db.nextItem
        invariant 0 <= k <= db.nextItem && NoDuplicates(items)
        invariant forall t: Item {:trigger t in items} :: t in items <==>
                    t.id < k && t.id in db.items && db.items[t.id] == t && t.res in res
      {
        if k in db.items && db.items[k].res in res {
          NoDuplicatesSnoc(items, db.items[k]);
          items := items + [db.items[k]];
        }
        k := k + 1;
      }
    }

    /** The scanned top rows, and every row and item of the resources they belong to. */
    method ListScannedNodesAndItems() returns (topNodes: seq<Node>, childNodes: seq<Node>, items: seq<Item>)
      requires db.Valid()
      ensures ListsTop(db.nodes, topNodes) && Sorted(topNodes, ResNameLe) && Sorted(childNodes, DepthNameLe)
      ensures ListsRows(db.nodes, set n | n in topNodes :: n.res, childNodes)
      ensures ListsItems(db.items, set n | n in topNodes :: n.res, items)
    {
      topNodes := SelectTopNodes();
      var metaResIDs := set n | n in topNodes :: n.res;
      if |topNodes| == 0 {
        assert metaResIDs == {};
        return topNodes, [], [];
      }
      childNodes := SelectChildNodes(metaResIDs);
      items := SelectItems(metaResIDs);
    }
  }
}

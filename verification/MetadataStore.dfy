/** The metadata database: two tables with primary keys drawn from sequences, the unique and
    foreign keys of scripts/init-db.sql, and the handful of statements the scan service issues.
    A store that is not `reliable` may refuse any statement, leaving the tables as they were. */
module MetadataStore {
  import opened Options
  import opened MetadataForest

  datatype Lookup<+T> = Found(row: T) | NotFound | LookupFailed

  /** The column lists of the service's UPDATE statements on meta_node. */
  datatype NodeChange =
    | SetLabels(depth: nat, path: string, fullName: string, attrs: Attributes)
    | SetStatus(status: ScanStatus, errorMessage: string)
    | SetOutcome(status: ScanStatus, itemCount: int, totalSize: int, errorMessage: string)

  function ChangeNode(n: Node, c: NodeChange): Node {
    match c
    case SetLabels(depth, path, fullName, attrs) => n.(depth := depth, path := path, fullName := fullName, attrs := attrs)
    case SetStatus(status, errorMessage) => n.(status := status, errorMessage := errorMessage)
    case SetOutcome(status, itemCount, totalSize, errorMessage) =>
      n.(status := status, itemCount := itemCount, totalSize := totalSize, errorMessage := errorMessage)
  }

  function ChangeItem(it: Item, fullName: string, rowCount: Option<int>, sizeBytes: Option<int>, objectSize: Option<int>,
                      attrs: Attributes): Item {
    it.(fullName := fullName, rowCount := rowCount, sizeBytes := sizeBytes, objectSize := objectSize, attrs := attrs)
  }

  /** The foreign key on the parent, and UNIQUE (res_id, parent_node_id, name), under which null parents never collide. */
  predicate KeysAllow(nodes: Nodes, row: Node) {
    row.parent.Some? ==>
      && row.parent.value in nodes
      && forall i :: i in nodes ==> !(nodes[i].res == row.res && nodes[i].name == row.name && nodes[i].parent == row.parent)
  }

  ghost predicate ShareName(nodes: Nodes, i: nat, j: nat) {
    && i in nodes && j in nodes && nodes[i].parent.Some?
    && nodes[i].res == nodes[j].res && nodes[i].parent == nodes[j].parent && nodes[i].name == nodes[j].name
  }

  /** Every parent is stored, and below one parent no name of a resource comes twice. */
  ghost predicate KeysHold(nodes: Nodes) {
    && (forall i :: i in nodes && nodes[i].parent.Some? ==> nodes[i].parent.value in nodes)
    && (forall i, j {:trigger ShareName(nodes, i, j)} :: ShareName(nodes, i, j) ==> i == j)
  }

  /** A row is accepted exactly when both keys hold with it. */
  lemma KeysAreExact(nodes: Nodes, row: Node)
    requires KeysHold(nodes) && row.id !in nodes && row.parent != Some(row.id)
    ensures KeysAllow(nodes, row) <==> KeysHold(nodes[row.id := row])
  {
    if KeysAllow(nodes, row) {
      AllowedKeepsKeys(nodes, row);
    }
    if KeysHold(nodes[row.id := row]) {
      KeptIsAllowed(nodes, row);
    }
  }

  lemma AllowedKeepsKeys(nodes: Nodes, row: Node)
    requires KeysHold(nodes) && row.id !in nodes && KeysAllow(nodes, row)
    ensures KeysHold(nodes[row.id := row])
  {
    var nodes' := nodes[row.id := row];
    forall i, j | ShareName(nodes', i, j) ensures i == j {
      if i in nodes && j in nodes {
        assert ShareName(nodes, i, j);
      }
    }
  }

  lemma KeptIsAllowed(nodes: Nodes, row: Node)
    requires row.id !in nodes && row.parent != Some(row.id) && KeysHold(nodes[row.id := row])
    ensures KeysAllow(nodes, row)
  {
    var nodes' := nodes[row.id := row];
    assert nodes'[row.id] == row;
    forall i | i in nodes && row.parent.Some? ensures !(nodes[i].res == row.res && nodes[i].name == row.name && nodes[i].parent == row.parent) {
      assert nodes'[i] == nodes[i] && !ShareName(nodes', row.id, i);
    }
  }

  lemma {:induction false} HasLeast(s: set<nat>) returns (m: nat)
    requires s != {}
    ensures m in s && forall x :: x in s ==> m <= x
  {
    m :| m in s;
    var rest := s - {m};
    if rest == {} {
      assert s == {m};
    } else {
      var m' := HasLeast(rest);
      assert forall x :: x in s ==> x == m || x in rest;
      if m' < m {
        m := m';
      }
    }
  }

  class Database {
    var nodes: Nodes
    var items: Items
    var nextNode: nat
    var nextItem: nat
    const reliable: bool

    /** Primary keys are the map keys, and the sequences are ahead of them. */
    ghost predicate Valid()
      reads this
    {
      && (forall i :: i in nodes ==> nodes[i].id == i < nextNode)
      && (forall t :: t in items ==> items[t].id == t < nextItem)
    }

    ghost predicate Inv()
      reads this
    {
      Valid() && Forest(nodes, items)
    }

    lemma InvMeans()
      ensures Inv() <==> Valid() && Forest(nodes, items)
    {
    }

    lemma ValidMeans()
      requires Valid()
      ensures forall i :: i in nodes ==> i < nextNode
    {
    }

    constructor (reliable: bool)
      ensures Inv() && nodes == map[] && items == map[] && this.reliable == reliable
    {
      nodes, items, nextNode, nextItem := map[], map[], 1, 1;
      this.reliable := reliable;
    }

    method Fault() returns (fault: bool)
      ensures reliable ==> !fault
    {
      fault := false;
      if !reliable {
        fault := *;
      }
    }

    /** First row, by id, at an address. */
    method FindNode(tenant: nat, res: nat, kind: NodeKind, name: string, parent: Option<nat>) returns (r: Lookup<Node>)
      requires Valid()
      ensures r.Found? ==>
                && r.row.id in nodes && nodes[r.row.id] == r.row
                && r.row.tenant == tenant && r.row.res == res && r.row.kind == kind
                && r.row.name == name && r.row.parent == parent
      ensures r.Found? ==>
                forall i :: i in nodes && i < r.row.id ==>
                  !(nodes[i].tenant == tenant && nodes[i].res == res && nodes[i].kind == kind
                    && nodes[i].name == name && nodes[i].parent == parent)
      ensures r.NotFound? ==>
                forall i :: i in nodes ==>
                  !(nodes[i].tenant == tenant && nodes[i].res == res && nodes[i].kind == kind
                    && nodes[i].name == name && nodes[i].parent == parent)
      ensures reliable ==> !r.LookupFailed?
    {
      var fault := Fault();
      if fault {
        return LookupFailed;
      }
      var hits := set i | i in nodes && nodes[i].tenant == tenant && nodes[i].res == res && nodes[i].kind == kind
                          && nodes[i].name == name && nodes[i].parent == parent;
      if hits == {} {
        forall i | i in nodes
          ensures !(nodes[i].tenant == tenant && nodes[i].res == res && nodes[i].kind == kind
                    && nodes[i].name == name && nodes[i].parent == parent)
        {
          assert i !in hits;
        }
        return NotFound;
      }
      ghost var least := HasLeast(hits);
      assert least in hits && forall x :: x in hits ==> least <= x;
      var first :| first in hits && forall x :: x in hits ==> first <= x;
      forall i | i in nodes && i < first
        ensures !(nodes[i].tenant == tenant && nodes[i].res == res && nodes[i].kind == kind
                    && nodes[i].name == name && nodes[i].parent == parent)
      {
        assert i !in hits;
      }
      return Found(nodes[first]);
    }

    /** First row of a kind and name, wherever it hangs. */
    method FindNamed(tenant: nat, res: nat, kind: NodeKind, name: string) returns (r: Lookup<Node>)
      requires Valid()
      ensures r.Found? ==>
                && r.row.id in nodes && nodes[r.row.id] == r.row
                && r.row.tenant == tenant && r.row.res == res && r.row.kind == kind && r.row.name == name
      ensures r.Found? ==>
                forall i :: i in nodes && i < r.row.id ==>
                  !(nodes[i].tenant == tenant && nodes[i].res == res && nodes[i].kind == kind && nodes[i].name == name)
      ensures r.NotFound? ==>
                forall i :: i in nodes ==>
                  !(nodes[i].tenant == tenant && nodes[i].res == res && nodes[i].kind == kind && nodes[i].name == name)
      ensures reliable ==> !r.LookupFailed?
    {
      var fault := Fault();
      if fault {
        return LookupFailed;
      }
      var hits := set i | i in nodes && nodes[i].tenant == tenant && nodes[i].res == res && nodes[i].kind == kind && nodes[i].name == name;
      if hits == {} {
        forall i | i in nodes
          ensures !(nodes[i].tenant == tenant && nodes[i].res == res && nodes[i].kind == kind && nodes[i].name == name)
        {
          assert i !in hits;
        }
        return NotFound;
      }
      ghost var least := HasLeast(hits);
      assert least in hits && forall x :: x in hits ==> least <= x;
      var first :| first in hits && forall x :: x in hits ==> first <= x;
      forall i | i in nodes && i < first
        ensures !(nodes[i].tenant == tenant && nodes[i].res == res && nodes[i].kind == kind && nodes[i].name == name)
      {
        assert i !in hits;
      }
      return Found(nodes[first]);
    }

    /** INSERT INTO meta_node; the sequence may skip a value when the insert is refused. */
    method CreateNode(row: Node) returns (id: Option<nat>)
      requires Valid()
      modifies this`nodes, this`nextNode
      ensures Valid() && nextNode >= old(nextNode)
      ensures id.Some? ==> id.value !in old(nodes) && id.value >= old(nextNode) && nodes == old(nodes)[id.value := row.(id := id.value)]
      ensures id.Some? ==> KeysAllow(old(nodes), row)
      ensures id.None? ==> nodes == old(nodes)
      ensures reliable && KeysAllow(old(nodes), row) ==> id.Some?
    {
      var fault := Fault();
      var newId := nextNode;
      nextNode := nextNode + 1;
      if fault || !KeysAllow(nodes, row) {
        return None;
      }
      nodes := nodes[newId := row.(id := newId)];
      return Some(newId);
    }

    /** UPDATE meta_node SET ... WHERE id = ?; no row is not an error. */
    method UpdateNode(id: nat, change: NodeChange) returns (ok: bool)
      requires Valid()
      modifies this`nodes
      ensures Valid()
      ensures reliable ==> ok
      ensures nodes == if ok && id in old(nodes) then old(nodes)[id := ChangeNode(old(nodes)[id], change)] else old(nodes)
    {
      var fault := Fault();
      if fault {
        return false;
      }
      if id in nodes {
        nodes := nodes[id := ChangeNode(nodes[id], change)];
      }
      return true;
    }

    /** DELETE FROM meta_node WHERE path LIKE ? AND id <> ?, with both foreign keys cascading. */
    method DeleteNodesLike(pattern: string, except: nat) returns (ok: bool)
      requires Inv()
      modifies this`nodes, this`items
      ensures Inv()
      ensures reliable ==> ok
      ensures !ok ==> nodes == old(nodes) && items == old(items)
      ensures ok ==>
                && nodes == old(nodes) - Doomed(old(nodes), LikeHits(old(nodes), pattern, except))
                && items == ItemsOutside(old(items), Doomed(old(nodes), LikeHits(old(nodes), pattern, except)))
    {
      var fault := Fault();
      if fault {
        return false;
      }
      var hit := LikeHits(nodes, pattern, except);
      var gone := Doomed(nodes, hit);
      DeleteKeepsForest(nodes, items, hit);
      items := ItemsOutside(items, gone);
      nodes := nodes - gone;
      return true;
    }

    method FindItem(tenant: nat, res: nat, node: nat, kind: ItemKind, name: string) returns (r: Lookup<Item>)
      requires Valid()
      ensures r.Found? ==>
                && r.row.id in items && items[r.row.id] == r.row
                && r.row.tenant == tenant && r.row.res == res && r.row.node == node && r.row.kind == kind && r.row.name == name
      ensures r.Found? ==>
                forall t :: t in items && t < r.row.id ==>
                  !(items[t].tenant == tenant && items[t].res == res && items[t].node == node
                    && items[t].kind == kind && items[t].name == name)
      ensures r.NotFound? ==>
                forall t :: t in items ==>
                  !(items[t].tenant == tenant && items[t].res == res && items[t].node == node
                    && items[t].kind == kind && items[t].name == name)
      ensures reliable ==> !r.LookupFailed?
    {
      var fault := Fault();
      if fault {
        return LookupFailed;
      }
      var hits := set t | t in items && items[t].tenant == tenant && items[t].res == res && items[t].node == node
                          && items[t].kind == kind && items[t].name == name;
      if hits == {} {
        forall t | t in items
          ensures !(items[t].tenant == tenant && items[t].res == res && items[t].node == node
                    && items[t].kind == kind && items[t].name == name)
        {
          assert t !in hits;
        }
        return NotFound;
      }
      ghost var least := HasLeast(hits);
      assert least in hits && forall x :: x in hits ==> least <= x;
      var first :| first in hits && forall x :: x in hits ==> first <= x;
      forall t | t in items && t < first
        ensures !(items[t].tenant == tenant && items[t].res == res && items[t].node == node
                    && items[t].kind == kind && items[t].name == name)
      {
        assert t !in hits;
      }
      return Found(items[first]);
    }

    /** INSERT INTO meta_item. */
    method CreateItem(row: Item) returns (id: Option<nat>)
      requires Valid()
      modifies this`items, this`nextItem
      ensures Valid()
      ensures id.Some? ==>
                && id.value !in old(items) && items == old(items)[id.value := row.(id := id.value)]
                && row.node in nodes
                && forall t :: t in old(items) ==> !(old(items)[t].node == row.node && old(items)[t].name == row.name)
      ensures id.None? ==> items == old(items)
      ensures reliable && row.node in nodes
              && (forall t :: t in old(items) ==> !(old(items)[t].node == row.node && old(items)[t].name == row.name))
              ==> id.Some?
    {
      var fault := Fault();
      var newId := nextItem;
      nextItem := nextItem + 1;
      if fault || row.node !in nodes || exists t :: t in items && items[t].node == row.node && items[t].name == row.name {
        return None;
      }
      items := items[newId := row.(id := newId)];
      return Some(newId);
    }

    /** UPDATE meta_item SET ... WHERE id = ?. */
    method UpdateItem(id: nat, fullName: string, rowCount: Option<int>, sizeBytes: Option<int>, objectSize: Option<int>,
                      attrs: Attributes) returns (ok: bool)
      requires Valid()
      modifies this`items
      ensures Valid()
      ensures reliable ==> ok
      ensures items == if ok && id in old(items) then old(items)[id := ChangeItem(old(items)[id], fullName, rowCount, sizeBytes,
          objectSize, attrs)] else old(items)
    {
      var fault := Fault();
      if fault {
        return false;
      }
      if id in items {
        items := items[id := ChangeItem(items[id], fullName, rowCount, sizeBytes, objectSize, attrs)];
      }
      return true;
    }

    /** DELETE FROM meta_item WHERE node_id = ?. */
    method DeleteItemsOf(node: nat) returns (ok: bool)
      requires Inv()
      modifies this`items
      ensures Inv()
      ensures reliable ==> ok
      ensures items == if ok then ItemsOutside(old(items), {node}) else old(items)
    {
      var fault := Fault();
      if fault {
        return false;
      }
      FewerItemsKeepForest(nodes, items, {node});
      items := ItemsOutside(items, {node});
      return true;
    }
  }
}

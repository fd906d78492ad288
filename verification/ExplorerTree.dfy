/** The manager's explorer: the stored rows are grouped by parent and rebuilt into a tree, directories before objects and
    each kind by name. */
module ExplorerTree {
  import opened Options
  import opened GoStrings
  import opened Sequences
  import opened MetadataForest

  datatype EntryKind = DirectoryEntry | ObjectEntry

  /** `DataExplorerTable`, for object storage. */
  datatype Entry = Entry(id: nat, name: string, fullName: string, kind: EntryKind, depth: nat, sizeBytes: int, objectCount: int,
                         children: seq<Entry>)

  /** `childrenByParent` and `itemsByNode`. */
  type ChildRows = map<nat, seq<Node>>
  type NodeItems = map<nat, seq<Item>>

  function Under<T>(m: map<nat, seq<T>>, id: nat): seq<T> {
    if id in m then m[id] else []
  }

  // ---- Grouping -----------------------------------------------------------------

  function ChildrenIn(rows: seq<Node>, p: nat): seq<Node> {
    if rows == [] then []
    else ChildrenIn(rows[..|rows| - 1], p) + (if rows[|rows| - 1].parent == Some(p) then [rows[|rows| - 1]] else [])
  }

  function ItemsIn(items: seq<Item>, p: nat): seq<Item> {
    if items == [] then []
    else ItemsIn(items[..|items| - 1], p) + (if items[|items| - 1].node == p then [items[|items| - 1]] else [])
  }

  /** The rows under each parent that has any. */
  function RowsByParent(rows: seq<Node>): (m: ChildRows)
    ensures forall p :: Under(m, p) == ChildrenIn(rows, p)
  {
    if rows == [] then map[]
    else
      var front, last := RowsByParent(rows[..|rows| - 1]), rows[|rows| - 1];
      if last.parent.Some? then front[last.parent.value := Under(front, last.parent.value) + [last]] else front
  }

  function ItemsByNode(items: seq<Item>): (m: NodeItems)
    ensures forall p :: Under(m, p) == ItemsIn(items, p)
  {
    if items == [] then map[]
    else
      var front, last := ItemsByNode(items[..|items| - 1]), items[|items| - 1];
      front[last.node := Under(front, last.node) + [last]]
  }

  method GroupChildren(childNodes: seq<Node>) returns (childrenByParent: ChildRows)
    ensures childrenByParent == RowsByParent(childNodes)
    ensures forall p :: Under(childrenByParent, p) == ChildrenIn(childNodes, p)
  {
    childrenByParent := map[];
    var i := 0;
    while i < |childNodes|
      invariant 0 <= i <= |childNodes|
      invariant childrenByParent == RowsByParent(childNodes[..i])
    {
      var node := childNodes[i];
      assert childNodes[..i + 1][..i] == childNodes[..i];
      if node.parent.Some? {
        var parentID := node.parent.value;
        childrenByParent := childrenByParent[parentID := Under(childrenByParent, parentID) + [node]];
      }
      i := i + 1;
    }
    assert childNodes[..i] == childNodes;
  }

  method GroupItems(items: seq<Item>) returns (itemsByNode: NodeItems)
    ensures itemsByNode == ItemsByNode(items)
    ensures forall p :: Under(itemsByNode, p) == ItemsIn(items, p)
  {
    itemsByNode := map[];
    var i := 0;
    while i < |items|
      invariant 0 <= i <= |items|
      invariant itemsByNode == ItemsByNode(items[..i])
    {
      var item := items[i];
      assert items[..i + 1][..i] == items[..i];
      itemsByNode := itemsByNode[item.node := Under(itemsByNode, item.node) + [item]];
      i := i + 1;
    }
    assert items[..i] == items;
  }

  // ---- The tree -------------------------------------------------------------------

  /** Directories before objects, each by name. */
  predicate EntryLe(a: Entry, b: Entry) {
    if a.kind == b.kind then StrLe(a.name, b.name) else a.kind == DirectoryEntry
  }

  lemma EntryOrder()
    ensures TotalPreorder(EntryLe)
  {
    forall a: Entry, b: Entry ensures EntryLe(a, b) || EntryLe(b, a) {
      StrLeTotal(a.name, b.name);
    }
    forall a: Entry, b: Entry, c: Entry | EntryLe(a, b) && EntryLe(b, c) ensures EntryLe(a, c) {
      if a.kind == b.kind == c.kind {
        StrLeTransitive(a.name, b.name, c.name);
      }
    }
  }

  function ItemEntry(item: Item): Entry {
    var size := if item.objectSize.Some? then item.objectSize.value else if item.sizeBytes.Some? then item.sizeBytes.value else 0;
    var fullName := if item.fullName != "" then item.fullName
                    else if "relative_path" in item.attrs then item.attrs["relative_path"] else "";
    Entry(item.id, item.name, fullName, ObjectEntry, 0, size, 0, [])
  }

  function ItemEntries(items: seq<Item>): seq<Entry> {
    if items == [] then []
    else ItemEntries(items[..|items| - 1]) + (if items[|items| - 1].kind.ObjectItem? then [ItemEntry(items[|items| - 1])] else [])
  }

  function DirEntry(child: Node, children: seq<Entry>): Entry {
    Entry(child.id, child.name, child.fullName, DirectoryEntry, child.depth, child.totalSize, child.itemCount, children)
  }

  /** What termination rests on: the rows under an id are one level below it, and no deeper than some bound. */
  ghost predicate Layered(nodes: Nodes, rows: ChildRows) {
    forall p, n :: p in nodes && n in Under(rows, p) ==> n.id in nodes && nodes[n.id] == n && n.depth == nodes[p].depth + 1
  }

  ghost function Deeper(nodes: Nodes, depth: nat): set<nat> {
    set i | i in nodes && nodes[i].depth > depth
  }

  lemma DeeperShrinks(nodes: Nodes, rows: ChildRows, p: nat, n: Node)
    requires Layered(nodes, rows) && p in nodes && n in Under(rows, p)
    ensures n.id in nodes && Deeper(nodes, nodes[n.id].depth) < Deeper(nodes, nodes[p].depth)
  {
    assert n.id in Deeper(nodes, nodes[p].depth) && n.id !in Deeper(nodes, nodes[n.id].depth);
  }

  /** The specification of `buildObjectStorageTree`: the level of node p, sorted stably. */
  ghost function Level(nodes: Nodes, rows: ChildRows, items: NodeItems, p: nat): (es: seq<Entry>)
    requires Layered(nodes, rows) && p in nodes
    ensures Sorted(es, EntryLe)
    decreases Deeper(nodes, nodes[p].depth), 1, 0
  {
    EntryOrder();
    Sort(DirEntries(nodes, rows, items, p, |Under(rows, p)|) + ItemEntries(Under(items, p)), EntryLe)
  }

  ghost function DirEntries(nodes: Nodes, rows: ChildRows, items: NodeItems, p: nat, k: nat): (es: seq<Entry>)
    requires Layered(nodes, rows) && p in nodes && k <= |Under(rows, p)|
    ensures |es| == k
    decreases Deeper(nodes, nodes[p].depth), 0, k
  {
    if k == 0 then []
    else
      var child := Under(rows, p)[k - 1];
      DeeperShrinks(nodes, rows, p, child);
      DirEntries(nodes, rows, items, p, k - 1) + [DirEntry(child, Level(nodes, rows, items, child.id))]
  }

  lemma LevelParts(nodes: Nodes, rows: ChildRows, items: NodeItems, p: nat)
    requires Layered(nodes, rows) && p in nodes
    ensures DirEntries(nodes, rows, items, p, 0) == [] && TotalPreorder(EntryLe)
    ensures Level(nodes, rows, items, p) == Sort(DirEntries(nodes, rows, items, p, |Under(rows, p)|) + ItemEntries(Under(items, p)), EntryLe)
  {
    EntryOrder();
  }

  lemma NextDirEntry(nodes: Nodes, rows: ChildRows, items: NodeItems, p: nat, k: nat)
    requires Layered(nodes, rows) && p in nodes && k < |Under(rows, p)|
    ensures var child := Under(rows, p)[k];
            && child.id in nodes && Deeper(nodes, nodes[child.id].depth) < Deeper(nodes, nodes[p].depth)
            && DirEntries(nodes, rows, items, p, k + 1)
               == DirEntries(nodes, rows, items, p, k) + [DirEntry(child, Level(nodes, rows, items, child.id))]
  {
    DeeperShrinks(nodes, rows, p, Under(rows, p)[k]);
  }

  method AppendItems(entries0: seq<Entry>, own: seq<Item>) returns (entries: seq<Entry>)
    ensures entries == entries0 + ItemEntries(own)
  {
    entries := entries0;
    var j := 0;
    while j < |own|
      invariant 0 <= j <= |own|
      invariant entries == entries0 + ItemEntries(own[..j])
    {
      assert own[..j + 1][..j] == own[..j];
      if own[j].kind.ObjectItem? {
        entries := entries + [ItemEntry(own[j])];
      }
      j := j + 1;
    }
    assert own[..j] == own;
  }

  method BuildObjectStorageTree(node: Node, childNodes: ChildRows, items: NodeItems, ghost nodes: Nodes) returns (entries: seq<Entry>)
    requires Layered(nodes, childNodes) && node.id in nodes
    ensures entries == Level(nodes, childNodes, items, node.id)
    decreases Deeper(nodes, nodes[node.id].depth)
  {
    hide *;
    entries := [];
    var children := Under(childNodes, node.id);
    LevelParts(nodes, childNodes, items, node.id);
    var i := 0;
    while i < |children|
      invariant 0 <= i <= |children|
      invariant entries == DirEntries(nodes, childNodes, items, node.id, i)
    {
      var child := children[i];
      NextDirEntry(nodes, childNodes, items, node.id, i);
      var below := BuildObjectStorageTree(child, childNodes, items, nodes);
      entries := entries + [DirEntry(child, below)];
      i := i + 1;
    }
    entries := AppendItems(entries, Under(items, node.id));
    entries := Sort(entries, EntryLe);
  }

  // ---- The buckets of a resource -------------------------------------------------------

  datatype ExplorerSchema = ExplorerSchema(name: string, tables: seq<Entry>)

  /** One group for each bucket that holds anything, in the order of the rows. */
  ghost function BucketGroups(nodes: Nodes, rows: ChildRows, items: NodeItems, buckets: seq<Node>): seq<ExplorerSchema>
    requires Layered(nodes, rows) && forall k :: 0 <= k < |buckets| ==> buckets[k].id in nodes
  {
    if buckets == [] then []
    else
      var last := buckets[|buckets| - 1];
      var level := Level(nodes, rows, items, last.id);
      BucketGroups(nodes, rows, items, buckets[..|buckets| - 1]) + (if level == [] then [] else [ExplorerSchema(last.name, level)])
  }

  lemma OneMoreBucket(nodes: Nodes, rows: ChildRows, items: NodeItems, buckets: seq<Node>, k: nat)
    requires Layered(nodes, rows) && (forall j :: 0 <= j < |buckets| ==> buckets[j].id in nodes) && k < |buckets|
    ensures var level := Level(nodes, rows, items, buckets[k].id);
            BucketGroups(nodes, rows, items, buckets[..k + 1])
            == BucketGroups(nodes, rows, items, buckets[..k]) + (if level == [] then [] else [ExplorerSchema(buckets[k].name, level)])
  {
    hide Level;
    assert buckets[..k + 1][..k] == buckets[..k];
  }

  /** The object-storage branch of `GetResourceTree`, for the rows of one resource: the rows are grouped, and each scanned
      bucket's tree is built. */
  method ListBucketTrees(buckets: seq<Node>, childNodes: seq<Node>, items: seq<Item>, ghost nodes: Nodes) returns (schemas: seq<ExplorerSchema>)
    requires forall k :: 0 <= k < |buckets| ==> buckets[k].id in nodes
    requires Layered(nodes, RowsByParent(childNodes))
    ensures schemas == BucketGroups(nodes, RowsByParent(childNodes), ItemsByNode(items), buckets)
  {
    hide Level, RowsByParent, ItemsByNode, DirEntries, Layered;
    var childrenByParent := GroupChildren(childNodes);
    var itemsByNode := GroupItems(items);
    schemas := [];
    var k := 0;
    while k < |buckets|
      invariant 0 <= k <= |buckets|
      invariant schemas == BucketGroups(nodes, childrenByParent, itemsByNode, buckets[..k])
    {
      OneMoreBucket(nodes, childrenByParent, itemsByNode, buckets, k);
      var children := BuildObjectStorageTree(buckets[k], childrenByParent, itemsByNode, nodes);
      if children != [] {
        schemas := schemas + [ExplorerSchema(buckets[k].name, children)];
      }
      k := k + 1;
    }
    assert buckets[..k] == buckets;
  }
}

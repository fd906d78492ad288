/** What the rebuilt explorer tree contains: every row and every object of a subtree once, at its own place. */
module ExplorerContents {
  import opened GoStrings
  import opened Options
  import opened Sequences
  import opened MetadataForest
  import opened ExplorerTree

  // ---- Reading a tree ---------------------------------------------------------------

  /** Ids of all directory entries, with multiplicity. */
  ghost function Dirs(es: seq<Entry>): multiset<nat> {
    if es == [] then multiset{} else DirsOf(es[0]) + Dirs(es[1..])
  }

  ghost function DirsOf(e: Entry): multiset<nat> {
    if e.kind.DirectoryEntry? then multiset{e.id} + Dirs(e.children) else multiset{}
  }

  /** Ids of all object entries, with multiplicity. */
  ghost function Objects(es: seq<Entry>): multiset<nat> {
    if es == [] then multiset{} else ObjectsOf(es[0]) + Objects(es[1..])
  }

  ghost function ObjectsOf(e: Entry): multiset<nat> {
    if e.kind.DirectoryEntry? then Objects(e.children) else multiset{e.id}
  }

  lemma {:induction false} ContentsConcat(a: seq<Entry>, b: seq<Entry>)
    ensures Dirs(a + b) == Dirs(a) + Dirs(b) && Objects(a + b) == Objects(a) + Objects(b)
  {
    hide *;
    NoContents();
    if a == [] {
      assert a + b == b;
    } else {
      ContentsConcat(a[1..], b);
      assert a == [a[0]] + a[1..] && a + b == [a[0]] + (a[1..] + b);
      ContentsCons(a[0], a[1..]);
      ContentsCons(a[0], a[1..] + b);
    }
  }

  lemma ContentsCons(e: Entry, es: seq<Entry>)
    ensures Dirs([e] + es) == DirsOf(e) + Dirs(es) && Objects([e] + es) == ObjectsOf(e) + Objects(es)
  {
    hide DirsOf, ObjectsOf;
    assert ([e] + es)[1..] == es;
  }

  lemma ContentsOfOne(e: Entry)
    ensures Dirs([e]) == DirsOf(e) && Objects([e]) == ObjectsOf(e)
  {
    assert [e][1..] == [];
  }

  lemma {:induction false} ContentsInsert(e: Entry, es: seq<Entry>)
    ensures Dirs(Insert(e, es, EntryLe)) == DirsOf(e) + Dirs(es) && Objects(Insert(e, es, EntryLe)) == ObjectsOf(e) + Objects(es)
  {
    ContentsOfOne(e);
    if es != [] {
      if EntryLe(e, es[0]) {
        assert ([e] + es)[1..] == es;
      } else {
        ContentsInsert(e, es[1..]);
        assert Insert(e, es, EntryLe)[1..] == Insert(e, es[1..], EntryLe);
      }
    }
  }

  /** Sorting loses and repeats nothing. */
  lemma {:induction false} ContentsSort(es: seq<Entry>)
    requires TotalPreorder(EntryLe)
    ensures Dirs(Sort(es, EntryLe)) == Dirs(es) && Objects(Sort(es, EntryLe)) == Objects(es)
  {
    if es != [] {
      ContentsSort(es[1..]);
      ContentsInsert(es[0], Sort(es[1..], EntryLe));
    }
  }

  // ---- The queried rows -----------------------------------------------------------------

  /** The rows below top level of the given resources, each once: the second query of `ListScannedNodesAndItems`. */
  ghost predicate ListsRows(nodes: Nodes, res: set<nat>, rows: seq<Node>) {
    && NoDuplicates(rows)
    && forall n: Node {:trigger n in rows} :: n in rows <==> n.id in nodes && nodes[n.id] == n && n.parent.Some? && n.res in res
  }

  /** Their items, each once: the third. */
  ghost predicate ListsItems(items: Items, res: set<nat>, its: seq<Item>) {
    && NoDuplicates(its)
    && forall t: Item {:trigger t in its} :: t in its <==> t.id in items && items[t.id] == t && t.res in res
  }

  lemma {:induction false} ChildrenInMembers(rows: seq<Node>, p: nat)
    requires NoDuplicates(rows)
    ensures forall n {:trigger n in ChildrenIn(rows, p)} :: n in ChildrenIn(rows, p) <==> n in rows && n.parent == Some(p)
    ensures NoDuplicates(ChildrenIn(rows, p))
  {
    if rows != [] {
      var front := rows[..|rows| - 1];
      var last := rows[|rows| - 1];
      assert rows == front + [last];
      NoDuplicatesSnoc(front, last);
      ChildrenInMembers(front, p);
      NoDuplicatesSnoc(ChildrenIn(front, p), last);
    }
  }

  lemma {:induction false} ItemsInMembers(its: seq<Item>, p: nat)
    requires NoDuplicates(its)
    ensures forall t {:trigger t in ItemsIn(its, p)} :: t in ItemsIn(its, p) <==> t in its && t.node == p
    ensures NoDuplicates(ItemsIn(its, p))
  {
    if its != [] {
      var front := its[..|its| - 1];
      var last := its[|its| - 1];
      assert its == front + [last];
      NoDuplicatesSnoc(front, last);
      ItemsInMembers(front, p);
      NoDuplicatesSnoc(ItemsIn(front, p), last);
    }
  }

  /** The grouped maps, read against the tables. */
  ghost predicate IsSnapshot(nodes: Nodes, items: Items, res: set<nat>, rows: ChildRows, its: NodeItems) {
    && (forall p {:trigger Under(rows, p)} :: p in nodes ==> ListsChildren(nodes, res, p, Under(rows, p)))
    && (forall p {:trigger Under(its, p)} :: p in nodes ==> ListsOwnItems(items, res, p, Under(its, p)))
  }

  ghost predicate ListsChildren(nodes: Nodes, res: set<nat>, p: nat, cs: seq<Node>) {
    && NoDuplicates(cs)
    && forall n: Node {:trigger n in cs} :: n in cs <==> n.id in nodes && nodes[n.id] == n && n.parent == Some(p) && n.res in res
  }

  ghost predicate ListsOwnItems(items: Items, res: set<nat>, p: nat, ts: seq<Item>) {
    && NoDuplicates(ts)
    && forall t: Item {:trigger t in ts} :: t in ts <==> t.id in items && items[t.id] == t && t.node == p && t.res in res
  }

  /** Grouping the queried rows gives such maps. */
  lemma GroupedSnapshot(nodes: Nodes, items: Items, res: set<nat>, childNodes: seq<Node>, itemRows: seq<Item>)
    requires ListsRows(nodes, res, childNodes) && ListsItems(items, res, itemRows)
    ensures IsSnapshot(nodes, items, res, RowsByParent(childNodes), ItemsByNode(itemRows))
  {
    hide RowsByParent, ItemsByNode;
    forall p | p in nodes ensures ListsChildren(nodes, res, p, Under(RowsByParent(childNodes), p)) {
      ChildrenInMembers(childNodes, p);
    }
    forall p | p in nodes ensures ListsOwnItems(items, res, p, Under(ItemsByNode(itemRows), p)) {
      ItemsInMembers(itemRows, p);
    }
  }

  /** On a forest the recursion terminates: children sit one level deeper. */
  lemma SnapshotLayered(nodes: Nodes, items: Items, res: set<nat>, rows: ChildRows, its: NodeItems)
    requires Linked(nodes) && IsSnapshot(nodes, items, res, rows, its)
    ensures Layered(nodes, rows)
  {
    forall p, n | p in nodes && n in Under(rows, p) ensures n.id in nodes && nodes[n.id] == n && n.depth == nodes[p].depth + 1 {
      assert ListsChildren(nodes, res, p, Under(rows, p));
      assert LinkedRow(nodes, n.id);
    }
  }

  // ---- Branches ------------------------------------------------------------------------------

  predicate AtOrBelow(nodes: Nodes, i: nat, a: nat)
    requires Linked(nodes) && i in nodes
  {
    a in IdChain(nodes, i)
  }

  /** The child of p on the way down to i. */
  lemma {:induction false} BranchOf(nodes: Nodes, i: nat, p: nat) returns (c: nat)
    requires Linked(nodes) && i in nodes && p in nodes && IsProperDescendant(nodes, i, p)
    ensures c in nodes && nodes[c].parent == Some(p) && AtOrBelow(nodes, i, c)
    decreases nodes[i].depth
  {
    assert LinkedRow(nodes, i);
    var chain := IdChain(nodes, i);
    assert chain[|chain| - 1] == i;
    var q := nodes[i].parent.value;
    if q == p {
      c := i;
    } else {
      c := BranchOf(nodes, q, p);
    }
  }

  lemma ChildIsBelow(nodes: Nodes, i: nat, c: nat, p: nat)
    requires Linked(nodes) && i in nodes && c in nodes && nodes[c].parent == Some(p) && AtOrBelow(nodes, i, c)
    ensures p in nodes && IsProperDescendant(nodes, i, p)
  {
    assert LinkedRow(nodes, c);
    var chain := IdChain(nodes, i);
    var k :| 0 <= k < |chain| && chain[k] == c;
    ChainPrefix(nodes, i, k);
    assert IdChain(nodes, c) == IdChain(nodes, p) + [c];
    var m := |IdChain(nodes, p)| - 1;
    assert chain[m] == chain[..k + 1][m] == IdChain(nodes, c)[m] == p;
    assert nodes[p].depth < |IdChain(nodes, c)| <= |chain|;
  }

  /** Two siblings have no row below them in common. */
  lemma OneBranch(nodes: Nodes, i: nat, c: nat, d: nat)
    requires Linked(nodes) && i in nodes && c in nodes && d in nodes && nodes[c].depth == nodes[d].depth
    requires AtOrBelow(nodes, i, c) && AtOrBelow(nodes, i, d)
    ensures c == d
  {
    var chain := IdChain(nodes, i);
    var j :| 0 <= j < |chain| && chain[j] == c;
    var k :| 0 <= k < |chain| && chain[k] == d;
    ChainPrefix(nodes, i, j);
    ChainPrefix(nodes, i, k);
  }

  // ---- Conservation -----------------------------------------------------------------------------

  ghost function RowsBelow(nodes: Nodes, p: nat): set<nat>
    requires Linked(nodes)
  {
    set i | i in nodes && IsProperDescendant(nodes, i, p)
  }

  /** The rows at or below one of the first k children. */
  ghost function RowsUpTo(nodes: Nodes, cs: seq<Node>, k: nat): set<nat>
    requires Linked(nodes) && k <= |cs|
  {
    set i | i in nodes && exists j :: 0 <= j < k && AtOrBelow(nodes, i, cs[j].id)
  }

  /** The objects of the rows at or below p. */
  ghost function ItemsAtOrBelow(nodes: Nodes, items: Items, p: nat): set<nat>
    requires Linked(nodes)
  {
    set t | t in items && items[t].kind.ObjectItem? && items[t].node in nodes && AtOrBelow(nodes, items[t].node, p)
  }

  ghost function ItemsUpTo(nodes: Nodes, items: Items, cs: seq<Node>, k: nat): set<nat>
    requires Linked(nodes) && k <= |cs|
  {
    set t | t in items && items[t].kind.ObjectItem? && items[t].node in nodes
            && exists j :: 0 <= j < k && AtOrBelow(nodes, items[t].node, cs[j].id)
  }

  ghost function OwnObjects(items: Items, p: nat): set<nat> {
    set t | t in items && items[t].kind.ObjectItem? && items[t].node == p
  }

  ghost predicate Siblings(nodes: Nodes, p: nat, cs: seq<Node>) {
    && p in nodes
    && (forall j :: 0 <= j < |cs| ==> cs[j].id in nodes && nodes[cs[j].id] == cs[j] && cs[j].parent == Some(p))
    && (forall j, k :: 0 <= j < k < |cs| ==> cs[j].id != cs[k].id)
  }

  lemma SnapshotSiblings(nodes: Nodes, items: Items, res: set<nat>, rows: ChildRows, its: NodeItems, p: nat)
    requires IsSnapshot(nodes, items, res, rows, its) && p in nodes
    ensures Siblings(nodes, p, Under(rows, p))
  {
    var cs := Under(rows, p);
    assert ListsChildren(nodes, res, p, cs);
    forall j | 0 <= j < |cs| ensures cs[j].id in nodes && nodes[cs[j].id] == cs[j] && cs[j].parent == Some(p) {
      assert cs[j] in cs;
    }
  }

  /** One more child adds itself and the rows below it, none of which was there. */
  lemma OneMoreBranch(nodes: Nodes, items: Items, p: nat, cs: seq<Node>, k: nat)
    requires Linked(nodes) && Siblings(nodes, p, cs) && k < |cs|
    ensures multiset(RowsUpTo(nodes, cs, k + 1)) == multiset(RowsUpTo(nodes, cs, k)) + multiset{cs[k].id} + multiset(RowsBelow(nodes, cs[k].id))
    ensures multiset(ItemsUpTo(nodes, items, cs, k + 1)) == multiset(ItemsUpTo(nodes, items, cs, k))
        + multiset(ItemsAtOrBelow(nodes, items, cs[k].id))
  {
    var c := cs[k].id;
    var chain := IdChain(nodes, c);
    assert chain[|chain| - 1] == c;
    forall i | i in nodes && AtOrBelow(nodes, i, c) ensures i !in RowsUpTo(nodes, cs, k) {
      SiblingsApart(nodes, p, cs, k, i);
    }
    assert RowsUpTo(nodes, cs, k + 1) == RowsUpTo(nodes, cs, k) + ({c} + RowsBelow(nodes, c));
    assert ItemsUpTo(nodes, items, cs, k + 1) == ItemsUpTo(nodes, items, cs, k) + ItemsAtOrBelow(nodes, items, c);
    DisjointUnion(RowsUpTo(nodes, cs, k), {c} + RowsBelow(nodes, c));
    DisjointUnion({c}, RowsBelow(nodes, c));
    forall t | t in ItemsAtOrBelow(nodes, items, c) ensures t !in ItemsUpTo(nodes, items, cs, k) {
      SiblingsApart(nodes, p, cs, k, items[t].node);
    }
    DisjointUnion(ItemsUpTo(nodes, items, cs, k), ItemsAtOrBelow(nodes, items, c));
  }

  lemma SiblingsApart(nodes: Nodes, p: nat, cs: seq<Node>, k: nat, i: nat)
    requires Linked(nodes) && Siblings(nodes, p, cs) && k < |cs| && i in nodes && AtOrBelow(nodes, i, cs[k].id)
    ensures forall j :: 0 <= j < k ==> !AtOrBelow(nodes, i, cs[j].id)
  {
    forall j | 0 <= j < k ensures !AtOrBelow(nodes, i, cs[j].id) {
      assert LinkedRow(nodes, cs[j].id) && LinkedRow(nodes, cs[k].id);
      if AtOrBelow(nodes, i, cs[j].id) {
        OneBranch(nodes, i, cs[j].id, cs[k].id);
      }
    }
  }

  lemma DisjointUnion(a: set<nat>, b: set<nat>)
    requires a !! b
    ensures multiset(a + b) == multiset(a) + multiset(b)
  {
  }

  /** The rows below p are those at or below its children. */
  lemma AllBranches(nodes: Nodes, items: Items, res: set<nat>, rows: ChildRows, its: NodeItems, p: nat)
    requires Linked(nodes) && IsSnapshot(nodes, items, res, rows, its) && p in nodes && nodes[p].res in res
    ensures RowsUpTo(nodes, Under(rows, p), |Under(rows, p)|) == RowsBelow(nodes, p)
    ensures ItemsAtOrBelow(nodes, items, p) == ItemsUpTo(nodes, items, Under(rows, p), |Under(rows, p)|) + OwnObjects(items, p)
    ensures ItemsUpTo(nodes, items, Under(rows, p), |Under(rows, p)|) !! OwnObjects(items, p)
  {
    var cs := Under(rows, p);
    SnapshotSiblings(nodes, items, res, rows, its, p);
    var chain := IdChain(nodes, p);
    assert chain[|chain| - 1] == p;
    forall i | i in nodes ensures (exists j :: 0 <= j < |cs| && AtOrBelow(nodes, i, cs[j].id)) <==> IsProperDescendant(nodes, i, p) {
      BranchesOf(nodes, items, res, rows, its, p, i);
    }
  }

  lemma BranchesOf(nodes: Nodes, items: Items, res: set<nat>, rows: ChildRows, its: NodeItems, p: nat, i: nat)
    requires Linked(nodes) && IsSnapshot(nodes, items, res, rows, its) && p in nodes && nodes[p].res in res && i in nodes
    ensures (exists j :: 0 <= j < |Under(rows, p)| && AtOrBelow(nodes, i, Under(rows, p)[j].id)) <==> IsProperDescendant(nodes, i, p)
  {
    var cs := Under(rows, p);
    SnapshotSiblings(nodes, items, res, rows, its, p);
    if exists j :: 0 <= j < |cs| && AtOrBelow(nodes, i, cs[j].id) {
      var j :| 0 <= j < |cs| && AtOrBelow(nodes, i, cs[j].id);
      ChildIsBelow(nodes, i, cs[j].id, p);
    }
    if IsProperDescendant(nodes, i, p) {
      var c := BranchOf(nodes, i, p);
      assert LinkedRow(nodes, c);
      assert ListsChildren(nodes, res, p, cs);
      assert nodes[c] in cs;
      var j :| 0 <= j < |cs| && cs[j] == nodes[c];
      assert AtOrBelow(nodes, i, cs[j].id);
    }
  }

  ghost function ObjectIds(ts: seq<Item>): set<nat> {
    set k | 0 <= k < |ts| && ts[k].kind.ObjectItem? :: ts[k].id
  }

  ghost predicate DistinctIds(ts: seq<Item>) {
    forall j, k :: 0 <= j < k < |ts| ==> ts[j].id != ts[k].id
  }

  lemma ObjectIdsSnoc(front: seq<Item>, last: Item)
    requires DistinctIds(front + [last])
    ensures DistinctIds(front) && last.id !in ObjectIds(front)
    ensures ObjectIds(front + [last]) == ObjectIds(front) + (if last.kind.ObjectItem? then {last.id} else {})
  {
    var ts := front + [last];
    forall j, k | 0 <= j < k < |front| ensures front[j].id != front[k].id {
      assert ts[j] == front[j] && ts[k] == front[k];
    }
    forall j | 0 <= j < |front| ensures front[j].id != last.id && ts[j] == front[j] {
      assert ts[j] == front[j] && ts[|front|] == last;
    }
    forall t | t in ObjectIds(front) ensures t in ObjectIds(ts) {
      var k :| 0 <= k < |front| && front[k].kind.ObjectItem? && front[k].id == t;
      assert ts[k].id == t && ts[k].kind.ObjectItem?;
    }
    if last.kind.ObjectItem? {
      assert ts[|front|].id == last.id;
    }
  }

  lemma ItemEntriesSnoc(front: seq<Item>, last: Item)
    ensures Dirs(ItemEntries(front + [last])) == Dirs(ItemEntries(front))
    ensures Objects(ItemEntries(front + [last])) == Objects(ItemEntries(front)) + (if last.kind.ObjectItem? then multiset{last.id} else multiset{})
  {
    hide Dirs, Objects;
    assert (front + [last])[..|front|] == front;
    if last.kind.ObjectItem? {
      ContentsConcat(ItemEntries(front), [ItemEntry(last)]);
      ContentsOfOne(ItemEntry(last));
    } else {
      assert ItemEntries(front) + [] == ItemEntries(front);
    }
  }

  lemma {:induction false} OwnEntries(ts: seq<Item>)
    requires DistinctIds(ts)
    ensures Dirs(ItemEntries(ts)) == multiset{} && Objects(ItemEntries(ts)) == multiset(ObjectIds(ts))
  {
    hide DistinctIds, ObjectIds, Dirs, Objects;
    if ts == [] {
      NoContents();
      NoObjectIds();
    } else {
      var front, last := ts[..|ts| - 1], ts[|ts| - 1];
      assert ts == front + [last];
      ObjectIdsSnoc(front, last);
      OwnEntries(front);
      ItemEntriesSnoc(front, last);
      DisjointUnion(ObjectIds(front), if last.kind.ObjectItem? then {last.id} else {});
    }
  }

  lemma NoObjectIds()
    ensures ObjectIds([]) == {}
  {
  }

  lemma OwnObjectsListed(nodes: Nodes, items: Items, res: set<nat>, rows: ChildRows, its: NodeItems, p: nat)
    requires Linked(nodes) && ItemsPlaced(nodes, items) && IsSnapshot(nodes, items, res, rows, its) && p in nodes && nodes[p].res in res
    ensures Objects(ItemEntries(Under(its, p))) == multiset(OwnObjects(items, p)) && Dirs(ItemEntries(Under(its, p))) == multiset{}
  {
    var ts := Under(its, p);
    assert ListsOwnItems(items, res, p, ts);
    forall j, k | 0 <= j < k < |ts| ensures ts[j].id != ts[k].id {
      assert ts[j] in ts && ts[k] in ts;
    }
    OwnEntries(ts);
    forall t | t in OwnObjects(items, p) ensures t in ObjectIds(ts) {
      assert ItemRow(nodes, items, t);
      assert items[t] in ts;
      var k :| 0 <= k < |ts| && ts[k] == items[t];
    }
    forall t | t in ObjectIds(ts) ensures t in OwnObjects(items, p) {
      var k :| 0 <= k < |ts| && ts[k].id == t && ts[k].kind.ObjectItem?;
      assert ts[k] in ts;
    }
  }

  lemma LevelContents(nodes: Nodes, rows: ChildRows, its: NodeItems, p: nat)
    requires Layered(nodes, rows) && p in nodes
    ensures var es := DirEntries(nodes, rows, its, p, |Under(rows, p)|);
            && Dirs(Level(nodes, rows, its, p)) == Dirs(es) + Dirs(ItemEntries(Under(its, p)))
            && Objects(Level(nodes, rows, its, p)) == Objects(es) + Objects(ItemEntries(Under(its, p)))
  {
    hide Dirs, Objects, ItemEntries, DirEntries, EntryLe;
    var es := DirEntries(nodes, rows, its, p, |Under(rows, p)|);
    LevelParts(nodes, rows, its, p);
    ContentsSort(es + ItemEntries(Under(its, p)));
    ContentsConcat(es, ItemEntries(Under(its, p)));
  }

  lemma NextContents(nodes: Nodes, rows: ChildRows, its: NodeItems, p: nat, k: nat)
    requires Layered(nodes, rows) && p in nodes && k < |Under(rows, p)|
    ensures var child := Under(rows, p)[k];
            && child.id in nodes && Deeper(nodes, nodes[child.id].depth) < Deeper(nodes, nodes[p].depth)
            && Dirs(DirEntries(nodes, rows, its, p, k + 1))
               == Dirs(DirEntries(nodes, rows, its, p, k)) + multiset{child.id} + Dirs(Level(nodes, rows, its, child.id))
            && Objects(DirEntries(nodes, rows, its, p, k + 1))
               == Objects(DirEntries(nodes, rows, its, p, k)) + Objects(Level(nodes, rows, its, child.id))
  {
    hide Dirs, Objects, DirEntries, Level;
    NextDirEntry(nodes, rows, its, p, k);
    var child := Under(rows, p)[k];
    var e := DirEntry(child, Level(nodes, rows, its, child.id));
    ContentsConcat(DirEntries(nodes, rows, its, p, k), [e]);
    ContentsOfOne(e);
  }

  /** The rebuilt tree below a row holds each descendant row once and each object of the subtree once. */
  lemma {:induction false} TreeConserves(nodes: Nodes, items: Items, res: set<nat>, rows: ChildRows, its: NodeItems, p: nat)
    requires Linked(nodes) && ItemsPlaced(nodes, items) && IsSnapshot(nodes, items, res, rows, its) && Layered(nodes, rows)
    requires p in nodes && nodes[p].res in res
    ensures Dirs(Level(nodes, rows, its, p)) == multiset(RowsBelow(nodes, p))
    ensures Objects(Level(nodes, rows, its, p)) == multiset(ItemsAtOrBelow(nodes, items, p))
    decreases Deeper(nodes, nodes[p].depth), 1, 0
  {
    hide Dirs, Objects, ItemEntries, DirEntries, Level, RowsBelow, RowsUpTo, ItemsAtOrBelow, ItemsUpTo, OwnObjects, IsSnapshot, ItemsPlaced;
    var cs := Under(rows, p);
    BranchesConserve(nodes, items, res, rows, its, p, |cs|);
    AllBranches(nodes, items, res, rows, its, p);
    OwnObjectsListed(nodes, items, res, rows, its, p);
    DisjointUnion(ItemsUpTo(nodes, items, cs, |cs|), OwnObjects(items, p));
    LevelContents(nodes, rows, its, p);
  }

  lemma {:induction false} BranchesConserve(nodes: Nodes, items: Items, res: set<nat>, rows: ChildRows, its: NodeItems, p: nat, k: nat)
    requires Linked(nodes) && ItemsPlaced(nodes, items) && IsSnapshot(nodes, items, res, rows, its) && Layered(nodes, rows)
    requires p in nodes && nodes[p].res in res && k <= |Under(rows, p)|
    ensures Dirs(DirEntries(nodes, rows, its, p, k)) == multiset(RowsUpTo(nodes, Under(rows, p), k))
    ensures Objects(DirEntries(nodes, rows, its, p, k)) == multiset(ItemsUpTo(nodes, items, Under(rows, p), k))
    decreases Deeper(nodes, nodes[p].depth), 0, k
  {
    hide Dirs, Objects, DirEntries, ItemEntries, Level, RowsBelow, ItemsAtOrBelow, RowsUpTo, ItemsUpTo, IsSnapshot, ItemsPlaced, Layered;
    if k == 0 {
      NoContents();
      NoBranches(nodes, items, rows, its, p);
    } else {
      var child := Under(rows, p)[k - 1];
      NextContents(nodes, rows, its, p, k - 1);
      SnapshotSiblings(nodes, items, res, rows, its, p);
      assert LinkedRow(nodes, child.id);
      BranchesConserve(nodes, items, res, rows, its, p, k - 1);
      TreeConserves(nodes, items, res, rows, its, child.id);
      OneMoreBranch(nodes, items, p, Under(rows, p), k - 1);
    }
  }

  lemma NoBranches(nodes: Nodes, items: Items, rows: ChildRows, its: NodeItems, p: nat)
    requires Linked(nodes) && Layered(nodes, rows) && p in nodes
    ensures DirEntries(nodes, rows, its, p, 0) == [] && RowsUpTo(nodes, Under(rows, p), 0) == {} && ItemsUpTo(nodes, items, Under(rows, p), 0) == {}
  {
  }

  lemma NoContents()
    ensures Dirs([]) == multiset{} && Objects([]) == multiset{}
  {
  }

  // ---- Each entry at its own place -----------------------------------------------------------------

  /** What an entry of p's level is: a child row with the level below it, or one of p's own objects. */
  ghost predicate IsEntryOf(nodes: Nodes, items: Items, rows: ChildRows, its: NodeItems, p: nat, e: Entry)
    requires Layered(nodes, rows)
  {
    match e.kind
    case DirectoryEntry =>
      e.id in nodes && nodes[e.id].parent == Some(p) && e == DirEntry(nodes[e.id], Level(nodes, rows, its, e.id))
    case ObjectEntry =>
      e.id in items && items[e.id].node == p && items[e.id].kind.ObjectItem? && e == ItemEntry(items[e.id])
  }

  lemma {:induction false} DirEntriesMember(nodes: Nodes, rows: ChildRows, its: NodeItems, p: nat, k: nat, e: Entry)
    requires Layered(nodes, rows) && p in nodes && k <= |Under(rows, p)|
    ensures forall j {:trigger Under(rows, p)[j]} :: 0 <= j < k ==> Under(rows, p)[j].id in nodes
    ensures e in DirEntries(nodes, rows, its, p, k) <==>
              exists j :: 0 <= j < k && e == DirEntry(Under(rows, p)[j], Level(nodes, rows, its, Under(rows, p)[j].id))
  {
    hide *;
    if k == 0 {
      LevelParts(nodes, rows, its, p);
    } else {
      DirEntriesMember(nodes, rows, its, p, k - 1, e);
      NextDirEntry(nodes, rows, its, p, k - 1);
    }
  }

  lemma {:induction false} ItemEntriesMember(ts: seq<Item>, e: Entry)
    ensures e in ItemEntries(ts) <==> exists t :: t in ts && t.kind.ObjectItem? && e == ItemEntry(t)
  {
    hide ItemEntry;
    if ts != [] {
      ItemEntriesMember(ts[..|ts| - 1], e);
      assert ts == ts[..|ts| - 1] + [ts[|ts| - 1]];
    }
  }

  lemma LevelMember(nodes: Nodes, rows: ChildRows, its: NodeItems, p: nat, e: Entry)
    requires Layered(nodes, rows) && p in nodes
    ensures e in Level(nodes, rows, its, p) <==>
              e in DirEntries(nodes, rows, its, p, |Under(rows, p)|) || e in ItemEntries(Under(its, p))
  {
    hide DirEntries, ItemEntries, EntryLe, Level;
    LevelParts(nodes, rows, its, p);
    var es := DirEntries(nodes, rows, its, p, |Under(rows, p)|) + ItemEntries(Under(its, p));
    PermutationMembers(es, Sort(es, EntryLe), e);
  }

  /** A level holds exactly the entries of its row. */
  lemma LevelIsExact(nodes: Nodes, items: Items, res: set<nat>, rows: ChildRows, its: NodeItems, p: nat, e: Entry)
    requires Linked(nodes) && ItemsPlaced(nodes, items) && IsSnapshot(nodes, items, res, rows, its) && Layered(nodes, rows)
    requires p in nodes && nodes[p].res in res
    ensures e in Level(nodes, rows, its, p) <==> IsEntryOf(nodes, items, rows, its, p, e)
  {
    hide Level, DirEntries, ItemEntries, Layered;
    var cs, ts := Under(rows, p), Under(its, p);
    assert ListsChildren(nodes, res, p, cs) && ListsOwnItems(items, res, p, ts);
    LevelMember(nodes, rows, its, p, e);
    DirEntriesMember(nodes, rows, its, p, |cs|, e);
    ItemEntriesMember(ts, e);
    if e.kind.DirectoryEntry? && IsEntryOf(nodes, items, rows, its, p, e) {
      assert LinkedRow(nodes, e.id);
      assert nodes[e.id] in cs;
      var j :| 0 <= j < |cs| && cs[j] == nodes[e.id];
      assert e == DirEntry(cs[j], Level(nodes, rows, its, cs[j].id));
    }
    if e.kind.ObjectEntry? && IsEntryOf(nodes, items, rows, its, p, e) {
      assert ItemRow(nodes, items, e.id);
      assert items[e.id] in ts;
    }
    if e in DirEntries(nodes, rows, its, p, |cs|) {
      var j :| 0 <= j < |cs| && e == DirEntry(cs[j], Level(nodes, rows, its, cs[j].id));
      assert cs[j] in cs;
    }
  }

  /** Sorted at every depth, every directory showing its row's name, full name and counters, every object its item's. */
  ghost predicate WellMade(nodes: Nodes, items: Items, es: seq<Entry>)
    decreases es
  {
    && Sorted(es, EntryLe)
    && forall e :: e in es ==> WellMadeEntry(nodes, items, e)
  }

  ghost predicate WellMadeEntry(nodes: Nodes, items: Items, e: Entry)
    decreases e
  {
    match e.kind
    case DirectoryEntry =>
      && e.id in nodes && e.name == nodes[e.id].name && e.fullName == nodes[e.id].fullName && e.depth == nodes[e.id].depth
      && e.objectCount == nodes[e.id].itemCount && e.sizeBytes == nodes[e.id].totalSize
      && WellMade(nodes, items, e.children)
    case ObjectEntry => e.id in items && e == ItemEntry(items[e.id])
  }

  /** In every level no object comes before a directory, and the names of each kind ascend. */
  lemma LevelInOrder(nodes: Nodes, items: Items, es: seq<Entry>, i: nat, j: nat)
    requires WellMade(nodes, items, es) && i < j < |es|
    ensures es[i].kind.ObjectEntry? ==> es[j].kind.ObjectEntry?
    ensures es[i].kind == es[j].kind ==> IsAtMost(es[i].name, es[j].name)
  {
    hide WellMadeEntry, StrLe, IsAtMost;
    StrLeIsAtMost(es[i].name, es[j].name);
    assert EntryLe(es[i], es[j]);
  }

  /** What is shown of an item: its own size if it has one, else that of a table, and its relative path in place of a missing full name. */
  ghost predicate ShowsItem(item: Item, e: Entry) {
    && e.id == item.id && e.name == item.name && e.kind.ObjectEntry? && e.depth == 0 && e.objectCount == 0 && e.children == []
    && (if item.objectSize.Some? then item.objectSize == Some(e.sizeBytes)
        else if item.sizeBytes.Some? then item.sizeBytes == Some(e.sizeBytes) else e.sizeBytes == 0)
    && (item.fullName != "" ==> e.fullName == item.fullName)
    && (item.fullName == "" && "relative_path" in item.attrs ==> e.fullName == item.attrs["relative_path"])
  }

  lemma ObjectsShowItems(nodes: Nodes, items: Items, e: Entry)
    requires WellMadeEntry(nodes, items, e) && e.kind.ObjectEntry?
    ensures e.id in items && ShowsItem(items[e.id], e)
  {
    hide WellMade, Under;
  }

  lemma EntryIsWellMade(nodes: Nodes, items: Items, rows: ChildRows, its: NodeItems, p: nat, e: Entry)
    requires Layered(nodes, rows) && IsEntryOf(nodes, items, rows, its, p, e)
    requires e.kind.DirectoryEntry? ==> e.id in nodes && WellMade(nodes, items, Level(nodes, rows, its, e.id))
    ensures WellMadeEntry(nodes, items, e)
  {
    hide Level, Layered, ItemEntry, WellMade;
  }

  lemma {:induction false} TreeIsWellMade(nodes: Nodes, items: Items, res: set<nat>, rows: ChildRows, its: NodeItems, p: nat)
    requires Linked(nodes) && ItemsPlaced(nodes, items) && IsSnapshot(nodes, items, res, rows, its) && Layered(nodes, rows)
    requires p in nodes && nodes[p].res in res
    ensures WellMade(nodes, items, Level(nodes, rows, its, p))
    decreases Deeper(nodes, nodes[p].depth)
  {
    hide IsSnapshot, ItemsPlaced, Layered, Level, WellMadeEntry, EntryLe, ItemEntry, Deeper;
    forall e | e in Level(nodes, rows, its, p) ensures WellMadeEntry(nodes, items, e) {
      LevelIsExact(nodes, items, res, rows, its, p, e);
      if e.kind.DirectoryEntry? {
        assert LinkedRow(nodes, e.id);
        ChildDeeper(nodes, e.id, p);
        TreeIsWellMade(nodes, items, res, rows, its, e.id);
      }
      EntryIsWellMade(nodes, items, rows, its, p, e);
    }
  }

  lemma ChildDeeper(nodes: Nodes, c: nat, p: nat)
    requires c in nodes && p in nodes && nodes[c].depth == nodes[p].depth + 1
    ensures Deeper(nodes, nodes[c].depth) < Deeper(nodes, nodes[p].depth)
  {
    assert c in Deeper(nodes, nodes[p].depth) && c !in Deeper(nodes, nodes[c].depth);
  }
}

/** What a scan hands to the item table, in order, and how counters kept along the way relate to
    the rows that end up stored. */
module Deliveries {
  import opened Options
  import opened MetadataForest
  import opened NodeNames

  /** One successful `upsertItem`: the name chain of its directory, its own name, what it wrote. */
  datatype Delivery = Delivery(dir: seq<string>, name: string, data: ItemData)

  function DataSize(d: ItemData): int {
    if d.sizeBytes.Some? then d.sizeBytes.value else 0
  }

  // ---- Counters -------------------------------------------------------------

  function Credit(x: Delivery, d: seq<string>): nat {
    if d <= x.dir then 1 else 0
  }

  /** Deliveries at or below directory d. */
  function TallyCount(log: seq<Delivery>, d: seq<string>): nat {
    if log == [] then 0
    else TallyCount(log[..|log| - 1], d) + Credit(log[|log| - 1], d)
  }

  function TallySize(log: seq<Delivery>, d: seq<string>): int {
    if log == [] then 0
    else TallySize(log[..|log| - 1], d) + (if d <= log[|log| - 1].dir then DataSize(log[|log| - 1].data) else 0)
  }

  lemma TallySnoc(log: seq<Delivery>, x: Delivery, d: seq<string>)
    ensures TallyCount(log + [x], d) == TallyCount(log, d) + Credit(x, d)
    ensures TallySize(log + [x], d) == TallySize(log, d) + (if d <= x.dir then DataSize(x.data) else 0)
  {
    assert (log + [x])[..|log|] == log;
  }

  lemma TallyPrefix(log: seq<Delivery>, k: nat, d: seq<string>)
    requires k < |log|
    ensures TallyCount(log[..k + 1], d) == TallyCount(log[..k], d) + Credit(log[k], d)
    ensures TallySize(log[..k + 1], d) == TallySize(log[..k], d) + (if d <= log[k].dir then DataSize(log[k].data) else 0)
  {
    assert log[..k + 1] == log[..k] + [log[k]];
    TallySnoc(log[..k], log[k], d);
  }

  // ---- Stored rows ----------------------------------------------------------

  function ItemSize(it: Item): int {
    DataSize(DataOf(it))
  }

  ghost predicate Occurs(log: seq<Delivery>, dir: seq<string>, name: string) {
    exists k :: 0 <= k < |log| && log[k].dir == dir && log[k].name == name
  }

  /** What the latest delivery under a key wrote. */
  function LastData(log: seq<Delivery>, dir: seq<string>, name: string): Option<ItemData> {
    if log == [] then None
    else if log[|log| - 1].dir == dir && log[|log| - 1].name == name then Some(log[|log| - 1].data)
    else LastData(log[..|log| - 1], dir, name)
  }

  lemma LastDataSnoc(log: seq<Delivery>, x: Delivery, dir: seq<string>, name: string)
    ensures LastData(log + [x], dir, name) == if x.dir == dir && x.name == name then Some(x.data) else LastData(log, dir, name)
  {
    assert (log + [x])[..|log|] == log;
  }

  lemma OccursLast(log: seq<Delivery>, dir: seq<string>, name: string)
    requires log != []
    ensures Occurs(log, dir, name) <==>
              Occurs(log[..|log| - 1], dir, name) || (log[|log| - 1].dir == dir && log[|log| - 1].name == name)
  {
    var rest := log[..|log| - 1];
    if Occurs(rest, dir, name) {
      var k :| 0 <= k < |rest| && rest[k].dir == dir && rest[k].name == name;
      assert log[k] == rest[k];
    }
    if Occurs(log, dir, name) {
      var k :| 0 <= k < |log| && log[k].dir == dir && log[k].name == name;
      assert k == |log| - 1 || rest[k] == log[k];
    }
  }

  lemma {:induction false} LastDataOccurs(log: seq<Delivery>, dir: seq<string>, name: string)
    ensures LastData(log, dir, name).Some? <==> Occurs(log, dir, name)
  {
    if log != [] {
      LastDataOccurs(log[..|log| - 1], dir, name);
      OccursLast(log, dir, name);
    }
  }

  ghost predicate HasItem(items: Items, names: Names, dir: seq<string>, name: string) {
    exists t :: t in items && items[t].node in names && names[items[t].node] == dir && items[t].name == name
  }

  /** The items of the named directories are exactly the delivered keys, each as its latest delivery wrote it. */
  ghost predicate Stored(items: Items, names: Names, log: seq<Delivery>) {
    && (forall t :: t in items && items[t].node in names ==>
          LastData(log, names[items[t].node], items[t].name) == Some(DataOf(items[t])))
    && (forall k :: 0 <= k < |log| ==> HasItem(items, names, log[k].dir, log[k].name))
  }

  // ---- Counters against stored rows -----------------------------------------

  /** Items in the whole subtree of directory d. */
  ghost function ItemsBelow(items: Items, names: Names, d: seq<string>): set<nat> {
    set t | t in items && items[t].node in names && d <= names[items[t].node]
  }

  ghost function TotalSize(items: Items, s: set<nat>): int
    requires s <= items.Keys
  {
    if s == {} then 0
    else
      var t :| t in s;
      ItemSize(items[t]) + TotalSize(items, s - {t})
  }

  lemma {:induction false} TotalSizeRemove(items: Items, s: set<nat>, t: nat)
    requires s <= items.Keys && t in s
    ensures TotalSize(items, s) == ItemSize(items[t]) + TotalSize(items, s - {t})
    decreases s
  {
    var u :| u in s && TotalSize(items, s) == ItemSize(items[u]) + TotalSize(items, s - {u});
    if u != t {
      TotalSizeRemove(items, s - {u}, t);
      TotalSizeRemove(items, s - {t}, u);
      assert s - {u} - {t} == s - {t} - {u};
    }
  }

  lemma {:induction false} TotalSizeFrame(items: Items, items': Items, s: set<nat>)
    requires s <= items.Keys && s <= items'.Keys
    requires forall t :: t in s ==> ItemSize(items[t]) == ItemSize(items'[t])
    ensures TotalSize(items, s) == TotalSize(items', s)
    decreases s
  {
    if s != {} {
      var t :| t in s;
      TotalSizeRemove(items, s, t);
      TotalSizeRemove(items', s, t);
      TotalSizeFrame(items, items', s - {t});
    }
  }

  /** No key at or below d was delivered twice. */
  ghost predicate DistinctBelow(log: seq<Delivery>, d: seq<string>) {
    forall i, j :: 0 <= i < j < |log| && d <= log[i].dir && d <= log[j].dir ==>
      log[i].dir != log[j].dir || log[i].name != log[j].name
  }

  /** Addresses within the named directories are unique. */
  ghost predicate DistinctItems(items: Items, names: Names) {
    && UniqueSlots(items)
    && DistinctChains(names)
  }

  ghost predicate KeysStored(items: Items, names: Names, log: seq<Delivery>) {
    && (forall t :: t in items && items[t].node in names ==> Occurs(log, names[items[t].node], items[t].name))
    && (forall k :: 0 <= k < |log| ==> HasItem(items, names, log[k].dir, log[k].name))
  }

  lemma StoredKeys(items: Items, names: Names, log: seq<Delivery>)
    requires Stored(items, names, log)
    ensures KeysStored(items, names, log)
  {
    forall t | t in items && items[t].node in names ensures Occurs(log, names[items[t].node], items[t].name) {
      LastDataOccurs(log, names[items[t].node], items[t].name);
    }
  }

  lemma WithoutLast(items: Items, names: Names, log: seq<Delivery>) returns (t: nat, items': Items)
    requires log != [] && KeysStored(items, names, log) && DistinctItems(items, names)
    requires !Occurs(log[..|log| - 1], log[|log| - 1].dir, log[|log| - 1].name)
    ensures t in items && items[t].node in names
    ensures names[items[t].node] == log[|log| - 1].dir && items[t].name == log[|log| - 1].name
    ensures items' == items - {t}
    ensures KeysStored(items', names, log[..|log| - 1]) && DistinctItems(items', names)
    ensures forall d :: ItemsBelow(items', names, d) == ItemsBelow(items, names, d) - {t}
  {
    var x := log[|log| - 1];
    var rest := log[..|log| - 1];
    assert HasItem(items, names, x.dir, x.name);
    t :| t in items && items[t].node in names && names[items[t].node] == x.dir && items[t].name == x.name;
    items' := items - {t};
    forall u | u in items' && items'[u].node in names
      ensures names[items[u].node] != names[items[t].node] || items[u].name != items[t].name
    {
      assert ShareChain(names, items[u].node, items[t].node) && items[u].name == items[t].name ==> ShareSlot(items, u, t);
    }
    forall u | u in items' && items'[u].node in names ensures Occurs(rest, names[items'[u].node], items'[u].name) {
      OccursLast(log, names[items[u].node], items[u].name);
    }
    forall u, v | ShareSlot(items', u, v) ensures u == v {
      assert ShareSlot(items, u, v);
    }
    forall k | 0 <= k < |rest| ensures HasItem(items', names, rest[k].dir, rest[k].name) {
      assert log[k] == rest[k];
      assert HasItem(items, names, log[k].dir, log[k].name);
      var u :| u in items && items[u].node in names && names[items[u].node] == log[k].dir && items[u].name == log[k].name;
      assert u != t;
      assert u in items';
    }
  }

  /** A directory's counter never falls short of the number of items in its subtree, and the two
      are equal exactly when no key below it was delivered twice. */
  lemma {:induction false} CountIsExact(items: Items, names: Names, log: seq<Delivery>, d: seq<string>)
    requires KeysStored(items, names, log) && DistinctItems(items, names)
    ensures |ItemsBelow(items, names, d)| <= TallyCount(log, d)
    ensures |ItemsBelow(items, names, d)| == TallyCount(log, d) <==> DistinctBelow(log, d)
    decreases |log|
  {
    if log == [] {
      assert forall dir, name {:trigger Occurs(log, dir, name)} :: !Occurs(log, dir, name);
      assert ItemsBelow(items, names, d) == {};
    } else {
      var x := log[|log| - 1];
      var rest := log[..|log| - 1];
      DistinctLast(log, d);
      if Occurs(rest, x.dir, x.name) {
        forall t | t in items && items[t].node in names ensures Occurs(rest, names[items[t].node], items[t].name) {
          OccursLast(log, names[items[t].node], items[t].name);
        }
        forall m | 0 <= m < |rest| ensures HasItem(items, names, rest[m].dir, rest[m].name) {
          assert log[m] == rest[m];
        }
        CountIsExact(items, names, rest, d);
      } else {
        var t, items' := WithoutLast(items, names, log);
        CountIsExact(items', names, rest, d);
        assert t in ItemsBelow(items, names, d) <==> d <= x.dir;
      }
    }
  }

  /** A last delivery breaks distinctness below d exactly if it lies below d and repeats a key. */
  lemma DistinctLast(log: seq<Delivery>, d: seq<string>)
    requires log != []
    ensures DistinctBelow(log, d) <==>
              && DistinctBelow(log[..|log| - 1], d)
              && !(d <= log[|log| - 1].dir && Occurs(log[..|log| - 1], log[|log| - 1].dir, log[|log| - 1].name))
  {
    var rest := log[..|log| - 1];
    var x := log[|log| - 1];
    assert forall i :: 0 <= i < |rest| ==> rest[i] == log[i];
    if Occurs(rest, x.dir, x.name) && d <= x.dir {
      var k :| 0 <= k < |rest| && rest[k].dir == x.dir && rest[k].name == x.name;
      assert log[k].dir == x.dir && log[|log| - 1] == x;
    }
  }

  /** `Stored`, for the deliveries at or below directory d. */
  ghost predicate StoredBelow(items: Items, names: Names, log: seq<Delivery>, d: seq<string>) {
    && (forall t {:trigger items[t]} :: t in items && items[t].node in names && d <= names[items[t].node] ==>
          LastData(log, names[items[t].node], items[t].name) == Some(DataOf(items[t])))
    && (forall k :: 0 <= k < |log| && d <= log[k].dir ==> HasItem(items, names, log[k].dir, log[k].name))
  }

  lemma BelowElsewhere(items: Items, names: Names, log: seq<Delivery>, d: seq<string>)
    requires log != [] && StoredBelow(items, names, log, d) && !(d <= log[|log| - 1].dir)
    ensures StoredBelow(items, names, log[..|log| - 1], d)
  {
    var rest := log[..|log| - 1];
    forall k | 0 <= k < |rest| && d <= rest[k].dir ensures HasItem(items, names, rest[k].dir, rest[k].name) {
      assert log[k] == rest[k];
    }
  }

  /** The item of a last, unrepeated delivery can be taken away together with the delivery. */
  lemma BelowWithoutLast(items: Items, names: Names, log: seq<Delivery>, d: seq<string>) returns (t: nat)
    requires log != [] && StoredBelow(items, names, log, d) && DistinctItems(items, names)
    requires d <= log[|log| - 1].dir && !Occurs(log[..|log| - 1], log[|log| - 1].dir, log[|log| - 1].name)
    ensures t in ItemsBelow(items, names, d) && DataOf(items[t]) == log[|log| - 1].data
    ensures StoredBelow(items - {t}, names, log[..|log| - 1], d) && DistinctItems(items - {t}, names)
    ensures ItemsBelow(items - {t}, names, d) == ItemsBelow(items, names, d) - {t}
  {
    var x := log[|log| - 1];
    var rest := log[..|log| - 1];
    assert HasItem(items, names, x.dir, x.name);
    t :| t in items && items[t].node in names && names[items[t].node] == x.dir && items[t].name == x.name;
    var items' := items - {t};
    forall u | u in items' && items'[u].node in names && d <= names[items'[u].node]
      ensures LastData(rest, names[items'[u].node], items'[u].name) == Some(DataOf(items'[u]))
    {
      assert ShareChain(names, items[u].node, items[t].node) && items[u].name == items[t].name ==> ShareSlot(items, u, t);
    }
    forall k | 0 <= k < |rest| && d <= rest[k].dir ensures HasItem(items', names, rest[k].dir, rest[k].name) {
      assert log[k] == rest[k];
      assert HasItem(items, names, log[k].dir, log[k].name);
      var u :| u in items && items[u].node in names && names[items[u].node] == log[k].dir && items[u].name == log[k].name;
      assert u in items';
    }
    forall u, v | ShareSlot(items', u, v) ensures u == v {
      assert ShareSlot(items, u, v);
    }
  }

  /** When no key at or below d was delivered twice, d's byte counter is the summed size of the items in its subtree. */
  lemma {:induction false} SizeIsExact(items: Items, names: Names, log: seq<Delivery>, d: seq<string>)
    requires StoredBelow(items, names, log, d) && DistinctItems(items, names) && DistinctBelow(log, d)
    ensures TotalSize(items, ItemsBelow(items, names, d)) == TallySize(log, d)
    decreases |log|
  {
    if log == [] {
      assert forall dir, name {:trigger LastData(log, dir, name)} :: LastData(log, dir, name) == None;
      assert ItemsBelow(items, names, d) == {};
    } else {
      var x := log[|log| - 1];
      DistinctLast(log, d);
      if d <= x.dir {
        var t := BelowWithoutLast(items, names, log, d);
        SizeIsExact(items - {t}, names, log[..|log| - 1], d);
        var below := ItemsBelow(items, names, d);
        TotalSizeFrame(items, items - {t}, below - {t});
        TotalSizeRemove(items, below, t);
      } else {
        BelowElsewhere(items, names, log, d);
        SizeIsExact(items, names, log[..|log| - 1], d);
      }
    }
  }

  lemma StoredIsBelow(items: Items, names: Names, log: seq<Delivery>, d: seq<string>)
    requires Stored(items, names, log)
    ensures StoredBelow(items, names, log, d)
  {
  }
}

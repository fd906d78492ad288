/** Scanning the schemas of a relational source. */
module SchemaScans {
  import opened Options
  import opened MetadataForest
  import opened NodeNames
  import opened NodePlacement
  import opened Deliveries
  import opened ScanSession

  datatype TableInfo = TableInfo(name: string, rowCount: int, sizeBytes: int)

  /** What a relational source answers: a table or column query for a name that is not in the map fails. */
  datatype DatabaseSource = DatabaseSource(schemas: seq<string>, tables: map<string, seq<TableInfo>>, fields: map<(string, string), nat>,
                                           failure: string)

  // ---- What a schema asks for ---------------------------------------------------------

  function TableData(schemaFullName: string, t: TableInfo): ItemData {
    ItemData(if schemaFullName == "" then t.name else schemaFullName + "." + t.name, Some(t.rowCount), Some(t.sizeBytes), None, map[])
  }

  function TableDelivery(schema: string, t: TableInfo): Delivery {
    Delivery([schema], t.name, TableData(schema, t))
  }

  /** The tables whose columns can be read, in the order of the listing. */
  function ReadableTables(source: DatabaseSource, schema: string, tables: seq<TableInfo>): seq<Delivery> {
    if tables == [] then []
    else
      var last := tables[|tables| - 1];
      ReadableTables(source, schema, tables[..|tables| - 1])
      + (if (schema, last.name) in source.fields then [TableDelivery(schema, last)] else [])
  }

  function FieldsRead(source: DatabaseSource, schema: string, tables: seq<TableInfo>): nat {
    if tables == [] then 0
    else
      var last := tables[|tables| - 1];
      FieldsRead(source, schema, tables[..|tables| - 1])
      + (if (schema, last.name) in source.fields then source.fields[(schema, last.name)] else 0)
  }

  function BytesOf(log: seq<Delivery>): int {
    if log == [] then 0 else BytesOf(log[..|log| - 1]) + DataSize(log[|log| - 1].data)
  }

  lemma BytesSnoc(log: seq<Delivery>, x: Delivery)
    ensures BytesOf(log + [x]) == BytesOf(log) + DataSize(x.data)
  {
    assert (log + [x])[..|log|] == log;
  }

  lemma OneMoreTable(source: DatabaseSource, schema: string, tables: seq<TableInfo>, k: nat)
    requires k < |tables|
    ensures ReadableTables(source, schema, tables[..k + 1])
            == ReadableTables(source, schema, tables[..k]) + (if (schema, tables[k].name) in source.fields
                then [TableDelivery(schema, tables[k])] else [])
    ensures FieldsRead(source, schema, tables[..k + 1])
            == FieldsRead(source, schema, tables[..k]) + (if (schema, tables[k].name) in source.fields
                then source.fields[(schema, tables[k].name)] else 0)
  {
    assert tables[..k + 1][..k] == tables[..k];
  }

  // ---- The state of a schema scan -------------------------------------------------------

  /** Row n is the schema's; everything under other rows is as before. */
  ghost predicate IsSchemaRow(n: Node, metaRes: MetaResource, schema: string) {
    && n.parent == None && n.kind == SchemaNode && n.tenant == metaRes.tenant && n.res == metaRes.id && n.name == schema
    && n.fullName == schema && n.depth == 1 && !Stranded(n)
  }

  ghost predicate OnlyRowChanged(nodes0: Nodes, nodes: Nodes, id: nat) {
    && id in nodes && nodes == nodes0[id := nodes[id]]
    && (id in nodes0 ==> SameAddress(nodes0[id], nodes[id]))
  }

  ghost predicate OnlyItemsOf(items0: Items, items: Items, id: nat) {
    && (forall t {:trigger items0[t]} :: t in items0 && items0[t].node != id ==> t in items && items[t] == items0[t])
    && (forall t {:trigger items[t]} :: t in items && items[t].node != id ==> t in items0 && items[t] == items0[t])
  }

  /** The items of row id are what `log` delivered. */
  ghost predicate HoldsTables(items: Items, id: nat, schema: string, log: seq<Delivery>) {
    Stored(items, map[id := [schema]], log) && forall x :: x in log ==> x.dir == [schema]
  }

  lemma NoTables(items: Items, id: nat, schema: string)
    ensures HoldsTables(ItemsOutside(items, {id}), id, schema, [])
    ensures OnlyItemsOf(items, ItemsOutside(items, {id}), id)
  {
  }

  /** The upsert of one more table. */
  lemma TableStored(nodes: Nodes, items0: Items, items: Items, items': Items, t: nat, metaRes: MetaResource, n: Node, schema: string,
                    log: seq<Delivery>, info: TableInfo)
    requires Forest(nodes, items) && Current(nodes, n) && IsSchemaRow(n, metaRes, schema)
    requires HoldsTables(items, n.id, schema, log) && OnlyItemsOf(items0, items, n.id)
    requires IsUpsertedItem(items, items', t, metaRes, n.id, TableItem, info.name, TableData(schema, info))
    ensures Forest(nodes, items') && HoldsTables(items', n.id, schema, log + [TableDelivery(schema, info)]) && OnlyItemsOf(items0, items', n.id)
  {
    var names: Names := map[n.id := [schema]];
    UpsertedItemKeepsForest(nodes, items, items', t, metaRes, n.id, TableItem, info.name, TableData(schema, info));
    assert DistinctChains(names);
    DeliveryStored(nodes, items, items', names, log, t, n.id, info.name, TableData(schema, info));
  }

  lemma SchemaSlotFree(nodes: Nodes, items: Items, metaRes: MetaResource, n: Node, schema: string, name: string)
    requires Forest(nodes, items) && Current(nodes, n) && IsSchemaRow(n, metaRes, schema)
    ensures SlotFree(nodes, items, metaRes, n.id, TableItem, name)
  {
    PlacedSlotIsFree(nodes, items, metaRes, n.id, TableItem, name);
  }

  /** `composeNodeFullName` with a dot, below a schema row. */
  lemma TableFullName(n: Node, metaRes: MetaResource, schema: string, info: TableInfo)
    requires IsSchemaRow(n, metaRes, schema)
    ensures TableData(schema, info)
            == ItemData(ComposeNodeFullName(info.name, Some(n), "."), Some(info.rowCount), Some(info.sizeBytes), None, map[])
  {
  }

  /** Changing a row's state columns keeps the forest. */
  lemma StateKeepsForest(nodes: Nodes, items: Items, n: Node)
    requires Forest(nodes, items) && n.id in nodes && SameIdentity(nodes[n.id], n) && !Stranded(nodes[n.id])
    ensures Forest(nodes[n.id := n], items)
  {
    assert LinkedRow(nodes, n.id) && LabelledRow(nodes, n.id);
    RepairKeepsForest(nodes, items, n);
  }

  lemma SchemaUpserted(nodes: Nodes, items: Items, nodes': Nodes, n: Node, metaRes: MetaResource, schema: string)
    requires Forest(nodes, items) && IsUpserted(nodes, nodes', n, metaRes, None, SchemaNode, schema, "")
    ensures Forest(nodes', items) && InPlace(nodes, nodes', metaRes, n, schema)
  {
    UpsertedKeepsForest(nodes, items, nodes', n, metaRes, None, SchemaNode, schema, "");
  }

  lemma SchemaLost(nodes: Nodes, items: Items, nodes': Nodes, metaRes: MetaResource, schema: string)
    requires Forest(nodes, items)
    requires nodes' == nodes || LeftStranded(nodes, nodes', metaRes, None, SchemaNode, schema)
    ensures Forest(nodes', items)
    ensures forall i :: i in nodes ==> i in nodes' && nodes'[i] == nodes[i]
  {
    if nodes' != nodes {
      var n: Node :| nodes' == nodes[n.id := n] && Stranded(n) && n.depth == 1 && IsNewRow(nodes, n, metaRes, None, SchemaNode, schema);
      StrandedKeepsForest(nodes, items, n, metaRes, None, SchemaNode, schema, "");
    }
  }

  // ---- What a finished schema says ----------------------------------------------------------

  /** The row after a scan: counted and scanned, or reset to unscanned with nothing in it and the reason why. */
  ghost predicate IsSchemaOutcome(n: Node, items: Items, schema: string, log: seq<Delivery>, failure: Option<string>) {
    && HoldsTables(items, n.id, schema, log)
    && if failure.Some? then log == [] && n.status == Unscanned && n.itemCount == 0 && n.totalSize == 0 && n.errorMessage == failure.value
       else n.status == Scanned && n.itemCount == |log| && n.totalSize == BytesOf(log) && n.errorMessage == ""
  }

  lemma {:induction false} TallyOfOne(log: seq<Delivery>, schema: string)
    requires forall x :: x in log ==> x.dir == [schema]
    ensures TallyCount(log, [schema]) == |log| && TallySize(log, [schema]) == BytesOf(log)
  {
    if log != [] {
      assert log[|log| - 1] in log;
      TallyOfOne(log[..|log| - 1], schema);
    }
  }

  ghost function ItemsOf(items: Items, id: nat): set<nat> {
    set t | t in items && items[t].node == id
  }

  lemma BelowOneRow(items: Items, id: nat, schema: string)
    ensures ItemsBelow(items, map[id := [schema]], [schema]) == ItemsOf(items, id)
  {
  }

  lemma OneRowDistinct(nodes: Nodes, items: Items, id: nat, schema: string)
    requires ItemsPlaced(nodes, items)
    ensures DistinctItems(items, map[id := [schema]])
  {
  }

  /** A scanned schema counts at least its items, and exactly them if and only if no table name was persisted twice; then
      its bytes are theirs. */
  lemma SchemaCountExact(nodes: Nodes, items: Items, n: Node, schema: string, log: seq<Delivery>)
    requires ItemsPlaced(nodes, items) && IsSchemaOutcome(n, items, schema, log, None)
    ensures |ItemsOf(items, n.id)| <= n.itemCount
    ensures |ItemsOf(items, n.id)| == n.itemCount <==> DistinctBelow(log, [schema])
    ensures DistinctBelow(log, [schema]) ==> n.totalSize == TotalSize(items, ItemsOf(items, n.id))
  {
    hide ItemsPlaced, DistinctBelow, DistinctItems, Stored, KeysStored, StoredBelow, ItemsOf, ItemsBelow;
    var names: Names := map[n.id := [schema]];
    OneRowDistinct(nodes, items, n.id, schema);
    BelowOneRow(items, n.id, schema);
    TallyOfOne(log, schema);
    StoredKeys(items, names, log);
    CountIsExact(items, names, log, [schema]);
    if DistinctBelow(log, [schema]) {
      StoredIsBelow(items, names, log, [schema]);
      SizeIsExact(items, names, log, [schema]);
    }
  }

  // ---- Steps of the service ----------------------------------------------------------------------

  /** While the tables of row n are being persisted. */
  ghost predicate IsFilling(nodes: Nodes, items: Items, items0: Items, metaRes: MetaResource, n: Node, schema: string, log: seq<Delivery>) {
    && Forest(nodes, items) && Current(nodes, n) && IsSchemaRow(n, metaRes, schema)
    && HoldsTables(items, n.id, schema, log) && OnlyItemsOf(items0, items, n.id)
  }

  lemma TableFilled(nodes: Nodes, items: Items, items': Items, items0: Items, t: nat, metaRes: MetaResource, n: Node, schema: string,
                    log: seq<Delivery>, info: TableInfo)
    requires IsFilling(nodes, items, items0, metaRes, n, schema, log)
    requires IsUpsertedItem(items, items', t, metaRes, n.id, TableItem, info.name, TableData(schema, info))
    ensures IsFilling(nodes, items', items0, metaRes, n, schema, log + [TableDelivery(schema, info)])
  {
    TableStored(nodes, items0, items, items', t, metaRes, n, schema, log, info);
  }

  lemma FillingFacts(nodes: Nodes, items: Items, items0: Items, metaRes: MetaResource, n: Node, schema: string, log: seq<Delivery>, info: TableInfo)
    requires IsFilling(nodes, items, items0, metaRes, n, schema, log)
    ensures SlotFree(nodes, items, metaRes, n.id, TableItem, info.name)
    ensures TableData(schema, info)
            == ItemData(ComposeNodeFullName(info.name, Some(n), "."), Some(info.rowCount), Some(info.sizeBytes), None, map[])
    ensures DataSize(TableDelivery(schema, info).data) == info.sizeBytes
  {
    SchemaSlotFree(nodes, items, metaRes, n, schema, info.name);
    TableFullName(n, metaRes, schema, info);
  }

  /** The row of the service's copy n, alone among the rows, may differ from the start. */
  ghost predicate InPlace(nodes0: Nodes, nodes: Nodes, metaRes: MetaResource, n: Node, schema: string) {
    Current(nodes, n) && IsSchemaRow(n, metaRes, schema) && OnlyRowChanged(nodes0, nodes, n.id)
  }

  lemma InPlaceMeans(nodes0: Nodes, nodes: Nodes, metaRes: MetaResource, n: Node, schema: string)
    requires InPlace(nodes0, nodes, metaRes, n, schema)
    ensures n.id in nodes && (n.id in nodes0 ==> SameAddress(nodes0[n.id], nodes[n.id]))
    ensures forall i :: i in nodes0 && i != n.id ==> i in nodes && nodes[i] == nodes0[i]
    ensures nodes.Keys == nodes0.Keys + {n.id}
    ensures n.id in nodes0 ==> IsTopRow(nodes0[n.id], metaRes, schema)
  {
  }

  predicate IsTopRow(n: Node, metaRes: MetaResource, schema: string) {
    n.tenant == metaRes.tenant && n.res == metaRes.id && n.kind == SchemaNode && n.name == schema
  }

  /** The columns of `resetNodeState`. */
  lemma RowReset(nodes0: Nodes, nodes: Nodes, items: Items, metaRes: MetaResource, n: Node, schema: string, status: ScanStatus)
    requires Forest(nodes, items) && InPlace(nodes0, nodes, metaRes, n, schema)
    ensures var nodes' := nodes[n.id := nodes[n.id].(status := status, errorMessage := "")];
            Forest(nodes', items) && InPlace(nodes0, nodes', metaRes, n, schema)
  {
    StateKeepsForest(nodes, items, nodes[n.id].(status := status, errorMessage := ""));
  }

  /** The row is emptied. */
  lemma StartFilling(nodes0: Nodes, nodes: Nodes, items: Items, metaRes: MetaResource, n: Node, schema: string)
    requires Forest(nodes, items) && InPlace(nodes0, nodes, metaRes, n, schema)
    ensures IsFilling(nodes, ItemsOutside(items, {n.id}), items, metaRes, n, schema, [])
  {
    FewerItemsKeepForest(nodes, items, {n.id});
    NoTables(items, n.id, schema);
  }

  ghost predicate IsScannedSchema(nodes: Nodes, items: Items, metaRes: MetaResource, schema: string, id: nat, log: seq<Delivery>,
                                  failure: Option<string>)
  {
    id in nodes && IsSchemaRow(nodes[id], metaRes, schema) && IsSchemaOutcome(nodes[id], items, schema, log, failure)
  }

  /** The columns of `finalizeNodeState`. */
  lemma RowFinalized(nodes0: Nodes, nodes: Nodes, items: Items, items0: Items, metaRes: MetaResource, n: Node, schema: string, log: seq<Delivery>,
                     failure: Option<string>, status: ScanStatus, itemCount: int, totalSize: int, errorMessage: string)
    requires IsFilling(nodes, items, items0, metaRes, n, schema, log) && InPlace(nodes0, nodes, metaRes, n, schema)
    requires if failure.Some? then log == [] && status == Unscanned && itemCount == 0 && totalSize == 0 && errorMessage == failure.value
             else status == Scanned && itemCount == |log| && totalSize == BytesOf(log) && errorMessage == ""
    ensures Forest(nodes, items) && OnlyItemsOf(items0, items, n.id)
    ensures var nodes' := nodes[n.id := nodes[n.id].(status := status, itemCount := itemCount, totalSize := totalSize, errorMessage := errorMessage)];
            && Forest(nodes', items) && InPlace(nodes0, nodes', metaRes, n, schema)
            && IsScannedSchema(nodes', items, metaRes, schema, n.id, log, failure)
  {
    StateKeepsForest(nodes, items, nodes[n.id].(status := status, itemCount := itemCount, totalSize := totalSize, errorMessage := errorMessage));
  }

  lemma NoTablesYet(source: DatabaseSource, schema: string, tables: seq<TableInfo>)
    ensures ReadableTables(source, schema, tables[..0]) == [] && FieldsRead(source, schema, tables[..0]) == 0 && BytesOf([]) == 0
  {
  }

  lemma AllItemsKept(items: Items, id: nat)
    ensures OnlyItemsOf(items, items, id)
  {
  }

  lemma EmptiedItems(items: Items, id: nat)
    ensures OnlyItemsOf(items, ItemsOutside(items, {id}), id)
  {
  }
}

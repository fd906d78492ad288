/** What one automatic scan of a resource does, from any tables: what it takes on, what it leaves alone, and what it reports. */
module AutoOutcomes {
  import opened Options
  import opened GoStrings
  import opened ObjectKeys
  import opened Sequences
  import opened MetadataForest
  import opened NodeNames
  import opened NodePlacement
  import opened Deliveries
  import opened ScanSession
  import opened ScanSteps
  import opened ScanBuckets
  import opened ScanRuns
  import opened BucketScans
  import opened BucketRoundTrip
  import opened ScanOutcomes
  import opened SchemaScans
  import opened AutoScans
  import opened WholeBucketRun
  import Scanner = ObjectStorageScanner

  // ---- What is left alone ---------------------------------------------------------------

  /** Every row and every item that was there is there, as it was. */
  ghost predicate Kept(nodes0: Nodes, items0: Items, nodes: Nodes, items: Items) {
    && (forall i {:trigger nodes[i]} {:trigger i in nodes0} :: i in nodes0 ==> i in nodes && nodes[i] == nodes0[i])
    && (forall t {:trigger items[t]} {:trigger t in items0} :: t in items0 ==> t in items && items[t] == items0[t])
  }

  /** Besides, no row that was there has got a new child or a new item. */
  ghost predicate Grown(nodes0: Nodes, items0: Items, nodes: Nodes, items: Items) {
    && Kept(nodes0, items0, nodes, items)
    && (forall i :: i in nodes && i !in nodes0 && nodes[i].parent.Some? ==> nodes[i].parent.value !in nodes0)
    && (forall t :: t in items && t !in items0 ==> items[t].node !in nodes0)
  }

  lemma NothingGrown(nodes: Nodes, items: Items)
    ensures Grown(nodes, items, nodes, items)
  {
  }

  lemma KeptTwice(nodes0: Nodes, items0: Items, nodes1: Nodes, items1: Items, nodes2: Nodes, items2: Items)
    requires Kept(nodes0, items0, nodes1, items1) && Kept(nodes1, items1, nodes2, items2)
    ensures Kept(nodes0, items0, nodes2, items2)
  {
  }

  lemma GrownTwice(nodes0: Nodes, items0: Items, nodes1: Nodes, items1: Items, nodes2: Nodes, items2: Items)
    requires Grown(nodes0, items0, nodes1, items1) && Grown(nodes1, items1, nodes2, items2)
    ensures Grown(nodes0, items0, nodes2, items2)
  {
    KeptTwice(nodes0, items0, nodes1, items1, nodes2, items2);
    forall i | i in nodes2 && i !in nodes0 && nodes2[i].parent.Some? ensures nodes2[i].parent.value !in nodes0 {
      assert i in nodes1 ==> nodes2[i] == nodes1[i];
    }
    forall t | t in items2 && t !in items0 ensures items2[t].node !in nodes0 {
      assert t in items1 ==> items2[t] == items1[t];
    }
  }

  lemma KeptRows(nodes0: Nodes, items0: Items, nodes: Nodes, items: Items, metaRes: MetaResource, kind: NodeKind, name: string)
    requires Kept(nodes0, items0, nodes, items) && HasRow(nodes0, metaRes, kind, name)
    ensures HasRow(nodes, metaRes, kind, name)
  {
    var i :| i in nodes0 && IsNamedRow(nodes0[i], metaRes, kind, name);
    assert nodes[i] == nodes0[i];
  }

  // ---- What is taken on -------------------------------------------------------------------

  /** The listed names without a row, each once, in the order of the listing. */
  ghost function NewNames(nodes: Nodes, metaRes: MetaResource, kind: NodeKind, names: seq<string>): seq<string> {
    if names == [] then []
    else
      var front := NewNames(nodes, metaRes, kind, names[..|names| - 1]);
      if HasRow(nodes, metaRes, kind, names[|names| - 1]) || names[|names| - 1] in front then front else front + [names[|names| - 1]]
  }

  lemma {:induction false} NewNamesMember(nodes: Nodes, metaRes: MetaResource, kind: NodeKind, names: seq<string>, x: string)
    ensures x in NewNames(nodes, metaRes, kind, names) <==> x in names && !HasRow(nodes, metaRes, kind, x)
  {
    hide HasRow;
    if names != [] {
      NewNamesMember(nodes, metaRes, kind, names[..|names| - 1], x);
      NewNamesMember(nodes, metaRes, kind, names[..|names| - 1], names[|names| - 1]);
      assert names == names[..|names| - 1] + [names[|names| - 1]];
    }
  }

  lemma OneMoreName(nodes: Nodes, metaRes: MetaResource, kind: NodeKind, names: seq<string>, k: nat)
    requires k < |names|
    ensures var before, after := NewNames(nodes, metaRes, kind, names[..k]), NewNames(nodes, metaRes, kind, names[..k + 1]);
            after == if HasRow(nodes, metaRes, kind, names[k]) || names[k] in before then before else before + [names[k]]
  {
    hide HasRow;
    assert names[..k + 1][..k] == names[..k];
  }

  // ---- Schemas ------------------------------------------------------------------------------

  /** How many of these schemas the source can list, and how many tables and fields it can read in them. */
  function SchemasRead(source: DatabaseSource, names: seq<string>): nat {
    if names == [] then 0
    else SchemasRead(source, names[..|names| - 1]) + (if names[|names| - 1] in source.tables then 1 else 0)
  }

  function TablesRead(source: DatabaseSource, names: seq<string>): nat {
    if names == [] then 0 else TablesRead(source, names[..|names| - 1]) + |TablesOf(source, names[|names| - 1])|
  }

  function FieldsOfAll(source: DatabaseSource, names: seq<string>): nat {
    if names == [] then 0 else FieldsOfAll(source, names[..|names| - 1]) + FieldsOf(source, names[|names| - 1])
  }

  function TablesOf(source: DatabaseSource, schema: string): seq<Delivery> {
    if schema in source.tables then ReadableTables(source, schema, source.tables[schema]) else []
  }

  function FieldsOf(source: DatabaseSource, schema: string): nat {
    if schema in source.tables then FieldsRead(source, schema, source.tables[schema]) else 0
  }

  function FailureOf(source: DatabaseSource, schema: string): Option<string> {
    if schema in source.tables then None else Some(source.failure)
  }

  lemma TotalsSnoc(source: DatabaseSource, names: seq<string>, x: string)
    ensures SchemasRead(source, names + [x]) == SchemasRead(source, names) + (if x in source.tables then 1 else 0)
    ensures TablesRead(source, names + [x]) == TablesRead(source, names) + |TablesOf(source, x)|
    ensures FieldsOfAll(source, names + [x]) == FieldsOfAll(source, names) + FieldsOf(source, x)
  {
    hide TablesOf, FieldsOf;
    assert (names + [x])[..|names|] == names;
  }

  /** The schema has a row that was not there before, scanned with its readable tables, or unscanned with the source's failure. */
  ghost predicate SchemaTaken(nodes0: Nodes, nodes: Nodes, items: Items, metaRes: MetaResource, source: DatabaseSource, x: string) {
    exists id {:trigger nodes[id]} ::
      id !in nodes0 && id in nodes && IsScannedSchema(nodes, items, metaRes, x, id, TablesOf(source, x), FailureOf(source, x))
  }

  /** All of these schemas that had no row have been taken on, and nothing else has happened. */
  ghost predicate SchemasTaken(nodes0: Nodes, items0: Items, nodes: Nodes, items: Items, metaRes: MetaResource, source: DatabaseSource,
                               names: seq<string>) {
    && Grown(nodes0, items0, nodes, items)
    && (forall x :: x in NewNames(nodes0, metaRes, SchemaNode, names) ==> SchemaTaken(nodes0, nodes, items, metaRes, source, x))
    && (forall i :: i in nodes && i !in nodes0 ==>
          IsSchemaRow(nodes[i], metaRes, nodes[i].name) && nodes[i].name in NewNames(nodes0, metaRes, SchemaNode, names))
  }

  /** The step that scans schema x into row id. */
  ghost predicate SchemaStep(nodes: Nodes, items: Items, nodes': Nodes, items': Items, metaRes: MetaResource, source: DatabaseSource,
                             x: string, id: nat) {
    && id !in nodes && id in nodes' && nodes' == nodes[id := nodes'[id]] && OnlyItemsOf(items, items', id)
    && IsScannedSchema(nodes', items', metaRes, x, id, TablesOf(source, x), FailureOf(source, x))
  }

  lemma NoSchemasYet(nodes: Nodes, items: Items, metaRes: MetaResource, source: DatabaseSource, names: seq<string>)
    ensures SchemasTaken(nodes, items, nodes, items, metaRes, source, names[..0])
    ensures NewNames(nodes, metaRes, SchemaNode, names[..0]) == []
    ensures SchemasRead(source, []) == TablesRead(source, []) == FieldsOfAll(source, []) == 0
  {
    NothingGrown(nodes, items);
  }

  /** A schema with a row is passed over: it had one at the start, or its name has come up before. */
  lemma SchemaPassed(nodes0: Nodes, items0: Items, nodes: Nodes, items: Items, metaRes: MetaResource, source: DatabaseSource,
                     names: seq<string>, k: nat)
    requires k < |names| && SchemasTaken(nodes0, items0, nodes, items, metaRes, source, names[..k])
    requires HasRow(nodes, metaRes, SchemaNode, names[k])
    ensures NewNames(nodes0, metaRes, SchemaNode, names[..k + 1]) == NewNames(nodes0, metaRes, SchemaNode, names[..k])
    ensures SchemasTaken(nodes0, items0, nodes, items, metaRes, source, names[..k + 1])
  {
    hide SchemaTaken, NewNames, Grown;
    OneMoreName(nodes0, metaRes, SchemaNode, names, k);
    var i :| i in nodes && IsNamedRow(nodes[i], metaRes, SchemaNode, names[k]);
    if i in nodes0 {
      StartRow(nodes0, items0, nodes, items, i);
      assert IsNamedRow(nodes0[i], metaRes, SchemaNode, names[k]);
    }
  }

  lemma StartRow(nodes0: Nodes, items0: Items, nodes: Nodes, items: Items, i: nat)
    requires Grown(nodes0, items0, nodes, items) && i in nodes0
    ensures i in nodes && nodes[i] == nodes0[i]
  {
  }

  lemma StepGrows(nodes: Nodes, items: Items, nodes': Nodes, items': Items, metaRes: MetaResource, source: DatabaseSource, x: string, id: nat)
    requires ItemsPlaced(nodes, items) && SchemaStep(nodes, items, nodes', items', metaRes, source, x, id)
    ensures Grown(nodes, items, nodes', items')
  {
    hide IsSchemaOutcome, ReadableTables, UniqueSlots;
    forall t | t in items ensures t in items' && items'[t] == items[t] {
      assert ItemRow(nodes, items, t);
    }
    forall i | i in nodes ensures i in nodes' && nodes'[i] == nodes[i] {
    }
  }

  /** The items of other rows do not matter to a schema. */
  lemma HoldsElsewhere(items: Items, items': Items, id: nat, other: nat, schema: string, log: seq<Delivery>)
    requires HoldsTables(items, id, schema, log) && OnlyItemsOf(items, items', other) && id != other
    ensures HoldsTables(items', id, schema, log)
  {
    var names: Names := map[id := [schema]];
    forall k | 0 <= k < |log| ensures HasItem(items', names, log[k].dir, log[k].name) {
      assert HasItem(items, names, log[k].dir, log[k].name);
      var t :| t in items && items[t].node in names && names[items[t].node] == log[k].dir && items[t].name == log[k].name;
      assert items'[t] == items[t];
    }
  }

  lemma TakenStays(nodes0: Nodes, nodes: Nodes, items: Items, nodes': Nodes, items': Items, metaRes: MetaResource, source: DatabaseSource,
                   x: string, y: string, id: nat)
    requires Linked(nodes)
    requires SchemaTaken(nodes0, nodes, items, metaRes, source, y) && SchemaStep(nodes, items, nodes', items', metaRes, source, x, id)
    ensures SchemaTaken(nodes0, nodes', items', metaRes, source, y)
  {
    hide HoldsTables, OnlyItemsOf, TablesOf, FailureOf, IsSchemaRow;
    var i :| i !in nodes0 && i in nodes && IsScannedSchema(nodes, items, metaRes, y, i, TablesOf(source, y), FailureOf(source, y));
    assert nodes'[i] == nodes[i];
    assert LinkedRow(nodes, i);
    HoldsElsewhere(items, items', nodes[i].id, id, y, TablesOf(source, y));
  }

  lemma StepHasRow(nodes: Nodes, items: Items, nodes': Nodes, items': Items, metaRes: MetaResource, source: DatabaseSource, x: string, id: nat)
    requires SchemaStep(nodes, items, nodes', items', metaRes, source, x, id)
    ensures nodes'.Keys == nodes.Keys + {id} && IsSchemaRow(nodes'[id], metaRes, x)
  {
    hide IsSchemaOutcome, OnlyItemsOf, TablesOf, FailureOf, IsSchemaRow;
  }

  /** A schema without a row is taken on. */
  lemma SchemaAdded(nodes0: Nodes, items0: Items, nodes: Nodes, items: Items, nodes': Nodes, items': Items, metaRes: MetaResource,
                    source: DatabaseSource, names: seq<string>, k: nat, id: nat)
    requires k < |names| && Forest(nodes, items) && SchemasTaken(nodes0, items0, nodes, items, metaRes, source, names[..k])
    requires !HasRow(nodes, metaRes, SchemaNode, names[k])
    requires SchemaStep(nodes, items, nodes', items', metaRes, source, names[k], id)
    ensures NewNames(nodes0, metaRes, SchemaNode, names[..k + 1]) == NewNames(nodes0, metaRes, SchemaNode, names[..k]) + [names[k]]
    ensures SchemasTaken(nodes0, items0, nodes', items', metaRes, source, names[..k + 1])
  {
    hide SchemaTaken, NewNames, Grown, Kept, SchemaStep, HasRow, Labelled, UniqueAddresses, ItemsPlaced, IsSchemaRow;
    var before := NewNames(nodes0, metaRes, SchemaNode, names[..k]);
    OneMoreName(nodes0, metaRes, SchemaNode, names, k);
    StepGrows(nodes, items, nodes', items', metaRes, source, names[k], id);
    GrownTwice(nodes0, items0, nodes, items, nodes', items');
    StepHasRow(nodes, items, nodes', items', metaRes, source, names[k], id);
    NotNamedBefore(nodes0, items0, nodes, items, metaRes, source, names, k);
    NewId(nodes0, items0, nodes, items, id, nodes', items', metaRes, source, names[k]);
    forall x | x in before + [names[k]] ensures SchemaTaken(nodes0, nodes', items', metaRes, source, x) {
      if x in before {
        TakenStays(nodes0, nodes, items, nodes', items', metaRes, source, names[k], x, id);
      }
    }
    forall i | i in nodes' && i !in nodes0
      ensures IsSchemaRow(nodes'[i], metaRes, nodes'[i].name) && nodes'[i].name in before + [names[k]]
    {
      if i == id {
        SchemaRowName(nodes'[i], metaRes, names[k]);
      } else {
        StepKeeps(nodes, items, nodes', items', metaRes, source, names[k], id, i);
      }
    }
  }

  lemma SchemaRowName(n: Node, metaRes: MetaResource, schema: string)
    requires IsSchemaRow(n, metaRes, schema)
    ensures n.name == schema && IsNamedRow(n, metaRes, SchemaNode, schema)
  {
  }

  lemma StepKeeps(nodes: Nodes, items: Items, nodes': Nodes, items': Items, metaRes: MetaResource, source: DatabaseSource, x: string, id: nat,
                  i: nat)
    requires SchemaStep(nodes, items, nodes', items', metaRes, source, x, id) && i in nodes' && i != id
    ensures i in nodes && nodes'[i] == nodes[i]
  {
    hide IsScannedSchema, OnlyItemsOf;
  }

  lemma NewId(nodes0: Nodes, items0: Items, nodes: Nodes, items: Items, id: nat, nodes': Nodes, items': Items, metaRes: MetaResource,
              source: DatabaseSource, x: string)
    requires Grown(nodes0, items0, nodes, items) && SchemaStep(nodes, items, nodes', items', metaRes, source, x, id)
    ensures id !in nodes0 && SchemaTaken(nodes0, nodes', items', metaRes, source, x)
  {
    hide IsScannedSchema, OnlyItemsOf, TablesOf, FailureOf;
    assert nodes'[id] == nodes'[id];
  }

  lemma NotNamedBefore(nodes0: Nodes, items0: Items, nodes: Nodes, items: Items, metaRes: MetaResource, source: DatabaseSource,
                       names: seq<string>, k: nat)
    requires k < |names| && SchemasTaken(nodes0, items0, nodes, items, metaRes, source, names[..k])
    requires !HasRow(nodes, metaRes, SchemaNode, names[k])
    ensures !HasRow(nodes0, metaRes, SchemaNode, names[k]) && names[k] !in NewNames(nodes0, metaRes, SchemaNode, names[..k])
  {
    hide NewNames, Grown, IsSchemaOutcome, TablesOf, FailureOf, IsSchemaRow;
    if HasRow(nodes0, metaRes, SchemaNode, names[k]) {
      GrownKeeps(nodes0, items0, nodes, items);
      KeptRows(nodes0, items0, nodes, items, metaRes, SchemaNode, names[k]);
    }
    if names[k] in NewNames(nodes0, metaRes, SchemaNode, names[..k]) {
      assert SchemaTaken(nodes0, nodes, items, metaRes, source, names[k]);
      var i :| i !in nodes0 && i in nodes
               && IsScannedSchema(nodes, items, metaRes, names[k], i, TablesOf(source, names[k]), FailureOf(source, names[k]));
      SchemaRowName(nodes[i], metaRes, names[k]);
    }
  }

  lemma GrownKeeps(nodes0: Nodes, items0: Items, nodes: Nodes, items: Items)
    requires Grown(nodes0, items0, nodes, items)
    ensures Kept(nodes0, items0, nodes, items)
  {
  }

  // ---- Turns of the loop over schemas ----------------------------------------------------------

  /** After k schemas of a source, if every write goes through. */
  ghost predicate SchemasSoFar(nodes0: Nodes, items0: Items, nodes: Nodes, items: Items, metaRes: MetaResource, source: DatabaseSource,
                               k: nat, schemas: nat, tables: nat, fields: nat, reliable: bool)
    requires k <= |source.schemas|
  {
    reliable ==>
      var taken := NewNames(nodes0, metaRes, SchemaNode, source.schemas[..k]);
      && SchemasTaken(nodes0, items0, nodes, items, metaRes, source, source.schemas[..k])
      && schemas == SchemasRead(source, taken) && tables == TablesRead(source, taken) && fields == FieldsOfAll(source, taken)
  }

  lemma StartSchemas(nodes: Nodes, items: Items, metaRes: MetaResource, source: DatabaseSource, reliable: bool)
    ensures SchemasSoFar(nodes, items, nodes, items, metaRes, source, 0, 0, 0, 0, reliable)
  {
    hide SchemasTaken, NewNames, SchemasRead, TablesRead, FieldsOfAll;
    NoSchemasYet(nodes, items, metaRes, source, source.schemas);
  }

  lemma SchemaSkipped(nodes0: Nodes, items0: Items, nodes: Nodes, items: Items, metaRes: MetaResource, source: DatabaseSource,
                      k: nat, schemas: nat, tables: nat, fields: nat, reliable: bool)
    requires k < |source.schemas|
    requires SchemasSoFar(nodes0, items0, nodes, items, metaRes, source, k, schemas, tables, fields, reliable)
    requires reliable ==> HasRow(nodes, metaRes, SchemaNode, source.schemas[k])
    ensures SchemasSoFar(nodes0, items0, nodes, items, metaRes, source, k + 1, schemas, tables, fields, reliable)
  {
    hide SchemasTaken, NewNames, SchemasRead, TablesRead, FieldsOfAll, HasRow;
    if reliable {
      SchemaPassed(nodes0, items0, nodes, items, metaRes, source, source.schemas, k);
    }
  }

  /** A scan of schema x, which had no row, leaves every row and item alone. */
  lemma SchemaScanKeeps(nodes: Nodes, items: Items, nodes': Nodes, items': Items, metaRes: MetaResource, x: string, id: nat)
    requires Forest(nodes, items) && !HasRow(nodes, metaRes, SchemaNode, x)
    requires forall i :: i in nodes && i != id ==> i in nodes' && nodes'[i] == nodes[i]
    requires id in nodes ==> IsTopRow(nodes[id], metaRes, x)
    requires OnlyItemsOf(items, items', id)
    ensures Kept(nodes, items, nodes', items') && id !in nodes
  {
    hide Linked, Labelled, UniqueAddresses, UniqueSlots;
    if id in nodes {
      TopRowIsRow(nodes, metaRes, x, id);
    }
    forall t | t in items ensures t in items' && items'[t] == items[t] {
      assert ItemRow(nodes, items, t);
    }
  }

  lemma TopRowIsRow(nodes: Nodes, metaRes: MetaResource, x: string, id: nat)
    requires id in nodes && IsTopRow(nodes[id], metaRes, x)
    ensures HasRow(nodes, metaRes, SchemaNode, x)
  {
    assert IsNamedRow(nodes[id], metaRes, SchemaNode, x);
  }

  lemma ScannedIs(source: DatabaseSource, x: string, ok: bool, log: seq<Delivery>, reliable: bool)
    requires reliable ==> (ok <==> x in source.tables)
    requires reliable && ok ==> log == ReadableTables(source, x, source.tables[x])
    ensures reliable ==> TablesOf(source, x) == (if ok then log else []) && FailureOf(source, x) == if ok then None else Some(source.failure)
    ensures reliable && ok ==> FieldsOf(source, x) == FieldsRead(source, x, source.tables[x])
  {
  }

  lemma SchemaTurn(nodes0: Nodes, items0: Items, nodes: Nodes, items: Items, nodes': Nodes, items': Items, metaRes: MetaResource,
                   source: DatabaseSource, k: nat, schemas: nat, tables: nat, fields: nat, id: nat, ok: bool, more: nat, moreTables: nat,
                   moreFields: nat, reliable: bool)
    requires k < |source.schemas| && Forest(nodes, items)
    requires SchemasSoFar(nodes0, items0, nodes, items, metaRes, source, k, schemas, tables, fields, reliable)
    requires !HasRow(nodes, metaRes, SchemaNode, source.schemas[k]) && id !in nodes
    requires OnlyItemsOf(items, items', id) && forall i :: i in nodes && i != id ==> i in nodes' && nodes'[i] == nodes[i]
    requires reliable ==>
               var x := source.schemas[k];
               && nodes'.Keys == nodes.Keys + {id} && (ok <==> x in source.tables)
               && IsScannedSchema(nodes', items', metaRes, x, id, TablesOf(source, x), FailureOf(source, x))
               && (ok ==> more == 1 && moreTables == |TablesOf(source, x)| && moreFields == FieldsOf(source, x))
    ensures SchemasSoFar(nodes0, items0, nodes', items', metaRes, source, k + 1, if ok then schemas + more else schemas,
                         if ok then tables + moreTables else tables, if ok then fields + moreFields else fields, reliable)
  {
    hide SchemasTaken, NewNames, SchemasRead, TablesRead, FieldsOfAll, HasRow, IsScannedSchema, OnlyItemsOf, Forest, ReadableTables, FieldsRead;
    if reliable {
      assert nodes' == nodes[id := nodes'[id]];
      SchemaAdded(nodes0, items0, nodes, items, nodes', items', metaRes, source, source.schemas, k, id);
      TotalsSnoc(source, NewNames(nodes0, metaRes, SchemaNode, source.schemas[..k]), source.schemas[k]);
    }
  }

  lemma SchemasAtEnd(nodes0: Nodes, items0: Items, nodes: Nodes, items: Items, metaRes: MetaResource, source: DatabaseSource,
                     schemas: nat, tables: nat, fields: nat, reliable: bool)
    requires SchemasSoFar(nodes0, items0, nodes, items, metaRes, source, |source.schemas|, schemas, tables, fields, reliable)
    requires Forest(nodes, items)
    ensures reliable ==>
              var taken := NewNames(nodes0, metaRes, SchemaNode, source.schemas);
              && SchemasTaken(nodes0, items0, nodes, items, metaRes, source, source.schemas)
              && schemas == SchemasRead(source, taken) && tables == TablesRead(source, taken) && fields == FieldsOfAll(source, taken)
    ensures reliable ==> forall k :: 0 <= k < |source.schemas| ==> HasRow(nodes, metaRes, SchemaNode, source.schemas[k])
    ensures reliable && (forall k :: 0 <= k < |source.schemas| ==> HasRow(nodes0, metaRes, SchemaNode, source.schemas[k])) ==>
              nodes == nodes0 && items == items0 && schemas == tables == fields == 0
  {
    hide SchemasTaken, NewNames, SchemasRead, TablesRead, FieldsOfAll, HasRow, Forest;
    assert source.schemas[..|source.schemas|] == source.schemas;
    if reliable {
      forall k | 0 <= k < |source.schemas| ensures HasRow(nodes, metaRes, SchemaNode, source.schemas[k]) {
        ListedHasRow(nodes0, items0, nodes, items, metaRes, source, k);
      }
      if forall k :: 0 <= k < |source.schemas| ==> HasRow(nodes0, metaRes, SchemaNode, source.schemas[k]) {
        NothingNew(nodes0, metaRes, source);
        NothingTaken(nodes0, items0, nodes, items, metaRes, source);
      }
    }
  }

  lemma ListedHasRow(nodes0: Nodes, items0: Items, nodes: Nodes, items: Items, metaRes: MetaResource, source: DatabaseSource, k: nat)
    requires k < |source.schemas| && SchemasTaken(nodes0, items0, nodes, items, metaRes, source, source.schemas)
    ensures HasRow(nodes, metaRes, SchemaNode, source.schemas[k])
  {
    hide NewNames, Kept, IsSchemaOutcome, TablesOf, FailureOf, IsSchemaRow;
    var x := source.schemas[k];
    NewNamesMember(nodes0, metaRes, SchemaNode, source.schemas, x);
    if HasRow(nodes0, metaRes, SchemaNode, x) {
      KeptRows(nodes0, items0, nodes, items, metaRes, SchemaNode, x);
    } else {
      assert SchemaTaken(nodes0, nodes, items, metaRes, source, x);
      var i :| i !in nodes0 && i in nodes && IsScannedSchema(nodes, items, metaRes, x, i, TablesOf(source, x), FailureOf(source, x));
      SchemaRowName(nodes[i], metaRes, x);
    }
  }

  lemma NothingNew(nodes0: Nodes, metaRes: MetaResource, source: DatabaseSource)
    requires forall k :: 0 <= k < |source.schemas| ==> HasRow(nodes0, metaRes, SchemaNode, source.schemas[k])
    ensures NewNames(nodes0, metaRes, SchemaNode, source.schemas) == []
  {
    hide HasRow, NewNames;
    var taken := NewNames(nodes0, metaRes, SchemaNode, source.schemas);
    if taken != [] {
      NewNamesMember(nodes0, metaRes, SchemaNode, source.schemas, taken[0]);
    }
  }

  lemma NothingTaken(nodes0: Nodes, items0: Items, nodes: Nodes, items: Items, metaRes: MetaResource, source: DatabaseSource)
    requires SchemasTaken(nodes0, items0, nodes, items, metaRes, source, source.schemas)
    requires NewNames(nodes0, metaRes, SchemaNode, source.schemas) == [] && Forest(nodes, items)
    ensures nodes == nodes0 && items == items0
    ensures SchemasRead(source, []) == TablesRead(source, []) == FieldsOfAll(source, []) == 0
  {
    hide SchemaTaken, IsSchemaRow, NewNames, Linked, Labelled, UniqueAddresses, UniqueSlots;
    assert forall i :: i in nodes ==> i in nodes0;
    forall t | t in items ensures t in items0 {
      assert ItemRow(nodes, items, t);
    }
  }

  // ---- A run over a bucket without a row ------------------------------------------------------------

  lemma TopDirectories(a: ScanAnswer, bucket: string, c: seq<string>)
    requires c in TreeOf([a]) && |c| == 1 && (BatchOf(a) != [] ==> BatchOf(a)[0].bucket == bucket)
    ensures c == [bucket]
  {
    hide BatchOf, DirectoriesOf, RowDirs;
    assert [a][..0] == [];
    assert TreeOf([]) == {};
    if c in DirectoriesOf(bucket, BatchOf(a)) {
      DirectoriesMember(bucket, BatchOf(a), c);
      var m :| m in BatchOf(a) && c in RowDirs(bucket, m);
      RowDirsLonger(bucket, m, c);
    }
  }

  lemma RowDirsLonger(bucket: string, m: ObjectMetadata, c: seq<string>)
    requires c in RowDirs(bucket, m)
    ensures |c| >= 2
  {
    hide MetaDirs;
    DirsUpToMeans(bucket, MetaDirs(m), |MetaDirs(m)|, c);
  }

  /** The rows of the buckets that a run over one bucket took on bear that bucket's name. */
  lemma RootsNamed(s: Scan, nodes: Nodes, items: Items, a: ScanAnswer, objects: nat, bucket: string, r: nat)
    requires IsOutcome(s, nodes, items) && IsExact(s, [a], BucketsOf([a]), objects)
    requires (BatchOf(a) != [] ==> BatchOf(a)[0].bucket == bucket) && r in s.roots
    ensures r in nodes && nodes[r].parent == None && IsNamedRow(nodes[r], s.metaRes, BucketNode, bucket)
  {
    hide Stored, RowsKept, RootsKept, ItemsKept, Labelled, UniqueAddresses, ItemsPlaced, Linked, BatchOf, TreeOf, FinishedRow, Labels;
    assert NamedRow(nodes, s.roots, s.names, r);
    assert s.names[r] in Chains(nodes, s.names);
    TopDirectories(a, bucket, s.names[r]);
  }

  lemma NoRootAtStart(s: Scan, nodes: Nodes, items: Items, a: ScanAnswer, objects: nat, bucket: string)
    requires IsOutcome(s, nodes, items) && IsExact(s, [a], BucketsOf([a]), objects)
    requires (BatchOf(a) != [] ==> BatchOf(a)[0].bucket == bucket) && !HasRow(s.nodes0, s.metaRes, BucketNode, bucket)
    ensures forall r :: r in s.roots ==> r !in s.nodes0
  {
    hide Stored, RowsKept, ItemsKept, Forest, BatchOf, TreeOf, FinishedRow, Labels, Chains, IsExact, IsNaming;
    forall r | r in s.roots ensures r !in s.nodes0 {
      RootsNamed(s, nodes, items, a, objects, bucket, r);
      if r in s.nodes0 {
        SameAddressRow(s.nodes0, nodes[r], r, s.metaRes, bucket);
      }
    }
  }

  lemma SameAddressRow(nodes0: Nodes, n: Node, r: nat, metaRes: MetaResource, bucket: string)
    requires r in nodes0 && SameAddress(nodes0[r], n) && IsNamedRow(n, metaRes, BucketNode, bucket)
    ensures HasRow(nodes0, metaRes, BucketNode, bucket)
  {
    assert IsNamedRow(nodes0[r], metaRes, BucketNode, bucket);
  }

  lemma StartRowsStay(s: Scan, nodes: Nodes, items: Items)
    requires IsOutcome(s, nodes, items) && forall r :: r in s.roots ==> r !in s.nodes0
    ensures Linked(s.nodes0) && forall i {:trigger i in s.nodes0} :: i in s.nodes0 ==> Bystander(s.nodes0, s.roots, i)
    ensures forall i {:trigger i in s.nodes0} :: i in s.nodes0 ==> i in nodes && nodes[i] == s.nodes0[i] && i !in s.names
  {
    hide Stored, RootsKept, Forest, FinishedRow, Labels, Chains, Rooted, ItemsKept, IsNaming;
    forall i: nat | i in s.nodes0 ensures Bystander(s.nodes0, s.roots, i) && i in nodes && nodes[i] == s.nodes0[i] && i !in s.names {
      assert Bystander(s.nodes0, s.roots, i);
      assert nodes[i] == s.nodes0[i];
    }
  }

  lemma StartItemsStay(s: Scan, nodes: Nodes, items: Items)
    requires IsOutcome(s, nodes, items) && ItemsPlaced(s.nodes0, s.items0) && forall r :: r in s.roots ==> r !in s.nodes0
    ensures forall t {:trigger t in s.items0} :: t in s.items0 ==> t in items && items[t] == s.items0[t]
    ensures forall t {:trigger t in items} :: t in items && t !in s.items0 ==> items[t].node in s.names
  {
    StartRowsStay(s, nodes, items);
    hide Stored, RootsKept, Forest, FinishedRow, Labels, Chains, Rooted, RowsKept, IsNaming, UniqueSlots, Bystander, ScanState.Consistent;
    forall t | t in s.items0 ensures t in items && items[t] == s.items0[t] {
      assert ItemRow(s.nodes0, s.items0, t);
    }
  }

  /** A run whose buckets are all new only adds to the tables. */
  lemma NewRootsGrow(s: Scan, nodes: Nodes, items: Items)
    requires IsOutcome(s, nodes, items) && Forest(s.nodes0, s.items0) && forall r :: r in s.roots ==> r !in s.nodes0
    ensures Grown(s.nodes0, s.items0, nodes, items)
  {
    hide *;
    StartForest(s);
    StartRowsStay(s, nodes, items);
    StartItemsStay(s, nodes, items);
    forall i | i in nodes && i !in s.nodes0 ensures nodes[i].parent.Some? ==> nodes[i].parent.value in s.names {
      NewRowNamed(s, nodes, items, i);
    }
    GrowsBy(s.nodes0, s.items0, nodes, items, s.names);
  }

  lemma StartForest(s: Scan)
    requires Forest(s.nodes0, s.items0)
    ensures ItemsPlaced(s.nodes0, s.items0)
  {
  }

  lemma GrowsBy(nodes0: Nodes, items0: Items, nodes: Nodes, items: Items, names: Names)
    requires forall i {:trigger i in nodes0} :: i in nodes0 ==> i in nodes && nodes[i] == nodes0[i] && i !in names
    requires forall t {:trigger t in items0} :: t in items0 ==> t in items && items[t] == items0[t]
    requires forall t {:trigger t in items} :: t in items && t !in items0 ==> items[t].node in names
    requires forall i :: i in nodes && i !in nodes0 ==> nodes[i].parent.Some? ==> nodes[i].parent.value in names
    ensures Grown(nodes0, items0, nodes, items)
  {
  }

  lemma NewRowNamed(s: Scan, nodes: Nodes, items: Items, i: nat)
    requires IsOutcome(s, nodes, items) && i in nodes && i !in s.nodes0
    ensures i in s.names && (nodes[i].parent.Some? ==> nodes[i].parent.value in s.names) && (nodes[i].parent.None? ==> i in s.roots)
  {
    hide Stored, RootsKept, Labelled, UniqueAddresses, ItemsPlaced, FinishedRow, Labels, Chains, Rooted, ItemsKept;
    assert i in s.names;
    assert NamedRow(nodes, s.roots, s.names, i);
  }

  // ---- What a bucket holds -----------------------------------------------------------------------------

  /** The keys that a scan counts as objects. */
  function ObjectCount(listed: seq<Scanner.S3Object>): nat {
    if listed == [] then 0
    else
      ObjectCount(listed[..|listed| - 1])
      + (if listed[|listed| - 1].key != "" && IsObjectKey(listed[|listed| - 1].key) then 1 else 0)
  }

  lemma CountedKey(bucket: string, o: Scanner.S3Object)
    ensures Scanner.Classify(bucket, o, "").Counted? <==> o.key != "" && IsObjectKey(o.key)
  {
    hide Split, HasReservedObjectSegment;
    var rel := TrimPrefix(o.key, "/");
    assert TrimPrefix(o.key, "") == o.key;
    if HasPrefix(o.key, "/") {
      assert o.key == "" + "/" + rel;
      ReservedJoin("", rel);
      NothingReserved();
    }
    if rel == "" && o.key != "" {
      assert o.key == "/";
    }
  }

  lemma NothingReserved()
    ensures !HasReservedObjectSegment("")
  {
    assert TrimSlashes("") == "";
  }

  lemma {:induction false} CountedIsObjectCount(bucket: string, listed: seq<Scanner.S3Object>)
    ensures |Scanner.CountedRows(Scanner.Entries(bucket, listed, ""))| == ObjectCount(listed)
  {
    hide Scanner.Classify, IsObjectKey;
    if listed != [] {
      var es := Scanner.Entries(bucket, listed, "");
      CountedIsObjectCount(bucket, listed[..|listed| - 1]);
      CountedKey(bucket, listed[|listed| - 1]);
      assert es[..|es| - 1] == Scanner.Entries(bucket, listed[..|listed| - 1], "");
    }
  }

  /** Whatever the keys, a scan of a whole bucket asks for one item for each object it counts. */
  lemma ObjectsDelivered(bucket: string, listed: seq<Scanner.S3Object>, metas: seq<ObjectMetadata>)
    requires Scanner.IsScan(bucket, "", Scanner.Entries(bucket, listed, ""), metas)
    ensures |DeliveriesOf(bucket, metas)| == ObjectCount(listed)
  {
    hide Scanner.CountedRows, Scanner.Entries, Scanner.DirPaths, Scanner.Survives, Scanner.IsScan;
    var es := Scanner.Entries(bucket, listed, "");
    var dirs, objects := ScanParts(bucket, es, metas);
    CountedAreObjects(bucket, listed);
    CountedIsObjectCount(bucket, listed);
    assert |multiset(objects)| == |multiset(Scanner.CountedRows(es))|;
    forall m | m in objects ensures m.nodeType.ObjectMeta? {
      PermutationMembers(Scanner.CountedRows(es), objects, m);
    }
    forall m | m in dirs ensures !m.nodeType.ObjectMeta? {
      assert m == Scanner.DirRow(bucket, "", Scanner.CountedRows(es), m.relativePath);
    }
    DeliveriesConcat(bucket, dirs, objects);
    NoDeliveries(bucket, dirs);
    AllDeliveries(bucket, objects);
  }

  /** What the run over a bucket reports: one bucket and its objects, unless it yields nothing. */
  lemma BucketReport(scanner: Scanner.S3Scanner, bucket: string, a: ScanAnswer)
    requires CleanSegment(bucket) && Scanner.IsScanAnswer(scanner, bucket, a) && !a.Panicked?
    ensures |BucketsOf([a])| == if YieldsNothing(scanner, bucket) then 0 else 1
    ensures |LogOf([a])| == if YieldsNothing(scanner, bucket) then 0 else ObjectCount(Scanner.BucketContents(scanner, bucket))
    ensures BatchOf(a) == [] <==> YieldsNothing(scanner, bucket)
    ensures BatchOf(a) != [] ==> BatchOf(a)[0].bucket == bucket
  {
    hide Scanner.IsScanAnswer, Scanner.IsScan, CleanSegment, BatchOf, DeliveriesOf, YieldsNothing, Scanner.Entries, ObjectCount,
      Scanner.BucketContents;
    assert [a][..0] == [];
    assert LogOf([]) == [] && BucketsOf([]) == {};
    if a.Metas? {
      AnswerNamesBucket(scanner, bucket, a);
    }
    BatchOfBucket(bucket, a);
    if BatchOf(a) == [] {
      OnceNothingAlwaysNothing(scanner, bucket, a);
    } else {
      NotNothing(scanner, bucket, a);
      ObjectsDelivered(bucket, Scanner.BucketContents(scanner, bucket), a.metas);
    }
  }

  lemma NotNothing(scanner: Scanner.S3Scanner, bucket: string, a: ScanAnswer)
    requires Scanner.IsScanAnswer(scanner, bucket, a) && BatchOf(a) != []
    ensures !YieldsNothing(scanner, bucket)
  {
    hide Scanner.IsScanAnswer, BatchOf;
  }

  // ---- Buckets ---------------------------------------------------------------------------------------------

  /** How many of these buckets yield a row, and how many objects those hold. */
  ghost function BucketsFiled(scanner: Scanner.S3Scanner, names: seq<string>): nat {
    if names == [] then 0
    else BucketsFiled(scanner, names[..|names| - 1]) + (if YieldsNothing(scanner, names[|names| - 1]) then 0 else 1)
  }

  ghost function ObjectsFiled(scanner: Scanner.S3Scanner, names: seq<string>): nat {
    if names == [] then 0 else ObjectsFiled(scanner, names[..|names| - 1]) + ObjectsIn(scanner, names[|names| - 1])
  }

  ghost function ObjectsIn(scanner: Scanner.S3Scanner, bucket: string): nat {
    if YieldsNothing(scanner, bucket) then 0 else ObjectCount(Scanner.BucketContents(scanner, bucket))
  }

  lemma FiledSnoc(scanner: Scanner.S3Scanner, names: seq<string>, x: string)
    ensures BucketsFiled(scanner, names + [x]) == BucketsFiled(scanner, names) + (if YieldsNothing(scanner, x) then 0 else 1)
    ensures ObjectsFiled(scanner, names + [x]) == ObjectsFiled(scanner, names) + ObjectsIn(scanner, x)
  {
    hide ObjectsIn, YieldsNothing;
    assert (names + [x])[..|names|] == names;
  }

  /** A completed exact run over bucket x left tables of which everything is still there. */
  ghost predicate LeftBy(s: Scan, nodes1: Nodes, items1: Items, a: ScanAnswer, objects: nat, nodes: Nodes, items: Items,
                         metaRes: MetaResource, scanner: Scanner.S3Scanner, x: string) {
    && s.metaRes == metaRes && Scanner.IsScanAnswer(scanner, x, a) && !a.Panicked?
    && IsOutcome(s, nodes1, items1) && IsExact(s, [a], BucketsOf([a]), objects) && Kept(nodes1, items1, nodes, items)
  }

  ghost predicate BucketTaken(nodes: Nodes, items: Items, metaRes: MetaResource, scanner: Scanner.S3Scanner, x: string) {
    exists s, nodes1, items1, a, objects :: LeftBy(s, nodes1, items1, a, objects, nodes, items, metaRes, scanner, x)
  }

  /** All of these buckets that had no row have been scanned, and nothing else has happened. */
  ghost predicate BucketsTaken(nodes0: Nodes, items0: Items, nodes: Nodes, items: Items, metaRes: MetaResource, scanner: Scanner.S3Scanner,
                               names: seq<string>) {
    && Grown(nodes0, items0, nodes, items)
    && (forall x :: x in NewNames(nodes0, metaRes, BucketNode, names) ==> BucketTaken(nodes, items, metaRes, scanner, x))
    && (forall i :: i in nodes && i !in nodes0 && nodes[i].parent.None? ==>
          IsNamedRow(nodes[i], metaRes, BucketNode, nodes[i].name) && nodes[i].name in NewNames(nodes0, metaRes, BucketNode, names))
  }

  lemma TakenKept(nodes: Nodes, items: Items, nodes': Nodes, items': Items, metaRes: MetaResource, scanner: Scanner.S3Scanner, x: string)
    requires BucketTaken(nodes, items, metaRes, scanner, x) && Kept(nodes, items, nodes', items')
    ensures BucketTaken(nodes', items', metaRes, scanner, x)
  {
    var s, nodes1, items1, a, objects :| LeftBy(s, nodes1, items1, a, objects, nodes, items, metaRes, scanner, x);
    StillLeft(s, nodes1, items1, a, objects, nodes, items, metaRes, scanner, x, nodes', items');
  }

  lemma StillLeft(s: Scan, nodes1: Nodes, items1: Items, a: ScanAnswer, objects: nat, nodes: Nodes, items: Items,
                  metaRes: MetaResource, scanner: Scanner.S3Scanner, x: string, nodes': Nodes, items': Items)
    requires LeftBy(s, nodes1, items1, a, objects, nodes, items, metaRes, scanner, x) && Kept(nodes, items, nodes', items')
    ensures LeftBy(s, nodes1, items1, a, objects, nodes', items', metaRes, scanner, x)
  {
    hide IsOutcome, IsExact, Scanner.IsScanAnswer, Kept, ScanState.Consistent;
    KeptTwice(nodes1, items1, nodes, items, nodes', items');
  }

  /** A bucket that was scanned and has no row yielded nothing. */
  lemma TakenInVain(nodes: Nodes, items: Items, metaRes: MetaResource, scanner: Scanner.S3Scanner, x: string)
    requires CleanSegment(x) && BucketTaken(nodes, items, metaRes, scanner, x) && !HasRow(nodes, metaRes, BucketNode, x)
    ensures YieldsNothing(scanner, x)
  {
    hide IsOutcome, IsExact, Scanner.IsScanAnswer, Kept, ScanState.Consistent, HasRow, CleanSegment, YieldsNothing, BatchOf;
    var s, nodes1, items1, a, objects :| LeftBy(s, nodes1, items1, a, objects, nodes, items, metaRes, scanner, x);
    BucketReport(scanner, x, a);
    if BatchOf(a) != [] {
      BucketHasRow(s, nodes1, items1, a, objects, x);
      KeptRows(nodes1, items1, nodes, items, metaRes, BucketNode, x);
    }
  }

  lemma NoBucketsYet(nodes: Nodes, items: Items, metaRes: MetaResource, scanner: Scanner.S3Scanner, names: seq<string>)
    ensures BucketsTaken(nodes, items, nodes, items, metaRes, scanner, names[..0])
    ensures NewNames(nodes, metaRes, BucketNode, names[..0]) == []
    ensures BucketsFiled(scanner, []) == ObjectsFiled(scanner, []) == 0
  {
    NothingGrown(nodes, items);
  }

  lemma BucketPassed(nodes0: Nodes, items0: Items, nodes: Nodes, items: Items, metaRes: MetaResource, scanner: Scanner.S3Scanner,
                     names: seq<string>, k: nat)
    requires k < |names| && Linked(nodes) && BucketsTaken(nodes0, items0, nodes, items, metaRes, scanner, names[..k])
    requires HasRow(nodes, metaRes, BucketNode, names[k])
    ensures NewNames(nodes0, metaRes, BucketNode, names[..k + 1]) == NewNames(nodes0, metaRes, BucketNode, names[..k])
    ensures BucketsTaken(nodes0, items0, nodes, items, metaRes, scanner, names[..k + 1])
  {
    hide BucketTaken, NewNames, Grown;
    OneMoreName(nodes0, metaRes, BucketNode, names, k);
    var i :| i in nodes && IsNamedRow(nodes[i], metaRes, BucketNode, names[k]);
    assert LinkedRow(nodes, i);
    if i in nodes0 {
      StartRow(nodes0, items0, nodes, items, i);
      assert IsNamedRow(nodes0[i], metaRes, BucketNode, names[k]);
    }
  }

  /** The run over a bucket without a row: it is taken on, or, if it has come up before, yields nothing again. */
  lemma BucketAdded(nodes0: Nodes, items0: Items, s: Scan, nodes: Nodes, items: Items, scanner: Scanner.S3Scanner, names: seq<string>,
                    k: nat, a: ScanAnswer, objects: nat)
    requires k < |names| && CleanSegment(names[k]) && Forest(s.nodes0, s.items0)
    requires BucketsTaken(nodes0, items0, s.nodes0, s.items0, s.metaRes, scanner, names[..k])
    requires !HasRow(s.nodes0, s.metaRes, BucketNode, names[k])
    requires Scanner.IsScanAnswer(scanner, names[k], a) && !a.Panicked?
    requires IsOutcome(s, nodes, items) && IsExact(s, [a], BucketsOf([a]), objects)
    ensures BucketsTaken(nodes0, items0, nodes, items, s.metaRes, scanner, names[..k + 1])
    ensures var taken := NewNames(nodes0, s.metaRes, BucketNode, names[..k]);
            if names[k] in taken then YieldsNothing(scanner, names[k]) && NewNames(nodes0, s.metaRes, BucketNode, names[..k + 1]) == taken
            else NewNames(nodes0, s.metaRes, BucketNode, names[..k + 1]) == taken + [names[k]]
  {
    hide BucketTaken, NewNames, Grown, IsOutcome, IsExact, Scanner.IsScanAnswer, HasRow, Forest, BatchOf, YieldsNothing, CleanSegment,
      ScanState.Consistent;
    var taken := NewNames(nodes0, s.metaRes, BucketNode, names[..k]);
    BucketReport(scanner, names[k], a);
    NoRootAtStart(s, nodes, items, a, objects, names[k]);
    NewRootsGrow(s, nodes, items);
    GrownTwice(nodes0, items0, s.nodes0, s.items0, nodes, items);
    GrownKeeps(s.nodes0, s.items0, nodes, items);
    GrownKeeps(nodes0, items0, s.nodes0, s.items0);
    OneMoreName(nodes0, s.metaRes, BucketNode, names, k);
    if HasRow(nodes0, s.metaRes, BucketNode, names[k]) {
      KeptRows(nodes0, items0, s.nodes0, s.items0, s.metaRes, BucketNode, names[k]);
    }
    if names[k] in taken {
      TakenInVain(s.nodes0, s.items0, s.metaRes, scanner, names[k]);
    }
    JustTaken(s, nodes, items, a, objects, scanner, names[k]);
    forall x | x in taken + [names[k]] ensures BucketTaken(nodes, items, s.metaRes, scanner, x) {
      if x in taken {
        TakenKept(s.nodes0, s.items0, nodes, items, s.metaRes, scanner, x);
      }
    }
    forall i | i in nodes && i !in nodes0 && nodes[i].parent.None?
      ensures IsNamedRow(nodes[i], s.metaRes, BucketNode, nodes[i].name) && nodes[i].name in taken + [names[k]]
    {
      NewTopRow(s, nodes, items, a, objects, names[k], i);
    }
  }

  lemma JustTaken(s: Scan, nodes: Nodes, items: Items, a: ScanAnswer, objects: nat, scanner: Scanner.S3Scanner, x: string)
    requires Scanner.IsScanAnswer(scanner, x, a) && !a.Panicked?
    requires IsOutcome(s, nodes, items) && IsExact(s, [a], BucketsOf([a]), objects)
    ensures BucketTaken(nodes, items, s.metaRes, scanner, x)
  {
    hide IsOutcome, IsExact, Scanner.IsScanAnswer, ScanState.Consistent;
    assert LeftBy(s, nodes, items, a, objects, nodes, items, s.metaRes, scanner, x);
  }

  /** A top-level row after the run was there before it or bears the bucket's name. */
  lemma NewTopRow(s: Scan, nodes: Nodes, items: Items, a: ScanAnswer, objects: nat, bucket: string, i: nat)
    requires IsOutcome(s, nodes, items) && IsExact(s, [a], BucketsOf([a]), objects) && (BatchOf(a) != [] ==> BatchOf(a)[0].bucket == bucket)
    requires Grown(s.nodes0, s.items0, nodes, items) && i in nodes && nodes[i].parent.None?
    ensures (i in s.nodes0 && nodes[i] == s.nodes0[i]) || IsNamedRow(nodes[i], s.metaRes, BucketNode, bucket)
  {
    hide IsOutcome, IsExact, BatchOf, ScanState.Consistent;
    if i !in s.nodes0 {
      NewRowNamed(s, nodes, items, i);
      RootsNamed(s, nodes, items, a, objects, bucket, i);
    }
  }

  // ---- Turns of the loop over buckets ------------------------------------------------------------------------

  /** After k buckets of the resource, if every write goes through and the names are clean. */
  ghost predicate BucketsSoFar(nodes0: Nodes, items0: Items, nodes: Nodes, items: Items, metaRes: MetaResource, scanner: Scanner.S3Scanner,
                               buckets: seq<string>, k: nat, totalBuckets: nat, totalObjects: nat, exact: bool)
    requires k <= |buckets|
  {
    exact ==>
      var taken := NewNames(nodes0, metaRes, BucketNode, buckets[..k]);
      && BucketsTaken(nodes0, items0, nodes, items, metaRes, scanner, buckets[..k])
      && totalBuckets == BucketsFiled(scanner, taken) && totalObjects == ObjectsFiled(scanner, taken)
  }

  lemma StartBuckets(nodes: Nodes, items: Items, metaRes: MetaResource, scanner: Scanner.S3Scanner, buckets: seq<string>, exact: bool)
    ensures BucketsSoFar(nodes, items, nodes, items, metaRes, scanner, buckets, 0, 0, 0, exact)
  {
    hide BucketsTaken, NewNames, BucketsFiled, ObjectsFiled;
    NoBucketsYet(nodes, items, metaRes, scanner, buckets);
  }

  lemma BucketSkipped(nodes0: Nodes, items0: Items, nodes: Nodes, items: Items, metaRes: MetaResource, scanner: Scanner.S3Scanner,
                      buckets: seq<string>, k: nat, totalBuckets: nat, totalObjects: nat, exact: bool)
    requires k < |buckets| && Forest(nodes, items) && (exact ==> HasRow(nodes, metaRes, BucketNode, buckets[k]))
    requires BucketsSoFar(nodes0, items0, nodes, items, metaRes, scanner, buckets, k, totalBuckets, totalObjects, exact)
    ensures BucketsSoFar(nodes0, items0, nodes, items, metaRes, scanner, buckets, k + 1, totalBuckets, totalObjects, exact)
  {
    hide BucketsTaken, NewNames, BucketsFiled, ObjectsFiled, HasRow, Linked, Labelled, UniqueAddresses, ItemsPlaced;
    if exact {
      BucketPassed(nodes0, items0, nodes, items, metaRes, scanner, buckets, k);
    }
  }

  /** What the run over the next bucket did, if every write goes through. */
  ghost predicate IsBucketTurn(s: Scan, nodes: Nodes, items: Items, scanner: Scanner.S3Scanner, bucket: string, a: ScanAnswer,
                               more: nat, objects: nat) {
    && CleanSegment(bucket) && Scanner.IsScanAnswer(scanner, bucket, a) && !a.Panicked?
    && IsOutcome(s, nodes, items) && IsExact(s, [a], BucketsOf([a]), objects) && more == |BucketsOf([a])|
  }

  lemma BucketTurn(nodes0: Nodes, items0: Items, s: Scan, nodes: Nodes, items: Items, scanner: Scanner.S3Scanner, buckets: seq<string>,
                   k: nat, totalBuckets: nat, totalObjects: nat, a: ScanAnswer, more: nat, objects: nat, exact: bool)
    requires k < |buckets| && Forest(s.nodes0, s.items0) && !HasRow(s.nodes0, s.metaRes, BucketNode, buckets[k])
    requires BucketsSoFar(nodes0, items0, s.nodes0, s.items0, s.metaRes, scanner, buckets, k, totalBuckets, totalObjects, exact)
    requires exact ==> IsBucketTurn(s, nodes, items, scanner, buckets[k], a, more, objects)
    ensures BucketsSoFar(nodes0, items0, nodes, items, s.metaRes, scanner, buckets, k + 1, totalBuckets + more, totalObjects + objects, exact)
  {
    hide BucketsTaken, NewNames, BucketsFiled, ObjectsFiled, HasRow, Forest, IsOutcome, Chains, Labels, LabelTable, TreeOf, Scanner.IsScanAnswer,
      CleanSegment, YieldsNothing, ScanState.Consistent, LogOf, BucketsOf, ObjectCount, Scanner.BucketContents;
    if exact {
      BucketAdded(nodes0, items0, s, nodes, items, scanner, buckets, k, a, objects);
      BucketReport(scanner, buckets[k], a);
      FiledSnoc(scanner, NewNames(nodes0, s.metaRes, BucketNode, buckets[..k]), buckets[k]);
    }
  }

  lemma BucketsAtEnd(nodes0: Nodes, items0: Items, nodes: Nodes, items: Items, metaRes: MetaResource, scanner: Scanner.S3Scanner,
                     buckets: seq<string>, totalBuckets: nat, totalObjects: nat, exact: bool)
    requires BucketsSoFar(nodes0, items0, nodes, items, metaRes, scanner, buckets, |buckets|, totalBuckets, totalObjects, exact)
    ensures exact ==>
              var taken := NewNames(nodes0, metaRes, BucketNode, buckets);
              && BucketsTaken(nodes0, items0, nodes, items, metaRes, scanner, buckets)
              && totalBuckets == BucketsFiled(scanner, taken) && totalObjects == ObjectsFiled(scanner, taken)
  {
    hide BucketsTaken, NewNames, BucketsFiled, ObjectsFiled;
    assert buckets[..|buckets|] == buckets;
  }

  lemma SoFarKept(nodes0: Nodes, items0: Items, nodes: Nodes, items: Items, metaRes: MetaResource, scanner: Scanner.S3Scanner,
                  buckets: seq<string>, k: nat, totalBuckets: nat, totalObjects: nat, exact: bool)
    requires k <= |buckets|
    requires BucketsSoFar(nodes0, items0, nodes, items, metaRes, scanner, buckets, k, totalBuckets, totalObjects, exact)
    ensures exact ==> Kept(nodes0, items0, nodes, items)
  {
    hide NewNames, BucketsFiled, ObjectsFiled, BucketTaken;
  }

  /** A run that the scanner's panic ends at its first path leaves the tables alone. */
  lemma PanicKeeps(s: Scan, nodes: Nodes, items: Items)
    requires IsInterrupted(s, nodes, items, []) && Forest(s.nodes0, s.items0)
    ensures Kept(s.nodes0, s.items0, nodes, items)
  {
    NoBucketAsked();
    NoRoots(s, nodes, items);
    ScanUntouched(s);
    forall i: nat | i in s.nodes0 ensures i in nodes && nodes[i] == s.nodes0[i] {
      assert Bystander(s.nodes0, s.roots, i);
    }
    forall t | t in s.items0 ensures t in items && items[t] == s.items0[t] {
      assert ItemRow(s.nodes0, s.items0, t);
      assert Bystander(s.nodes0, s.roots, s.items0[t].node);
    }
  }

  lemma NoBucketAsked()
    ensures BucketsOf([]) == {}
  {
  }

  lemma NoRoots(s: Scan, nodes: Nodes, items: Items)
    requires IsInterrupted(s, nodes, items, [])
    ensures s.roots == {} && nodes == s.nodes && items == s.items
  {
    hide Unfinished, Stored, ScanState.Consistent, BucketsOf;
    NoBucketAsked();
    if s.roots != {} {
      var r :| r in s.roots;
      RootAsked(s, nodes, items, [], r);
    }
  }

  lemma RootAsked(s: Scan, nodes: Nodes, items: Items, answers: seq<ScanAnswer>, r: nat)
    requires IsInterrupted(s, nodes, items, answers) && r in s.roots
    ensures BucketsOf(answers) != {}
  {
    hide Unfinished, Stored, ScanState.Consistent, BucketsOf;
    assert nodes[r].name in BucketsOf(answers);
  }

  lemma OnlyAnswer(answers: seq<ScanAnswer>)
    requires |answers| <= 1
    ensures Earlier(answers) == []
  {
  }

  lemma TurnMeans(s: Scan, nodes: Nodes, items: Items, scanner: Scanner.S3Scanner, bucket: string, a: ScanAnswer, more: nat, objects: nat)
    requires CleanSegment(bucket) && Scanner.IsScanAnswer(scanner, bucket, a) && !a.Panicked?
    requires IsOutcome(s, nodes, items) && IsExact(s, [a], BucketsOf([a]), objects) && more == |BucketsOf([a])|
    ensures IsBucketTurn(s, nodes, items, scanner, bucket, a, more, objects)
  {
  }

  /** The loop over buckets before bucket k: what it has done, if every write goes through and the names are clean; and that it has
      done nothing, if there was nothing to do. */
  ghost predicate IsAutoState(nodes0: Nodes, items0: Items, nodes: Nodes, items: Items, metaRes: MetaResource, scanner: Scanner.S3Scanner,
                              buckets: seq<string>, k: nat, totalBuckets: nat, totalObjects: nat, exact: bool, settled: bool)
    requires k <= |buckets|
  {
    && BucketsSoFar(nodes0, items0, nodes, items, metaRes, scanner, buckets, k, totalBuckets, totalObjects, exact)
    && (exact ==> forall j :: 0 <= j < k ==> Settled(nodes, metaRes, scanner, buckets[j]))
    && (settled ==> nodes == nodes0 && items == items0 && totalBuckets == totalObjects == 0)
  }

  ghost predicate AllBucketsSettled(nodes: Nodes, metaRes: MetaResource, scanner: Scanner.S3Scanner, buckets: seq<string>) {
    forall k :: 0 <= k < |buckets| ==> Settled(nodes, metaRes, scanner, buckets[k])
  }

  lemma AutoStart(nodes: Nodes, items: Items, metaRes: MetaResource, scanner: Scanner.S3Scanner, buckets: seq<string>, exact: bool, settled: bool)
    ensures IsAutoState(nodes, items, nodes, items, metaRes, scanner, buckets, 0, 0, 0, exact, settled)
  {
    hide BucketsSoFar, Settled;
    StartBuckets(nodes, items, metaRes, scanner, buckets, exact);
  }

  lemma AutoSkip(nodes0: Nodes, items0: Items, nodes: Nodes, items: Items, metaRes: MetaResource, scanner: Scanner.S3Scanner,
                 buckets: seq<string>, k: nat, totalBuckets: nat, totalObjects: nat, exact: bool, settled: bool)
    requires k < |buckets| && Forest(nodes, items) && (exact ==> HasRow(nodes, metaRes, BucketNode, buckets[k]))
    requires IsAutoState(nodes0, items0, nodes, items, metaRes, scanner, buckets, k, totalBuckets, totalObjects, exact, settled)
    ensures IsAutoState(nodes0, items0, nodes, items, metaRes, scanner, buckets, k + 1, totalBuckets, totalObjects, exact, settled)
  {
    hide BucketsSoFar, HasRow, YieldsNothing, Forest;
    BucketSkipped(nodes0, items0, nodes, items, metaRes, scanner, buckets, k, totalBuckets, totalObjects, exact);
  }

  /** The run over a bucket without a row, as `ScanObjectStoragePaths` reports it. */
  ghost predicate IsAutoRun(s: Scan, nodes: Nodes, items: Items, scanner: Scanner.S3Scanner, bucket: string, answers: seq<ScanAnswer>,
                            more: nat, objects: nat, reliable: bool) {
    && Answered(scanner, [bucket], answers) && !EndsInPanic(answers)
    && (reliable ==>
          && |answers| == 1 && IsOutcome(s, nodes, items) && more == |BucketsOf(answers)|
          && IsExact(s, answers, BucketsOf(answers), objects))
  }

  lemma AutoRunIs(s: Scan, nodes: Nodes, items: Items, scanner: Scanner.S3Scanner, bucket: string, answers: seq<ScanAnswer>,
                  more: nat, objects: nat, reliable: bool)
    requires Answered(scanner, [bucket], answers) && !EndsInPanic(answers)
    requires reliable ==> |answers| == |[bucket]| && IsOutcome(s, nodes, items) && more == |BucketsOf(answers)|
    requires reliable ==> IsExact(s, answers, BucketsOf(answers), objects)
    ensures IsAutoRun(s, nodes, items, scanner, bucket, answers, more, objects, reliable)
  {
    hide IsOutcome, IsExact, Answered, EndsInPanic, BucketsOf;
  }

  lemma AutoTurn(nodes0: Nodes, items0: Items, s: Scan, nodes: Nodes, items: Items, scanner: Scanner.S3Scanner, buckets: seq<string>,
                 k: nat, totalBuckets: nat, totalObjects: nat, answers: seq<ScanAnswer>, more: nat, objects: nat, reliable: bool, settled: bool)
    requires k < |buckets| && Forest(s.nodes0, s.items0) && !HasRow(s.nodes0, s.metaRes, BucketNode, buckets[k])
    requires settled ==> reliable && AllBucketsSettled(nodes0, s.metaRes, scanner, buckets)
    requires IsAutoState(nodes0, items0, s.nodes0, s.items0, s.metaRes, scanner, buckets, k, totalBuckets, totalObjects,
                         reliable && AllClean(buckets), settled)
    requires IsAutoRun(s, nodes, items, scanner, buckets[k], answers, more, objects, reliable)
    ensures IsAutoState(nodes0, items0, nodes, items, s.metaRes, scanner, buckets, k + 1, totalBuckets + more, totalObjects + objects,
                        reliable && AllClean(buckets), settled)
  {
    hide BucketsSoFar, HasRow, YieldsNothing, Forest, IsOutcome, IsExact, Answered, EndsInPanic, Scanner.IsScanAnswer, ScanState.Consistent,
      AllClean, BucketsOf, BatchOf;
    var a := if answers == [] then Scanner.Panicked else answers[0];
    if answers != [] {
      OneAnswer(scanner, buckets[k], answers);
    }
    if reliable && AllClean(buckets) {
      CleanAt(buckets, k);
      TurnMeans(s, nodes, items, scanner, buckets[k], a, more, objects);
      RunSettles(s, nodes, items, scanner, buckets[k], a, objects);
      forall j | 0 <= j < k ensures Settled(nodes, s.metaRes, scanner, buckets[j]) {
        StaySettled(s, nodes, items, scanner, buckets[j]);
      }
    }
    BucketTurn(nodes0, items0, s, nodes, items, scanner, buckets, k, totalBuckets, totalObjects, a, more, objects,
               reliable && AllClean(buckets));
    if settled {
      VainScan(scanner, buckets[k], a);
      NothingChanged(s, nodes, items, a, objects);
    }
  }

  lemma AutoPanic(nodes0: Nodes, items0: Items, s: Scan, nodes: Nodes, items: Items, scanner: Scanner.S3Scanner, buckets: seq<string>,
                  k: nat, totalBuckets: nat, totalObjects: nat, answers: seq<ScanAnswer>, reliable: bool, settled: bool)
    requires k < |buckets| && Forest(s.nodes0, s.items0) && !HasRow(s.nodes0, s.metaRes, BucketNode, buckets[k])
    requires settled ==> AllBucketsSettled(nodes0, s.metaRes, scanner, buckets)
    requires IsAutoState(nodes0, items0, s.nodes0, s.items0, s.metaRes, scanner, buckets, k, totalBuckets, totalObjects,
                         reliable && AllClean(buckets), settled)
    requires Answered(scanner, [buckets[k]], answers) && EndsInPanic(answers) && IsInterrupted(s, nodes, items, Earlier(answers))
    ensures !settled && (reliable && AllClean(buckets) ==> Kept(nodes0, items0, nodes, items))
  {
    hide BucketsSoFar, HasRow, YieldsNothing, Forest, Answered, Scanner.IsScanAnswer, ScanState.Consistent, AllClean, IsInterrupted, Kept;
    OnePath(scanner, buckets[k], answers);
    OnlyAnswer(answers);
    OneAnswer(scanner, buckets[k], answers);
    if settled {
      VainScan(scanner, buckets[k], answers[0]);
    }
    PanicKeeps(s, nodes, items);
    SoFarKept(nodes0, items0, s.nodes0, s.items0, s.metaRes, scanner, buckets, k, totalBuckets, totalObjects, reliable && AllClean(buckets));
    if reliable && AllClean(buckets) {
      KeptTwice(nodes0, items0, s.nodes0, s.items0, nodes, items);
    }
  }

  lemma OnePath(scanner: Scanner.S3Scanner, bucket: string, answers: seq<ScanAnswer>)
    requires Answered(scanner, [bucket], answers)
    ensures |answers| <= 1
  {
  }

  lemma AutoEnd(nodes0: Nodes, items0: Items, nodes: Nodes, items: Items, metaRes: MetaResource, scanner: Scanner.S3Scanner,
                buckets: seq<string>, totalBuckets: nat, totalObjects: nat, exact: bool, settled: bool)
    requires IsAutoState(nodes0, items0, nodes, items, metaRes, scanner, buckets, |buckets|, totalBuckets, totalObjects, exact, settled)
    ensures exact ==> AllBucketsSettled(nodes, metaRes, scanner, buckets) && Kept(nodes0, items0, nodes, items)
    ensures exact ==>
              var taken := NewNames(nodes0, metaRes, BucketNode, buckets);
              && BucketsTaken(nodes0, items0, nodes, items, metaRes, scanner, buckets)
              && totalBuckets == BucketsFiled(scanner, taken) && totalObjects == ObjectsFiled(scanner, taken)
    ensures settled ==> nodes == nodes0 && items == items0 && totalBuckets == totalObjects == 0
  {
    hide BucketsSoFar, Settled, BucketsTaken, NewNames, BucketsFiled, ObjectsFiled, Kept;
    SoFarKept(nodes0, items0, nodes, items, metaRes, scanner, buckets, |buckets|, totalBuckets, totalObjects, exact);
    BucketsAtEnd(nodes0, items0, nodes, items, metaRes, scanner, buckets, totalBuckets, totalObjects, exact);
  }

  // ---- The automatic scan ---------------------------------------------------------------------------------------

  /** What an automatic scan that works does and reports. */
  ghost predicate IsAutoOutcome(nodes0: Nodes, items0: Items, nodes: Nodes, items: Items, metaRes: MetaResource, scan: ResourceScanner,
                                schemas: nat, tables: nat, fields: nat) {
    match scan
    case Relational(source) =>
      var taken := NewNames(nodes0, metaRes, SchemaNode, source.schemas);
      && SchemasTaken(nodes0, items0, nodes, items, metaRes, source, source.schemas)
      && schemas == SchemasRead(source, taken) && tables == TablesRead(source, taken) && fields == FieldsOfAll(source, taken)
    case ObjectStorage(scanner, buckets) =>
      var taken := NewNames(nodes0, metaRes, BucketNode, buckets);
      && BucketsTaken(nodes0, items0, nodes, items, metaRes, scanner, buckets)
      && schemas == BucketsFiled(scanner, taken) && tables == ObjectsFiled(scanner, taken) && fields == 0
  }

  lemma OutcomeCases(nodes0: Nodes, items0: Items, nodes: Nodes, items: Items, metaRes: MetaResource, scan: ResourceScanner,
                     schemas: nat, tables: nat, fields: nat)
    ensures scan.Relational? ==>
              var taken := NewNames(nodes0, metaRes, SchemaNode, scan.source.schemas);
              SchemasTaken(nodes0, items0, nodes, items, metaRes, scan.source, scan.source.schemas)
              && schemas == SchemasRead(scan.source, taken) && tables == TablesRead(scan.source, taken)
              && fields == FieldsOfAll(scan.source, taken) ==>
                IsAutoOutcome(nodes0, items0, nodes, items, metaRes, scan, schemas, tables, fields)
    ensures scan.ObjectStorage? ==>
              var taken := NewNames(nodes0, metaRes, BucketNode, scan.buckets);
              BucketsTaken(nodes0, items0, nodes, items, metaRes, scan.scanner, scan.buckets)
              && schemas == BucketsFiled(scan.scanner, taken) && tables == ObjectsFiled(scan.scanner, taken) && fields == 0 ==>
                IsAutoOutcome(nodes0, items0, nodes, items, metaRes, scan, schemas, tables, fields)
  {
    hide SchemasTaken, BucketsTaken, NewNames, SchemasRead, TablesRead, FieldsOfAll, BucketsFiled, ObjectsFiled;
  }

  lemma SettledCases(nodes: Nodes, metaRes: MetaResource, scan: ResourceScanner)
    ensures scan.ObjectStorage? ==> (AllSettled(nodes, metaRes, scan) <==> AllBucketsSettled(nodes, metaRes, scan.scanner, scan.buckets))
    ensures scan.ObjectStorage? ==> (ProperNames(scan) <==> AllClean(scan.buckets))
    ensures scan.Relational? ==>
              (AllSettled(nodes, metaRes, scan) <==>
                 forall k :: 0 <= k < |scan.source.schemas| ==> HasRow(nodes, metaRes, SchemaNode, scan.source.schemas[k]))
  {
    hide Settled, HasRow;
  }

  // ---- What a scanned schema holds ------------------------------------------------------------------------------

  /** A table as its item shows it. */
  ghost predicate IsTableItem(source: DatabaseSource, schema: string, t: TableInfo, name: string, data: ItemData) {
    && (schema, t.name) in source.fields && name == t.name
    && data == ItemData(if schema == "" then t.name else schema + "." + t.name, Some(t.rowCount), Some(t.sizeBytes), None, map[])
  }

  lemma {:induction false} ReadableMember(source: DatabaseSource, schema: string, tables: seq<TableInfo>, x: Delivery)
    ensures x in ReadableTables(source, schema, tables) <==>
              x.dir == [schema] && exists t :: t in tables && IsTableItem(source, schema, t, x.name, x.data)
  {
    if tables != [] {
      var front, last := tables[..|tables| - 1], tables[|tables| - 1];
      ReadableMember(source, schema, front, x);
      assert tables == front + [last];
      assert forall t :: t in tables <==> t in front || t == last;
      assert x == TableDelivery(schema, last) && (schema, last.name) in source.fields
             <==> x.dir == [schema] && IsTableItem(source, schema, last, x.name, x.data);
    }
  }

  lemma {:induction false} ReadableDistinct(source: DatabaseSource, schema: string, tables: seq<TableInfo>)
    requires forall j, k :: 0 <= j < k < |tables| ==> tables[j].name != tables[k].name
    ensures DistinctBelow(ReadableTables(source, schema, tables), [])
  {
    if tables != [] {
      var front, last := tables[..|tables| - 1], tables[|tables| - 1];
      assert forall j, k :: 0 <= j < k < |front| ==> front[j].name != front[k].name;
      ReadableDistinct(source, schema, front);
      var log := ReadableTables(source, schema, front);
      forall k | 0 <= k < |log| ensures log[k].name != last.name {
        ReadableMember(source, schema, front, log[k]);
        assert log[k] in log;
        var t :| t in front && IsTableItem(source, schema, t, log[k].name, log[k].data);
        var j :| 0 <= j < |front| && front[j] == t;
        assert tables[j] == t;
      }
    }
  }

  /** The items of a scanned schema are exactly the tables of its listing whose columns could be read, with their row counts and sizes. */
  lemma SchemaItemsAreTables(nodes: Nodes, items: Items, metaRes: MetaResource, source: DatabaseSource, schema: string, id: nat,
                             name: string, data: ItemData)
    requires schema in source.tables && Linked(nodes)
    requires forall j, k :: 0 <= j < k < |source.tables[schema]| ==> source.tables[schema][j].name != source.tables[schema][k].name
    requires IsScannedSchema(nodes, items, metaRes, schema, id, TablesOf(source, schema), None)
    ensures (exists t :: t in items && items[t].node == id && items[t].name == name && DataOf(items[t]) == data) <==>
              exists t :: t in source.tables[schema] && IsTableItem(source, schema, t, name, data)
  {
    hide ReadableTables, DistinctBelow, DataOf;
    var names: Names := map[id := [schema]];
    var tables, v := source.tables[schema], FileView([schema], name, data);
    assert LinkedRow(nodes, id);
    ReadableDistinct(source, schema, tables);
    FilesAreLog(items, names, TablesOf(source, schema), v);
    ReadableMember(source, schema, tables, Delivery([schema], name, data));
    FilesOfRow(items, id, schema, name, data);
  }

  lemma FilesOfRow(items: Items, id: nat, schema: string, name: string, data: ItemData)
    ensures FileView([schema], name, data) in Files(items, map[id := [schema]]) <==>
              exists t :: t in items && items[t].node == id && items[t].name == name && DataOf(items[t]) == data
  {
    hide DataOf;
    var names: Names := map[id := [schema]];
    var v := FileView([schema], name, data);
    if t :| t in items && items[t].node == id && items[t].name == name && DataOf(items[t]) == data {
      assert FileView(names[items[t].node], items[t].name, DataOf(items[t])) == v;
      assert v in Files(items, names);
    }
    if v in Files(items, names) {
      var t :| t in items && items[t].node in names && FileView(names[items[t].node], items[t].name, DataOf(items[t])) == v;
      assert items[t].node == id && items[t].name == name && DataOf(items[t]) == data;
    }
  }
}

/** The steps of a scan: what each row of scanned metadata asks for, and how each statement the service issues carries
    the consistent state of a scan forward. */
module ScanSteps {
  import opened Options
  import opened GoStrings
  import opened ObjectKeys
  import opened Sequences
  import opened MetadataForest
  import opened NodeNames
  import opened NodePlacement
  import opened Deliveries
  import opened ScanSession
  import Scanner = ObjectStorageScanner

  type ObjectMetadata = Scanner.ObjectMetadata

  // ---- What one metadata row asks for ------------------------------------------

  function MetaSegments(m: ObjectMetadata): seq<string> {
    var trimmed := SanitizeObjectPath(m.relativePath);
    if trimmed == "" then [] else Split(trimmed)
  }

  /** Directories a row makes, below its bucket: all its segments, or all but the last for an object. */
  function MetaDirs(m: ObjectMetadata): seq<string> {
    var segments := MetaSegments(m);
    match m.nodeType
    case BucketMeta => []
    case PrefixMeta => segments
    case ObjectMeta => if segments == [] then [] else segments[..|segments| - 1]
  }

  function ObjectName(m: ObjectMetadata): string {
    var base := Base(TrimSlashes(m.path));
    var name := TrimSlashes(if base == "" then SanitizeObjectPath(m.relativePath) else base);
    if name == "" then "object_" + DecimalInt(m.sizeBytes) else name
  }

  /** Whatever the path, the name is its last segment: the fallbacks of the code are never reached. */
  lemma ObjectNameIs(m: ObjectMetadata)
    ensures ObjectName(m) == if TrimSlashes(m.path) == "" then "." else Split(TrimSlashes(m.path))[|Split(TrimSlashes(m.path))| - 1]
    ensures ObjectName(m) != "" && SlashFree(ObjectName(m))
  {
    hide Split, SanitizeObjectPath;
    var p := TrimSlashes(m.path);
    TrimmedEnds(m.path);
    if p == "" {
      TrimIdentity(".", Slashes);
    } else {
      var name := Split(p)[|Split(p)| - 1];
      LastSegment(p);
      assert name[0] in name && name[|name| - 1] in name;
      TrimIdentity(name, Slashes);
    }
  }

  lemma TrimmedEnds(s: string)
    ensures TrimSlashes(s) != "" ==> TrimSlashes(s)[|TrimSlashes(s)| - 1] != '/' && TrimRight(TrimSlashes(s), Slashes) == TrimSlashes(s)
  {
  }

  lemma LastSegment(p: string)
    requires p != "" && p[|p| - 1] != '/'
    ensures Split(p)[|Split(p)| - 1] != ""
  {
    hide Split;
    var parts := Split(p);
    JoinSplit(p);
    if |parts| > 1 {
      assert parts == parts[..|parts| - 1] + [parts[|parts| - 1]];
      JoinSnoc(parts[..|parts| - 1], parts[|parts| - 1]);
    }
  }

  /** The columns of an object's item, in a directory of the given full name. */
  function ObjectData(dir: string, m: ObjectMetadata): ItemData {
    ItemData(dir + "/" + ObjectName(m), None, Some(m.sizeBytes), Some(m.sizeBytes), ObjectAttributes(m))
  }

  function ObjectAttributes(m: ObjectMetadata): Attributes {
    map["bucket" := m.bucket, "path" := m.path, "relative_path" := SanitizeObjectPath(m.relativePath)]
  }

  lemma ObjectColumns(dir: string, m: ObjectMetadata)
    ensures ObjectData(dir, m)
            == ItemData(dir + "/" + ObjectName(m), None, Some(m.sizeBytes), Some(m.sizeBytes),
                        map["bucket" := m.bucket, "path" := m.path, "relative_path" := SanitizeObjectPath(m.relativePath)])
    ensures DataSize(ObjectData(dir, m)) == m.sizeBytes
  {
  }

  /** The item an object row asks for in the bucket that the batch is filed under. */
  function DeliveryOf(bucket: string, m: ObjectMetadata): Delivery {
    var dir := [bucket] + MetaDirs(m);
    Delivery(dir, ObjectName(m), ObjectData(Join(dir), m))
  }

  /** What a row asks to be delivered: an object, or nothing. */
  function RowDeliveries(bucket: string, m: ObjectMetadata): seq<Delivery> {
    if m.nodeType.ObjectMeta? then [DeliveryOf(bucket, m)] else []
  }

  lemma WithoutObject(bucket: string, m: ObjectMetadata)
    ensures !m.nodeType.ObjectMeta? ==> RowDeliveries(bucket, m) == []
  {
  }

  /** The directories a row asks for. */
  function RowDirs(bucket: string, m: ObjectMetadata): set<seq<string>> {
    DirsUpTo(bucket, MetaDirs(m), |MetaDirs(m)|)
  }

  function DeliveriesOf(bucket: string, metas: seq<ObjectMetadata>): seq<Delivery> {
    if metas == [] then []
    else DeliveriesOf(bucket, metas[..|metas| - 1]) + RowDeliveries(bucket, metas[|metas| - 1])
  }

  function DirectoriesOf(bucket: string, metas: seq<ObjectMetadata>): set<seq<string>> {
    if metas == [] then {} else DirectoriesOf(bucket, metas[..|metas| - 1]) + RowDirs(bucket, metas[|metas| - 1])
  }

  /** The attributes of a directory row, below its bucket. */
  function DirAttributes(bucket: string, dirs: seq<string>): Attributes {
    map["bucket" := bucket, "path" := Join(dirs)]
  }

  /** What a walk down these directories writes on their rows, whichever bucket they are filed under. */
  function PathLabels(root: string, bucket: string, dirs: seq<string>, k: nat): map<seq<string>, Attributes>
    requires k <= |dirs|
  {
    if k == 0 then map[] else PathLabels(root, bucket, dirs, k - 1)[[root] + dirs[..k] := DirAttributes(bucket, dirs[..k])]
  }

  function RowLabels(root: string, m: ObjectMetadata): map<seq<string>, Attributes> {
    PathLabels(root, m.bucket, MetaDirs(m), |MetaDirs(m)|)
  }

  /** What a batch writes on the rows of its directories: the last row that names one decides. */
  function LabelsOf(root: string, metas: seq<ObjectMetadata>): map<seq<string>, Attributes> {
    if metas == [] then map[] else LabelsOf(root, metas[..|metas| - 1]) + RowLabels(root, metas[|metas| - 1])
  }

  lemma OneMoreRow(bucket: string, metas: seq<ObjectMetadata>, k: nat)
    requires k < |metas|
    ensures DeliveriesOf(bucket, metas[..k + 1]) == DeliveriesOf(bucket, metas[..k]) + RowDeliveries(bucket, metas[k])
    ensures DirectoriesOf(bucket, metas[..k + 1]) == DirectoriesOf(bucket, metas[..k]) + RowDirs(bucket, metas[k])
    ensures LabelsOf(bucket, metas[..k + 1]) == LabelsOf(bucket, metas[..k]) + RowLabels(bucket, metas[k])
  {
    assert metas[..k + 1][..k] == metas[..k];
  }

  lemma DirsOfSegments(m: ObjectMetadata)
    requires !m.nodeType.BucketMeta?
    ensures |MetaDirs(m)| == if m.nodeType.ObjectMeta? && |MetaSegments(m)| > 0 then |MetaSegments(m)| - 1 else |MetaSegments(m)|
    ensures MetaDirs(m) == MetaSegments(m)[..|MetaDirs(m)|]
  {
  }

  // ---- Steps of a scan ----------------------------------------------------------

  /** A row of the resource below which prefixes and objects may be filed. */
  predicate Holds(metaRes: MetaResource, n: Node) {
    n.tenant == metaRes.tenant && n.res == metaRes.id && n.kind != SchemaNode
  }

  /** Two states of one run over the same buckets, whose rows it has left alone. */
  ghost predicate SameRun(s: Scan, s': Scan) {
    && SameStart(s, s') && s.log <= s'.log
    && (forall r {:trigger r in s.roots} :: r in s.roots ==> r in s.nodes && r in s'.nodes && s'.nodes[r] == s.nodes[r])
  }

  lemma SameRunTransitive(s0: Scan, s: Scan, s': Scan)
    requires SameRun(s0, s) && SameRun(s, s')
    ensures SameRun(s0, s')
  {
  }

  /** The step that finds or creates prefix row n under p. */
  ghost predicate PrefixAdded(s: Scan, s': Scan, p: nat, n: Node, segment: string)
    requires p in s.names
  {
    && SameStart(s, s') && s'.items == s.items && s'.log == s.log
    && s'.nodes == s.nodes[n.id := n] && s'.names == s.names[n.id := s.names[p] + [segment]]
    && s'.stats == EnsureNodeAggregate(s.stats, n.id)
    && n.id !in s.roots && n.id != p
    && (n.id in s.names ==> s.names[n.id] == s.names[p] + [segment])
    && Current(s'.nodes, n) && Holds(s.metaRes, n)
  }

  ghost predicate IsPrefixUpsert(s: Scan, nodes': Nodes, parent: Node, n: Node, segment: string) {
    IsUpserted(s.nodes, nodes', n, s.metaRes, Some(parent), PrefixNode, segment, ComposeNodeFullName(segment, Some(parent), "/"))
  }

  ghost predicate IsStrandedPrefix(s: Scan, parent: Node, n: Node, segment: string) {
    Stranded(n) && n.depth == DepthBelow(Some(parent)) && IsNewRow(s.nodes, n, s.metaRes, Some(parent.id), PrefixNode, segment)
  }

  lemma PrefixNameFree(s: Scan, parent: Node, segment: string)
    requires Current(s.nodes, parent) && Holds(s.metaRes, parent)
    ensures NameFree(s.nodes, s.metaRes, Some(parent), PrefixNode, segment)
  {
    PlacedNameIsFree(s.nodes, s.metaRes, Some(parent), PrefixNode, segment, ComposeNodeFullName(segment, Some(parent), "/"));
  }

  lemma PrefixForest(s: Scan, nodes': Nodes, parent: Node, n: Node, segment: string)
    requires Current(s.nodes, parent) && Holds(s.metaRes, parent)
    requires IsPrefixUpsert(s, nodes', parent, n, segment)
    ensures nodes' == s.nodes[n.id := n] && Forest(s.nodes[n.id := n], s.items)
    ensures !Stranded(n) && SameIdentity(n, n) && Holds(s.metaRes, n)
  {
    UpsertedKeepsForest(s.nodes, s.items, nodes', n, s.metaRes, Some(parent), PrefixNode, segment, ComposeNodeFullName(segment, Some(parent), "/"));
  }

  lemma StrandedPrefixForest(s: Scan, parent: Node, n: Node, segment: string)
    requires Current(s.nodes, parent) && Holds(s.metaRes, parent)
    requires IsStrandedPrefix(s, parent, n, segment)
    ensures Forest(s.nodes[n.id := n], s.items)
  {
    StrandedKeepsForest(s.nodes, s.items, n, s.metaRes, Some(parent), PrefixNode, segment, ComposeNodeFullName(segment, Some(parent), "/"));
  }

  lemma PrefixIsChild(s: Scan, nodes': Nodes, parent: Node, n: Node, segment: string)
    requires Current(s.nodes, parent) && Holds(s.metaRes, parent)
    requires (IsPrefixUpsert(s, nodes', parent, n, segment) && !Stranded(n)) || IsStrandedPrefix(s, parent, n, segment)
    ensures IsChildUpsert(s.nodes, parent.id, n) && n.name == segment
  {
    UpsertIsChild(s.nodes, nodes', s.metaRes, parent, n, segment, ComposeNodeFullName(segment, Some(parent), "/"));
  }

  lemma PrefixUpserted(s: Scan, nodes': Nodes, parent: Node, n: Node, segment: string) returns (s': Scan)
    requires Current(s.nodes, parent) && parent.id in s.names && Holds(s.metaRes, parent)
    requires IsUpserted(s.nodes, nodes', n, s.metaRes, Some(parent), PrefixNode, segment, ComposeNodeFullName(segment, Some(parent), "/"))
    ensures PrefixAdded(s, s', parent.id, n, segment)
    ensures s'.nodes == nodes' && s'.items == s.items && s'.stats == EnsureNodeAggregate(s.stats, n.id) && n.id in s'.stats
  {
    hide IsUpserted;
    s' := PrefixPlaced(s, nodes', parent, n, segment);
  }

  lemma PrefixPlaced(s: Scan, nodes': Nodes, parent: Node, n: Node, segment: string) returns (s': Scan)
    requires Current(s.nodes, parent) && parent.id in s.names && Holds(s.metaRes, parent)
    requires IsPrefixUpsert(s, nodes', parent, n, segment)
    ensures PrefixAdded(s, s', parent.id, n, segment) && s'.nodes == nodes'
  {
    hide IsPrefixUpsert, IsChildUpsert, Forest;
    PrefixForest(s, nodes', parent, n, segment);
    PrefixIsChild(s, nodes', parent, n, segment);
    s' := ChildKeepsScan(s, parent.id, n, EnsureNodeAggregate(s.stats, n.id));
  }

  lemma StrandedPrefix(s: Scan, parent: Node, n: Node, segment: string) returns (s': Scan)
    requires Current(s.nodes, parent) && parent.id in s.names && Holds(s.metaRes, parent)
    requires IsStrandedPrefix(s, parent, n, segment)
    ensures SameStart(s, s') && s'.items == s.items && s'.log == s.log && s'.stats == s.stats
    ensures s'.nodes == s.nodes[n.id := n] && s'.names == s.names[n.id := s.names[parent.id] + [segment]]
    ensures n.id !in s.roots
  {
    StrandedPrefixForest(s, parent, n, segment);
    PrefixIsChild(s, s.nodes, parent, n, segment);
    s' := ChildKeepsScan(s, parent.id, n, s.stats);
  }

  lemma StrandedRow(nodes: Nodes, nodes': Nodes, metaRes: MetaResource, parent: Node, segment: string) returns (n: Node)
    requires LeftStranded(nodes, nodes', metaRes, Some(parent), PrefixNode, segment)
    ensures nodes' == nodes[n.id := n] && Stranded(n) && n.depth == DepthBelow(Some(parent))
    ensures IsNewRow(nodes, n, metaRes, Some(parent.id), PrefixNode, segment)
  {
    hide IsNewRow, Stranded;
    n :| nodes' == nodes[n.id := n] && Stranded(n) && n.depth == DepthBelow(Some(parent))
         && IsNewRow(nodes, n, metaRes, ParentId(Some(parent)), PrefixNode, segment);
  }

  lemma SameRunAs(s: Scan, s': Scan, id: nat)
    requires SameStart(s, s') && s'.log == s.log && id !in s.roots
    requires forall i :: i in s.nodes && i != id ==> i in s'.nodes && s'.nodes[i] == s.nodes[i]
    ensures SameRun(s, s')
  {
    assert Rooted(s.nodes, s.metaRes, s.roots);
  }

  lemma SameRunAsItself(s: Scan)
    ensures SameRun(s, s)
  {
    assert Rooted(s.nodes, s.metaRes, s.roots);
  }

  /** A failed upsert changes nothing, or leaves a stranded row that the scan can live with. */
  lemma PrefixRefused(s: Scan, nodes': Nodes, parent: Node, segment: string) returns (s': Scan)
    requires Current(s.nodes, parent) && parent.id in s.names && Holds(s.metaRes, parent)
    requires nodes' == s.nodes || LeftStranded(s.nodes, nodes', s.metaRes, Some(parent), PrefixNode, segment)
    ensures SameRun(s, s') && s'.log == s.log && s'.nodes == nodes' && s'.items == s.items && s'.stats == s.stats
  {
    hide SameRun, SameStart, Current, Holds, LeftStranded, Stranded, DepthBelow, IsNewRow;
    s' := s;
    SameRunAsItself(s);
    if nodes' != s.nodes {
      var n := StrandedRow(s.nodes, nodes', s.metaRes, parent, segment);
      s' := StrandedPrefix(s, parent, n, segment);
      SameRunAs(s, s', n.id);
    }
  }

  // ---- Walking down from the bucket ----------------------------------------------

  /** The service's copy of a bucket row that this run is scanning. */
  ghost predicate IsScannedBucket(s: Scan, b: Node) {
    Current(s.nodes, b) && Holds(s.metaRes, b) && b.id in s.roots
  }

  /** The walk from the bucket has reached row `parent`, k directories down, with nothing else changed on the way. */
  ghost predicate OnPath(s0: Scan, s: Scan, bucket: Node, parent: Node, chain: seq<nat>, dirs: seq<string>, k: nat)
    requires k <= |dirs|
  {
    && SameRun(s0, s) && s.log == s0.log && s.items == s0.items
    && Current(s.nodes, parent) && Holds(s.metaRes, parent) && parent.id in s.names
    && s.names[parent.id] == [bucket.name] + dirs[..k]
    && Trail(s, chain, parent.id)
    && Chains(s.nodes, s.names) == Chains(s0.nodes, s0.names) + DirsUpTo(bucket.name, dirs, k)
  }

  /** `parentChain`: the rows from the bucket down to row p. */
  ghost predicate Trail(s: Scan, chain: seq<nat>, p: nat)
    requires p in s.names
  {
    && IsParentChain(s.names, chain, s.names[p])
    && forall j :: 0 <= j < |chain| ==> chain[j] in s.nodes && !Stranded(s.nodes[chain[j]])
  }

  lemma BucketNamed(s: Scan, b: Node)
    requires IsScannedBucket(s, b)
    ensures b.id in s.names && s.names[b.id] == [b.name]
  {
    assert NamedRow(s.nodes, s.roots, s.names, b.id);
  }

  lemma DirsSnoc(bucket: string, dirs: seq<string>, k: nat)
    requires k < |dirs|
    ensures [bucket] + dirs[..k + 1] == [bucket] + dirs[..k] + [dirs[k]]
  {
  }

  lemma ParentChainSnoc(names: Names, chain: seq<nat>, d: seq<string>, id: nat, x: string)
    requires IsParentChain(names, chain, d)
    requires id in names ==> names[id] == d + [x]
    ensures IsParentChain(names[id := d + [x]], chain + [id], d + [x])
  {
    var chain' := chain + [id];
    var d' := d + [x];
    forall j | 0 <= j < |chain'| ensures chain'[j] in names[id := d'] && names[id := d'][chain'[j]] == d'[..j + 1] {
      if j < |chain| {
        assert names[chain[j]] == d[..j + 1] == d'[..j + 1];
      } else {
        assert d'[..j + 1] == d';
      }
    }
  }

  lemma TrailSnoc(s: Scan, chain: seq<nat>, p: nat, s': Scan, n: Node, segment: string)
    requires p in s.names && Trail(s, chain, p) && PrefixAdded(s, s', p, n, segment)
    ensures Trail(s', chain + [n.id], n.id)
  {
    hide *;
    AddedRow(s, s', p, n, segment);
    TrailMeans(s, chain, p);
    ParentChainSnoc(s.names, chain, s.names[p], n.id, segment);
    LabelledSnoc(s.nodes, chain, n);
    TrailMeans(s', chain + [n.id], n.id);
  }

  /** Every row on the chain has its path. */
  ghost predicate AllLabelled(nodes: Nodes, chain: seq<nat>) {
    forall j :: 0 <= j < |chain| ==> chain[j] in nodes && !Stranded(nodes[chain[j]])
  }

  lemma TrailMeans(s: Scan, chain: seq<nat>, p: nat)
    requires p in s.names
    ensures Trail(s, chain, p) <==> IsParentChain(s.names, chain, s.names[p]) && AllLabelled(s.nodes, chain)
  {
    hide IsParentChain;
  }

  lemma LabelledSnoc(nodes: Nodes, chain: seq<nat>, n: Node)
    requires AllLabelled(nodes, chain) && !Stranded(n)
    ensures AllLabelled(nodes[n.id := n], chain + [n.id])
  {
    hide Stranded;
  }

  lemma AddedRow(s: Scan, s': Scan, p: nat, n: Node, segment: string)
    requires p in s.names && PrefixAdded(s, s', p, n, segment)
    ensures s'.nodes == s.nodes[n.id := n] && s'.names == s.names[n.id := s.names[p] + [segment]]
    ensures (n.id in s.names ==> s.names[n.id] == s.names[p] + [segment]) && !Stranded(n)
  {
  }

  lemma ChainsSnoc(s: Scan, p: nat, s': Scan, n: Node, segment: string, bucket: string, dirs: seq<string>, k: nat)
    requires p in s.names && PrefixAdded(s, s', p, n, segment)
    requires k < |dirs| && segment == dirs[k] && s.names[p] == [bucket] + dirs[..k]
    ensures s'.names[n.id] == [bucket] + dirs[..k + 1]
    ensures Chains(s'.nodes, s'.names) == Chains(s.nodes, s.names) + {[bucket] + dirs[..k + 1]}
  {
    DirsSnoc(bucket, dirs, k);
    ChainsExtended(s.nodes, s.names, n, s.names[p] + [segment]);
  }

  lemma WalkStart(s: Scan, bucket: Node, dirs: seq<string>)
    requires IsScannedBucket(s, bucket)
    ensures OnPath(s, s, bucket, bucket, [bucket.id], dirs, 0)
  {
    hide Chains, IsNaming, Forest, Stored, RowsKept, ItemsKept, Tallied, CountersPlaced, Unfinished;
    BucketNamed(s, bucket);
    assert Rooted(s.nodes, s.metaRes, s.roots);
    assert [bucket.name] + dirs[..0] == [bucket.name];
  }

  lemma WalkFacts(s0: Scan, s: Scan, bucket: Node, parent: Node, chain: seq<nat>, dirs: seq<string>, k: nat)
    requires k <= |dirs| && OnPath(s0, s, bucket, parent, chain, dirs, k)
    ensures s.metaRes == s0.metaRes && Current(s.nodes, parent) && Holds(s.metaRes, parent) && parent.id in s.names
  {
  }

  lemma WalkAbandoned(s0: Scan, s: Scan, bucket: Node, parent: Node, chain: seq<nat>, dirs: seq<string>, k: nat, s': Scan)
    requires k <= |dirs| && OnPath(s0, s, bucket, parent, chain, dirs, k) && SameRun(s, s') && s'.log == s.log
    ensures SameRun(s0, s') && s'.log == s0.log
  {
    SameRunTransitive(s0, s, s');
  }

  lemma AddedSameRun(s: Scan, p: nat, s': Scan, n: Node, segment: string)
    requires p in s.names && PrefixAdded(s, s', p, n, segment)
    ensures SameRun(s, s')
  {
    ScanRoots(s);
    hide ScanState.Consistent, Current, Holds, Stranded;
  }

  lemma ScanRoots(s: Scan)
    ensures Rooted(s.nodes, s.metaRes, s.roots)
  {
  }

  lemma WalkStep(s0: Scan, s: Scan, bucket: Node, parent: Node, chain: seq<nat>, dirs: seq<string>, k: nat, s': Scan, n: Node)
    requires k < |dirs| && OnPath(s0, s, bucket, parent, chain, dirs, k)
    requires parent.id in s.names && PrefixAdded(s, s', parent.id, n, dirs[k])
    ensures OnPath(s0, s', bucket, n, chain + [n.id], dirs, k + 1)
  {
    hide IsParentChain, Trail, Chains, Current, Stranded, Holds, SameRun;
    AddedSameRun(s, parent.id, s', n, dirs[k]);
    SameRunTransitive(s0, s, s');
    TrailSnoc(s, chain, parent.id, s', n, dirs[k]);
    ChainsSnoc(s, parent.id, s', n, dirs[k], bucket.name, dirs, k);
  }

  // ---- The attributes of the rows on the way --------------------------------------------

  /** Between two states these rows got these attributes, new rows among them, and no other row's changed. */
  ghost predicate Relabelled(s0: Scan, s: Scan, labels: map<seq<string>, Attributes>) {
    Labels(s.nodes, s.names) == Labels(s0.nodes, s0.names) + labels
  }

  lemma NothingRelabelled(s: Scan)
    ensures Relabelled(s, s, map[])
  {
  }

  lemma SameLabels(s0: Scan, s: Scan, s': Scan, labels: map<seq<string>, Attributes>)
    requires Relabelled(s0, s, labels) && s'.nodes == s.nodes && s'.names == s.names
    ensures Relabelled(s0, s', labels)
  {
  }

  lemma RelabelledTwice(s0: Scan, s: Scan, s': Scan, labels: map<seq<string>, Attributes>, more: map<seq<string>, Attributes>)
    requires Relabelled(s0, s, labels) && Relabelled(s, s', more)
    ensures Relabelled(s0, s', labels + more)
  {
    hide Labels, ScanState.Consistent;
    MergeAssociative(Labels(s0.nodes, s0.names), labels, more);
  }

  lemma MergeAssociative<K, V>(a: map<K, V>, b: map<K, V>, c: map<K, V>)
    ensures (a + b) + c == a + (b + c)
  {
  }

  lemma MergeOne<K, V>(a: map<K, V>, k: K, v: V)
    ensures a[k := v] == a + map[k := v]
  {
  }

  lemma WalkUnlabelled(s: Scan, root: string, bucket: string, dirs: seq<string>)
    ensures Relabelled(s, s, PathLabels(root, bucket, dirs, 0))
  {
    NothingRelabelled(s);
  }

  lemma RowAttributes(m: ObjectMetadata, segments: seq<string>, dirs: seq<string>, k: nat)
    requires k < |dirs| <= |segments| && dirs == segments[..|dirs|]
    ensures map["bucket" := m.bucket, "path" := Join(segments[..k + 1])] == DirAttributes(m.bucket, dirs[..k + 1])
  {
    assert segments[..k + 1] == dirs[..k + 1];
  }

  lemma WalkLabelled(s0: Scan, s: Scan, root: Node, bucket: string, parent: Node, chain: seq<nat>, dirs: seq<string>, k: nat, s': Scan, n: Node)
    requires k < |dirs| && OnPath(s0, s, root, parent, chain, dirs, k)
    requires parent.id in s.names && PrefixAdded(s, s', parent.id, n, dirs[k])
    requires Relabelled(s0, s, PathLabels(root.name, bucket, dirs, k)) && n.attrs == DirAttributes(bucket, dirs[..k + 1])
    ensures Relabelled(s0, s', PathLabels(root.name, bucket, dirs, k + 1))
  {
    hide *;
    AddedRow(s, s', parent.id, n, dirs[k]);
    WalkNamed(s0, s, root, parent, chain, dirs, k);
    DirsSnoc(root.name, dirs, k);
    AddedLabel(s, s', n, [root.name] + dirs[..k + 1]);
    RelabelledTwice(s0, s, s', PathLabels(root.name, bucket, dirs, k), map[[root.name] + dirs[..k + 1] := n.attrs]);
    OneMoreLabel(root.name, bucket, dirs, k);
  }

  lemma WalkNamed(s0: Scan, s: Scan, bucket: Node, parent: Node, chain: seq<nat>, dirs: seq<string>, k: nat)
    requires k < |dirs| && OnPath(s0, s, bucket, parent, chain, dirs, k)
    ensures parent.id in s.names && s.names[parent.id] == [bucket.name] + dirs[..k]
  {
  }

  lemma OneMoreLabel(root: string, bucket: string, dirs: seq<string>, k: nat)
    requires k < |dirs|
    ensures PathLabels(root, bucket, dirs, k + 1)
            == PathLabels(root, bucket, dirs, k) + map[[root] + dirs[..k + 1] := DirAttributes(bucket, dirs[..k + 1])]
  {
    hide DirAttributes;
  }

  lemma AddedLabel(s: Scan, s': Scan, n: Node, d: seq<string>)
    requires s'.nodes == s.nodes[n.id := n] && s'.names == s.names[n.id := d]
    requires (n.id in s.names ==> s.names[n.id] == d) && !Stranded(n)
    ensures Relabelled(s, s', map[d := n.attrs])
  {
    DistinctNames(s);
    DistinctNames(s');
    hide *;
    LabelsExtended(s.nodes, s.names, n, d);
    RelabelledOne(s, s', d, n.attrs);
  }

  lemma RelabelledOne(s: Scan, s': Scan, d: seq<string>, attrs: Attributes)
    requires Labels(s'.nodes, s'.names) == Labels(s.nodes, s.names)[d := attrs]
    ensures Relabelled(s, s', map[d := attrs])
  {
    hide Labels, ScanState.Consistent;
    MergeOne(Labels(s.nodes, s.names), d, attrs);
  }

  lemma RowLabelled(s0: Scan, s: Scan, s': Scan, x: Delivery, chain: seq<nat>, labels: map<seq<string>, Attributes>)
    requires Relabelled(s0, s, labels) && ObjectAdded(s, s', x, chain)
    ensures Relabelled(s0, s', labels)
  {
    hide Relabelled;
    SameLabels(s0, s, s', labels);
  }

  lemma BucketRowUnlabelled(s: Scan, s': Scan, root: string, m: ObjectMetadata)
    requires m.nodeType.BucketMeta? && s'.nodes == s.nodes && s'.names == s.names
    ensures Relabelled(s, s', RowLabels(root, m))
  {
    NothingRelabelled(s);
    SameLabels(s, s, s', map[]);
  }

  lemma RowLabelsAre(root: string, m: ObjectMetadata)
    ensures RowLabels(root, m) == PathLabels(root, m.bucket, MetaDirs(m), |MetaDirs(m)|)
  {
  }

  lemma MoreLabelled(s0: Scan, s: Scan, s': Scan, root: string, metas: seq<ObjectMetadata>, n: nat)
    requires n < |metas|
    requires Relabelled(s0, s, LabelsOf(root, metas[..n])) && Relabelled(s, s', RowLabels(root, metas[n]))
    ensures Relabelled(s0, s', LabelsOf(root, metas[..n + 1]))
  {
    hide Relabelled, LabelsOf, RowLabels;
    OneMoreRow(root, metas, n);
    RelabelledTwice(s0, s, s', LabelsOf(root, metas[..n]), RowLabels(root, metas[n]));
  }

  lemma StartLabelled(s: Scan, root: string, metas: seq<ObjectMetadata>)
    ensures Relabelled(s, s, LabelsOf(root, metas[..0]))
  {
    NothingRelabelled(s);
  }

  // ---- Delivering an object -----------------------------------------------------------

  /** The step that stores an item and credits the rows above it. */
  ghost predicate ObjectAdded(s: Scan, s': Scan, x: Delivery, chain: seq<nat>) {
    && SameStart(s, s') && s'.nodes == s.nodes && s'.names == s.names
    && s'.log == s.log + [x] && s'.stats == CreditedAll(s.stats, chain, DataSize(x.data))
  }

  lemma ItemFullName(s: Scan, parent: Node, name: string)
    requires Current(s.nodes, parent) && parent.id in s.names
    ensures ComposeNodeFullName(name, Some(parent), "/") == Join(s.names[parent.id]) + "/" + name
  {
    assert Rooted(s.nodes, s.metaRes, s.roots);
    FullNameIsJoin(s.nodes, s.roots, s.names, parent.id);
    JoinNonEmpty(s.names[parent.id]);
  }

  lemma ItemSlotFree(s: Scan, parent: Node, name: string)
    requires Current(s.nodes, parent) && Holds(s.metaRes, parent)
    ensures SlotFree(s.nodes, s.items, s.metaRes, parent.id, ObjectItem, name)
  {
    PlacedSlotIsFree(s.nodes, s.items, s.metaRes, parent.id, ObjectItem, name);
  }

  lemma ItemForest(s: Scan, items': Items, t: nat, parent: Node, name: string, data: ItemData)
    requires Current(s.nodes, parent) && Holds(s.metaRes, parent)
    requires IsUpsertedItem(s.items, items', t, s.metaRes, parent.id, ObjectItem, name, data)
    ensures Forest(s.nodes, items') && ItemUpserted(s.items, items', t, parent.id, name, data)
  {
    UpsertedItemKeepsForest(s.nodes, s.items, items', t, s.metaRes, parent.id, ObjectItem, name, data);
  }

  lemma ItemDelivered(s: Scan, items': Items, t: nat, parent: Node, chain: seq<nat>, name: string, data: ItemData) returns (s': Scan)
    requires Current(s.nodes, parent) && Holds(s.metaRes, parent) && parent.id in s.names && Trail(s, chain, parent.id)
    requires IsUpsertedItem(s.items, items', t, s.metaRes, parent.id, ObjectItem, name, data)
    ensures ObjectAdded(s, s', Delivery(s.names[parent.id], name, data), chain)
    ensures s'.nodes == s.nodes && s'.items == items' && s'.stats == CreditedAll(s.stats, chain, DataSize(data))
  {
    hide Forest, ItemUpserted, IsUpsertedItem, Current, Holds, IsParentChain;
    ItemForest(s, items', t, parent, name, data);
    s' := DeliveryKeepsScan(s, items', t, parent.id, name, data, chain);
  }

  // ---- Filing a batch -------------------------------------------------------------------

  /** Between two states of a run these items were delivered and these directories made, and nothing else. */
  ghost predicate Filed(s0: Scan, s: Scan, deliveries: seq<Delivery>, dirs: set<seq<string>>) {
    SameRun(s0, s) && s.log == s0.log + deliveries && Chains(s.nodes, s.names) == Chains(s0.nodes, s0.names) + dirs
  }

  lemma StartFiled(s: Scan, bucket: string, metas: seq<ObjectMetadata>)
    ensures Filed(s, s, DeliveriesOf(bucket, metas[..0]), DirectoriesOf(bucket, metas[..0]))
    ensures DeliveriesOf(bucket, metas[..0]) == []
  {
    NothingFiled(s);
  }

  lemma NothingFiled(s: Scan)
    ensures Filed(s, s, [], {})
  {
    assert Rooted(s.nodes, s.metaRes, s.roots);
  }

  /** A walk along the directories of row m has ended at `parent`. */
  ghost predicate AtRow(s: Scan, bucket: Node, parent: Node, chain: seq<nat>, m: ObjectMetadata) {
    && Current(s.nodes, parent) && Holds(s.metaRes, parent) && parent.id in s.names
    && Trail(s, chain, parent.id)
    && s.names[parent.id] == [bucket.name] + MetaDirs(m)
  }

  lemma PathEnd(bucket: string, dirs: seq<string>, log: seq<Delivery>)
    ensures [bucket] + dirs[..|dirs|] == [bucket] + dirs && log + [] == log
  {
  }

  lemma SameRunMeans(s0: Scan, s: Scan)
    requires SameRun(s0, s)
    ensures s.metaRes == s0.metaRes
  {
  }

  lemma ReachedRow(s0: Scan, s: Scan, bucket: Node, parent: Node, chain: seq<nat>, m: ObjectMetadata)
    requires OnPath(s0, s, bucket, parent, chain, MetaDirs(m), |MetaDirs(m)|) && IsScannedBucket(s0, bucket)
    ensures Filed(s0, s, [], RowDirs(bucket.name, m)) && AtRow(s, bucket, parent, chain, m)
    ensures IsScannedBucket(s, bucket) && s.metaRes == s0.metaRes
  {
    hide Current, Holds, Trail, Chains, DirsUpTo, SameRun, IsScannedBucket, MetaDirs;
    PathEnd(bucket.name, MetaDirs(m), s0.log);
    StillScanned(s0, s, bucket);
    SameRunMeans(s0, s);
  }

  lemma AtRowFacts(s: Scan, bucket: Node, parent: Node, chain: seq<nat>, m: ObjectMetadata)
    requires AtRow(s, bucket, parent, chain, m)
    ensures Current(s.nodes, parent) && Holds(s.metaRes, parent) && parent.id in s.names && Trail(s, chain, parent.id)
  {
  }

  /** Ensuring the bucket's counter moves nothing. */
  lemma EnsuredRow(s0: Scan, s: Scan, bucket: Node, parent: Node, chain: seq<nat>, m: ObjectMetadata,
                   deliveries: seq<Delivery>, dirs: set<seq<string>>) returns (s': Scan)
    requires Filed(s0, s, deliveries, dirs) && AtRow(s, bucket, parent, chain, m) && IsScannedBucket(s, bucket)
    ensures Filed(s0, s', deliveries, dirs) && AtRow(s', bucket, parent, chain, m) && s'.metaRes == s.metaRes
    ensures s'.nodes == s.nodes && s'.items == s.items && s'.names == s.names && s'.stats == EnsureNodeAggregate(s.stats, bucket.id)
  {
    s' := EnsureFiled(s0, s, bucket, deliveries, dirs);
  }

  lemma EnsureFiled(s0: Scan, s: Scan, bucket: Node, deliveries: seq<Delivery>, dirs: set<seq<string>>) returns (s': Scan)
    requires Filed(s0, s, deliveries, dirs) && IsScannedBucket(s, bucket)
    ensures Filed(s0, s', deliveries, dirs) && IsScannedBucket(s', bucket) && bucket.id in s'.stats
    ensures s'.nodes == s.nodes && s'.items == s.items && s'.names == s.names && s'.metaRes == s.metaRes
    ensures s'.stats == EnsureNodeAggregate(s.stats, bucket.id)
  {
    BucketNamed(s, bucket);
    s' := EnsureKeepsScan(s, bucket.id);
  }

  /** The row's object, if it was stored, completes what the row asks for. */
  lemma RowFiled(s0: Scan, s: Scan, s': Scan, bucket: Node, parent: Node, chain: seq<nat>, m: ObjectMetadata)
    requires Filed(s0, s, [], RowDirs(bucket.name, m)) && AtRow(s, bucket, parent, chain, m) && m.nodeType.ObjectMeta?
    requires ObjectAdded(s, s', Delivery(s.names[parent.id], ObjectName(m), ObjectData(Join(s.names[parent.id]), m)), chain)
    ensures Filed(s0, s', RowDeliveries(bucket.name, m), RowDirs(bucket.name, m))
  {
    hide AtRow, Filed, ObjectAdded, ObjectData, ObjectName, RowDirs;
    AtRowNamed(s, bucket, parent, chain, m);
    ObjectFiled(s0, s, s', Delivery(s.names[parent.id], ObjectName(m), ObjectData(Join(s.names[parent.id]), m)), chain,
                RowDirs(bucket.name, m));
  }

  lemma AtRowNamed(s: Scan, bucket: Node, parent: Node, chain: seq<nat>, m: ObjectMetadata)
    requires AtRow(s, bucket, parent, chain, m)
    ensures parent.id in s.names && s.names[parent.id] == [bucket.name] + MetaDirs(m)
  {
  }

  lemma ObjectFiled(s0: Scan, s: Scan, s': Scan, x: Delivery, chain: seq<nat>, dirs: set<seq<string>>)
    requires Filed(s0, s, [], dirs) && ObjectAdded(s, s', x, chain)
    ensures Filed(s0, s', [x], dirs)
  {
    assert s0.log + [] == s0.log;
  }

  lemma BatchFiled(s0: Scan, s: Scan, s': Scan, deliveries: seq<Delivery>, dirs: set<seq<string>>, more: seq<Delivery>, moreDirs: set<seq<string>>)
    requires Filed(s0, s, deliveries, dirs) && Filed(s, s', more, moreDirs)
    ensures Filed(s0, s', deliveries + more, dirs + moreDirs)
  {
    hide SameRun, Chains;
    SameRunTransitive(s0, s, s');
    ConcatAssociative(s0.log, deliveries, more);
  }

  /** A run leaves its buckets' rows alone until the end. */
  lemma StillScanned(s0: Scan, s: Scan, bucket: Node)
    requires SameRun(s0, s) && IsScannedBucket(s0, bucket)
    ensures IsScannedBucket(s, bucket)
  {
  }

  lemma FiledSameRun(s0: Scan, s: Scan, deliveries: seq<Delivery>, dirs: set<seq<string>>)
    requires Filed(s0, s, deliveries, dirs)
    ensures SameRun(s0, s) && s.metaRes == s0.metaRes
  {
  }

  /** The row of the bucket itself only opens its counter. */
  lemma BucketRowFiled(s: Scan, bucket: Node, m: ObjectMetadata) returns (s': Scan)
    requires IsScannedBucket(s, bucket) && m.nodeType.BucketMeta?
    ensures Filed(s, s', RowDeliveries(bucket.name, m), RowDirs(bucket.name, m)) && s'.metaRes == s.metaRes
    ensures s'.nodes == s.nodes && s'.items == s.items && s'.names == s.names && s'.stats == EnsureNodeAggregate(s.stats, bucket.id)
  {
    NothingFiled(s);
    s' := EnsureFiled(s, s, bucket, [], {});
  }

  lemma BatchAbandoned(s0: Scan, s: Scan, s': Scan, deliveries: seq<Delivery>, dirs: set<seq<string>>)
    requires Filed(s0, s, deliveries, dirs) && SameRun(s, s')
    ensures SameRun(s0, s')
  {
    SameRunTransitive(s0, s, s');
  }

  lemma MoreFiled(s0: Scan, s: Scan, s': Scan, bucket: Node, metas: seq<ObjectMetadata>, n: nat)
    requires n < |metas| && IsScannedBucket(s, bucket)
    requires Filed(s0, s, DeliveriesOf(bucket.name, metas[..n]), DirectoriesOf(bucket.name, metas[..n]))
    requires Filed(s, s', RowDeliveries(bucket.name, metas[n]), RowDirs(bucket.name, metas[n]))
    ensures Filed(s0, s', DeliveriesOf(bucket.name, metas[..n + 1]), DirectoriesOf(bucket.name, metas[..n + 1]))
    ensures |DeliveriesOf(bucket.name, metas[..n + 1])|
            == |DeliveriesOf(bucket.name, metas[..n])| + (if metas[n].nodeType.ObjectMeta? then 1 else 0)
    ensures IsScannedBucket(s', bucket) && s'.metaRes == s.metaRes
  {
    hide Filed, IsScannedBucket, DeliveriesOf, DirectoriesOf, RowDirs;
    OneMoreRow(bucket.name, metas, n);
    BatchFiled(s0, s, s', DeliveriesOf(bucket.name, metas[..n]), DirectoriesOf(bucket.name, metas[..n]),
               RowDeliveries(bucket.name, metas[n]), RowDirs(bucket.name, metas[n]));
    FiledSameRun(s, s', RowDeliveries(bucket.name, metas[n]), RowDirs(bucket.name, metas[n]));
    StillScanned(s, s', bucket);
  }
}

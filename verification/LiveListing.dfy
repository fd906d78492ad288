/** The scanner's live listing of one directory: `ListNodes`. */
module LiveListing {
  import opened GoStrings
  import opened ObjectKeys
  import opened Sequences
  import opened ObjectStorageScanner

  datatype NodeType = BucketEntry | PrefixEntry | LeafEntry

  datatype ObjectNode = ObjectNode(name: string, path: string, kind: NodeType, sizeBytes: int)

  datatype ListAnswer = Listed(nodes: seq<ObjectNode>) | NotAllowed

  // ---- What each key contributes -------------------------------------------------

  /** Below the listed directory a key is nothing, makes a sub-directory known, or is an object of the directory. */
  datatype Seen = Ignored | InDir(name: string) | Leaf(name: string)

  function See(key: string, clean: string): Seen {
    var rel := Relative(key, clean);
    if rel == "" then Ignored
    else
      var parts := Split(rel);
      if ContainsReservedObjectSegment(parts) then Ignored
      else if |parts| > 1 || HasSuffix(key, "/") then InDir(parts[0])
      else Leaf(parts[0])
  }

  function DirNode(bucket: string, clean: string, name: string): ObjectNode {
    ObjectNode(name, JoinPath(bucket, clean, name), PrefixEntry, 0)
  }

  function LeafNode(bucket: string, clean: string, name: string, size: int): ObjectNode {
    ObjectNode(name, JoinPath(bucket, clean, name), LeafEntry, size)
  }

  function SubDirs(listed: seq<S3Object>, clean: string): set<string> {
    if listed == [] then {}
    else
      var seen := See(listed[|listed| - 1].key, clean);
      SubDirs(listed[..|listed| - 1], clean) + (if seen.InDir? then {seen.name} else {})
  }

  function Leaves(bucket: string, listed: seq<S3Object>, clean: string): seq<ObjectNode> {
    if listed == [] then []
    else
      var last := listed[|listed| - 1];
      var seen := See(last.key, clean);
      Leaves(bucket, listed[..|listed| - 1], clean) + (if seen.Leaf? then [LeafNode(bucket, clean, seen.name, last.size)] else [])
  }

  predicate Shown(n: ObjectNode) {
    n.name != "" && !IsReservedObjectSegment(n.name) && !HasReservedObjectSegment(n.path)
  }

  function FilterReservedNodes(nodes: seq<ObjectNode>): seq<ObjectNode> {
    if nodes == [] then []
    else FilterReservedNodes(nodes[..|nodes| - 1]) + (if Shown(nodes[|nodes| - 1]) then [nodes[|nodes| - 1]] else [])
  }

  predicate NameLe(a: ObjectNode, b: ObjectNode) {
    StrLe(a.name, b.name)
  }

  /** The nodes of a directory: its sub-directories, each once, and its objects, filtered and sorted by name. */
  ghost predicate IsListing(bucket: string, clean: string, listed: seq<S3Object>, nodes: seq<ObjectNode>) {
    && Sorted(nodes, NameLe)
    && exists dirs: seq<ObjectNode> ::
         && ListsDirs(bucket, clean, listed, dirs)
         && multiset(nodes) == multiset(FilterReservedNodes(dirs + Leaves(bucket, listed, clean)))
  }

  ghost predicate ListsDirs(bucket: string, clean: string, listed: seq<S3Object>, dirs: seq<ObjectNode>) {
    && NoDuplicates(dirs)
    && (forall n :: n in dirs ==> n.name in SubDirs(listed, clean) && n == DirNode(bucket, clean, n.name))
    && (forall name :: name in SubDirs(listed, clean) ==> DirNode(bucket, clean, name) in dirs)
  }

  /** What a listing of a directory path shows. */
  ghost predicate IsNodesAnswer(s: S3Scanner, path: string, r: ListAnswer) {
    var (bucket, prefix) := SplitPath(TrimSpace(path));
    var clean := if prefix != "" && !HasSuffix(prefix, "/") then prefix + "/" else prefix;
    if bucket !in s.allowedBucket then r == NotAllowed
    else r.Listed? && IsListing(bucket, clean, ListObjects(s, bucket, clean), r.nodes)
  }

  /** What `ListNodes` answers: a blank path asks for the buckets. */
  ghost predicate IsListNodesAnswer(s: S3Scanner, path: string, r: ListAnswer) {
    if TrimSpace(path) == "" then IsBucketList(s, r) else IsNodesAnswer(s, path, r)
  }

  /** The bucket list: every allowed bucket once, sorted. */
  ghost predicate IsBucketList(s: S3Scanner, r: ListAnswer) {
    && r.Listed? && Sorted(r.nodes, NameLe) && NoDuplicates(r.nodes)
    && forall n :: n in r.nodes <==> n.name in s.allowedBucket && n == ObjectNode(n.name, n.name, BucketEntry, 0)
  }

  /** Every answer is in the order of the names. */
  lemma ListedInOrder(s: S3Scanner, path: string, r: ListAnswer, i: nat, j: nat)
    requires IsListNodesAnswer(s, path, r) && r.Listed? && i < j < |r.nodes|
    ensures IsAtMost(r.nodes[i].name, r.nodes[j].name)
  {
    hide StrLe, IsAtMost, SplitPath, TrimSpace;
    StrLeIsAtMost(r.nodes[i].name, r.nodes[j].name);
    assert NameLe(r.nodes[i], r.nodes[j]);
  }

  lemma NameOrder()
    ensures TotalPreorder(NameLe)
  {
    forall a: ObjectNode, b: ObjectNode ensures NameLe(a, b) || NameLe(b, a) {
      StrLeTotal(a.name, b.name);
    }
    forall a: ObjectNode, b: ObjectNode, c: ObjectNode | NameLe(a, b) && NameLe(b, c) ensures NameLe(a, c) {
      StrLeTransitive(a.name, b.name, c.name);
    }
  }

  lemma OneMoreSeen(bucket: string, listed: seq<S3Object>, clean: string, n: nat)
    requires n < |listed|
    ensures var seen := See(listed[n].key, clean);
            && SubDirs(listed[..n + 1], clean) == SubDirs(listed[..n], clean) + (if seen.InDir? then {seen.name} else {})
            && Leaves(bucket, listed[..n + 1], clean)
               == Leaves(bucket, listed[..n], clean) + (if seen.Leaf? then [LeafNode(bucket, clean, seen.name, listed[n].size)] else [])
  {
    assert listed[..n + 1][..n] == listed[..n];
  }

  // ---- The loops -----------------------------------------------------------------------

  /** The loop over the listing: `dirMap` and `objectNodes`. */
  method CollectNodes(bucket: string, clean: string, listed: seq<S3Object>)
    returns (dirMap: map<string, ObjectNode>, objectNodes: seq<ObjectNode>)
    ensures dirMap.Keys == SubDirs(listed, clean)
    ensures forall name :: name in dirMap ==> dirMap[name] == DirNode(bucket, clean, name)
    ensures objectNodes == Leaves(bucket, listed, clean)
  {
    hide Split, Relative, ContainsReservedObjectSegment, HasSuffix, JoinPath;
    dirMap, objectNodes := map[], [];
    var n := 0;
    while n < |listed|
      invariant 0 <= n <= |listed|
      invariant dirMap.Keys == SubDirs(listed[..n], clean)
      invariant forall name :: name in dirMap ==> dirMap[name] == DirNode(bucket, clean, name)
      invariant objectNodes == Leaves(bucket, listed[..n], clean)
    {
      var entry := listed[n];
      OneMoreSeen(bucket, listed, clean, n);
      n := n + 1;
      var relative := Relative(entry.key, clean);
      if relative == "" {
        continue;
      }
      var parts := Split(relative);
      if ContainsReservedObjectSegment(parts) {
        continue;
      }
      var name := parts[0];
      var fullPath := JoinPath(bucket, clean, name);
      if |parts| > 1 || HasSuffix(entry.key, "/") {
        if name !in dirMap {
          dirMap := dirMap[name := ObjectNode(name, fullPath, PrefixEntry, 0)];
        }
        continue;
      }
      objectNodes := objectNodes + [ObjectNode(name, fullPath, LeafEntry, entry.size)];
    }
    assert listed[..n] == listed;
  }

  /** Ranges over a map in no particular order. */
  method DirNodes(bucket: string, clean: string, dirMap: map<string, ObjectNode>) returns (nodes: seq<ObjectNode>)
    requires forall name :: name in dirMap ==> dirMap[name] == DirNode(bucket, clean, name)
    ensures NoDuplicates(nodes)
    ensures forall n :: n in nodes ==> n.name in dirMap && n == DirNode(bucket, clean, n.name)
    ensures forall name :: name in dirMap ==> DirNode(bucket, clean, name) in nodes
  {
    hide JoinPath;
    nodes := [];
    var todo := dirMap.Keys;
    while todo != {}
      invariant todo <= dirMap.Keys
      invariant NoDuplicates(nodes)
      invariant forall n :: n in nodes ==> n.name in dirMap.Keys - todo && n == DirNode(bucket, clean, n.name)
      invariant forall name :: name in dirMap.Keys - todo ==> DirNode(bucket, clean, name) in nodes
    {
      var name :| name in todo;
      NoDuplicatesSnoc(nodes, dirMap[name]);
      nodes := nodes + [dirMap[name]];
      todo := todo - {name};
    }
  }

  method ListBuckets(s: S3Scanner) returns (r: ListAnswer)
    ensures IsBucketList(s, r)
  {
    var nodes: seq<ObjectNode> := [];
    var todo := s.allowedBucket;
    while todo != {}
      invariant todo <= s.allowedBucket
      invariant NoDuplicates(nodes)
      invariant forall n :: n in nodes <==> n.name in s.allowedBucket - todo && n == ObjectNode(n.name, n.name, BucketEntry, 0)
    {
      var bucket :| bucket in todo;
      NoDuplicatesSnoc(nodes, ObjectNode(bucket, bucket, BucketEntry, 0));
      nodes := nodes + [ObjectNode(bucket, bucket, BucketEntry, 0)];
      todo := todo - {bucket};
    }
    NameOrder();
    var sorted := SortSlice(nodes, NameLe);
    PermutationKeepsDistinct(nodes, sorted);
    forall n: ObjectNode ensures n in sorted <==> n in nodes {
      PermutationMembers(nodes, sorted, n);
    }
    r := Listed(sorted);
  }

  method ListNodes(s: S3Scanner, path: string) returns (r: ListAnswer)
    ensures IsListNodesAnswer(s, path, r)
  {
    hide TrimSpace, SplitPath, IsListing, HasSuffix, ListObjects, IsBucketList;
    if TrimSpace(path) == "" {
      r := ListBuckets(s);
      return;
    }
    var (bucket, prefix) := SplitPath(TrimSpace(path));
    if bucket !in s.allowedBucket {
      return NotAllowed;
    }
    var cleanPrefix := prefix;
    if cleanPrefix != "" && !HasSuffix(cleanPrefix, "/") {
      cleanPrefix := cleanPrefix + "/";
    }
    var nodes := ListDirectory(bucket, cleanPrefix, ListObjects(s, bucket, cleanPrefix));
    r := Listed(nodes);
  }

  method ListDirectory(bucket: string, clean: string, listed: seq<S3Object>) returns (nodes: seq<ObjectNode>)
    ensures IsListing(bucket, clean, listed, nodes)
  {
    hide SubDirs, Leaves, FilterReservedNodes, DirNode;
    var dirMap, objectNodes := CollectNodes(bucket, clean, listed);
    var dirs := DirNodes(bucket, clean, dirMap);
    assert ListsDirs(bucket, clean, listed, dirs);
    NameOrder();
    nodes := SortSlice(FilterReservedNodes(dirs + objectNodes), NameLe);
  }
}

/** Name chains of the rows below a set of top-level nodes: the abstract directory tree
    that the rows represent, free of ids. */
module NodeNames {
  import opened Options
  import opened GoStrings
  import opened MetadataForest

  type Names = map<nat, seq<string>>

  /** `names` gives every row in the trees of `roots`, and no other, the names on its path from the root;
      no two of those rows share a chain. */
  ghost predicate IsNaming(nodes: Nodes, roots: set<nat>, names: Names) {
    && roots <= names.Keys
    && (forall i {:trigger NamedRow(nodes, roots, names, i)} :: i in names ==> NamedRow(nodes, roots, names, i))
    && (forall i {:trigger nodes[i].parent} :: i in nodes && nodes[i].parent.Some? && nodes[i].parent.value in names ==> i in names)
    && DistinctChains(names)
  }

  ghost predicate ShareChain(names: Names, i: nat, j: nat) {
    i in names && j in names && names[i] == names[j]
  }

  ghost predicate DistinctChains(names: Names) {
    forall i, j {:trigger ShareChain(names, i, j)} :: ShareChain(names, i, j) ==> i == j
  }

  ghost predicate NamedRow(nodes: Nodes, roots: set<nat>, names: Names, i: nat)
    requires i in names
  {
    && i in nodes
    && if i in roots then nodes[i].parent == None && names[i] == [nodes[i].name]
       else
         && nodes[i].parent.Some?
         && nodes[i].parent.value in names
         && names[i] == names[nodes[i].parent.value] + [nodes[i].name]
  }

  lemma SnocInjective<T>(a: seq<T>, x: T, b: seq<T>, y: T)
    requires a + [x] == b + [y]
    ensures a == b && x == y
  {
    assert (a + [x])[..|a|] == a && (b + [y])[..|b|] == b;
    assert (a + [x])[|a|] == x && (b + [y])[|b|] == y;
    assert |a| == |b|;
  }

  /** A row whose chain extends another row's chain by one name is that row's child. */
  lemma NamedChild(nodes: Nodes, roots: set<nat>, names: Names, i: nat, p: nat, name: string)
    requires Linked(nodes) && IsNaming(nodes, roots, names) && i in names && p in names
    requires names[i] == names[p] + [name]
    ensures i in nodes && i !in roots && nodes[i].parent == Some(p) && nodes[i].name == name
  {
    assert NamedRow(nodes, roots, names, i) && NamedRow(nodes, roots, names, p);
    NamedDepth(nodes, roots, names, p);
    var q := nodes[i].parent.value;
    SnocInjective(names[q], nodes[i].name, names[p], name);
    assert ShareChain(names, q, p);
  }

  lemma {:induction false} NamingIsSubtree(nodes: Nodes, roots: set<nat>, names: Names, i: nat)
    requires Linked(nodes) && IsNaming(nodes, roots, names) && i in nodes
    ensures i in names <==> RootOf(nodes, i) in roots
    decreases nodes[i].depth
  {
    assert LinkedRow(nodes, i);
    RootOfParent(nodes, i);
    if i in names {
      assert NamedRow(nodes, roots, names, i);
    }
    if nodes[i].parent.Some? {
      NamingIsSubtree(nodes, roots, names, nodes[i].parent.value);
    } else if RootOf(nodes, i) in roots {
      assert i in roots;
    }
  }

  lemma {:induction false} NamedDepth(nodes: Nodes, roots: set<nat>, names: Names, i: nat)
    requires Linked(nodes) && IsNaming(nodes, roots, names) && i in names
    ensures i in nodes && |names[i]| == nodes[i].depth
    decreases |names[i]|
  {
    assert NamedRow(nodes, roots, names, i);
    assert LinkedRow(nodes, i);
    if i !in roots {
      NamedDepth(nodes, roots, names, nodes[i].parent.value);
    }
  }

  /** Every non-empty initial part of a chain is the chain of a named row. */
  lemma {:induction false} NamedAncestor(nodes: Nodes, roots: set<nat>, names: Names, i: nat, k: nat) returns (j: nat)
    requires IsNaming(nodes, roots, names) && i in names
    requires 1 <= k <= |names[i]|
    ensures j in names && names[j] == names[i][..k]
    decreases |names[i]|
  {
    j := i;
    if k == |names[i]| {
      assert names[i][..k] == names[i];
    } else {
      assert NamedRow(nodes, roots, names, i);
      var p := nodes[i].parent.value;
      assert names[i][..k] == names[p][..k];
      j := NamedAncestor(nodes, roots, names, p, k);
    }
  }

  lemma JoinNonEmpty(parts: seq<string>)
    requires |parts| >= 1 && parts[0] != ""
    ensures Join(parts) != ""
  {
  }

  /** `full_name` of a labelled row is its name chain joined with slashes. */
  lemma {:induction false} FullNameIsJoin(nodes: Nodes, roots: set<nat>, names: Names, i: nat)
    requires Linked(nodes) && Labelled(nodes) && IsNaming(nodes, roots, names) && i in names
    requires forall r :: r in roots ==> r in nodes && nodes[r].name != ""
    requires i in nodes && !Stranded(nodes[i])
    ensures |names[i]| == nodes[i].depth >= 1
    ensures names[i][0] != ""
    ensures nodes[i].fullName == Join(names[i])
    decreases nodes[i].depth
  {
    assert LinkedRow(nodes, i) && NamedRow(nodes, roots, names, i) && LabelledRow(nodes, i);
    if i !in roots {
      var p := nodes[i].parent.value;
      FullNameIsJoin(nodes, roots, names, p);
      JoinSnoc(names[p], nodes[i].name);
      JoinNonEmpty(names[p]);
    }
  }

  /** The naming is determined by the rows. */
  lemma {:induction false} NamingUnique(nodes: Nodes, roots: set<nat>, m: Names, n: Names, i: nat)
    requires Linked(nodes) && IsNaming(nodes, roots, m) && IsNaming(nodes, roots, n) && i in nodes
    ensures i in m <==> i in n
    ensures i in m ==> m[i] == n[i]
    decreases nodes[i].depth
  {
    NamingIsSubtree(nodes, roots, m, i);
    NamingIsSubtree(nodes, roots, n, i);
    assert LinkedRow(nodes, i);
    if i in m {
      assert NamedRow(nodes, roots, m, i) && NamedRow(nodes, roots, n, i);
      if i !in roots {
        NamingUnique(nodes, roots, m, n, nodes[i].parent.value);
      }
    }
  }
}

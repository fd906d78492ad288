/** Sorting as Go's `sort` package does it, and filtering. */
module Sequences {

  ghost predicate TotalPreorder<T(!new)>(le: (T, T) -> bool) {
    && (forall a, b :: le(a, b) || le(b, a))
    && (forall a, b, c :: le(a, b) && le(b, c) ==> le(a, c))
  }

  ghost predicate Sorted<T>(xs: seq<T>, le: (T, T) -> bool) {
    forall i, j :: 0 <= i < j < |xs| ==> le(xs[i], xs[j])
  }

  function Insert<T(!new)>(x: T, xs: seq<T>, le: (T, T) -> bool): (r: seq<T>)
    ensures multiset(r) == multiset(xs) + multiset{x}
    ensures |r| == |xs| + 1
  {
    if xs == [] then [x]
    else if le(x, xs[0]) then [x] + xs
    else
      assert xs == [xs[0]] + xs[1..];
      [xs[0]] + Insert(x, xs[1..], le)
  }

  lemma {:induction false} InsertSorted<T(!new)>(x: T, xs: seq<T>, le: (T, T) -> bool)
    requires TotalPreorder(le) && Sorted(xs, le)
    ensures Sorted(Insert(x, xs, le), le)
  {
    if xs != [] && !le(x, xs[0]) {
      InsertSorted(x, xs[1..], le);
      var rest := Insert(x, xs[1..], le);
      assert le(xs[0], x);
      forall k | 0 <= k < |rest| ensures le(xs[0], rest[k]) {
        assert rest[k] in multiset(rest);
        assert rest[k] == x || rest[k] in xs[1..];
      }
    } else if xs != [] {
      forall k | 0 <= k < |xs| ensures le(x, xs[k]) {
        assert k == 0 || le(xs[0], xs[k]);
      }
    }
  }

  /** A stable sort: the result is ordered, is a permutation of the input, and keeps the order of equals. */
  function Sort<T(!new)>(xs: seq<T>, le: (T, T) -> bool): (r: seq<T>)
    requires TotalPreorder(le)
    ensures Sorted(r, le)
    ensures multiset(r) == multiset(xs)
    ensures |r| == |xs|
  {
    if xs == [] then []
    else
      assert xs == [xs[0]] + xs[1..];
      var rest := Sort(xs[1..], le);
      assert Sorted(Insert(xs[0], rest, le), le) by { InsertSorted(xs[0], rest, le); }
      Insert(xs[0], rest, le)
  }

  /** y, if a sort may not tell it from x. */
  function IfAlike<T>(y: T, x: T, le: (T, T) -> bool): seq<T> {
    if le(x, y) && le(y, x) then [y] else []
  }

  /** The elements of a sequence that a sort may not tell from x, in order. */
  ghost function Alike<T(!new)>(xs: seq<T>, x: T, le: (T, T) -> bool): seq<T> {
    if xs == [] then [] else IfAlike(xs[0], x, le) + Alike(xs[1..], x, le)
  }

  lemma AlikeCons<T(!new)>(y: T, xs: seq<T>, x: T, le: (T, T) -> bool)
    ensures Alike([y] + xs, x, le) == IfAlike(y, x, le) + Alike(xs, x, le)
  {
    hide IfAlike;
    assert ([y] + xs)[1..] == xs;
  }

  /** Of two elements that the order separates at most one is like x, so it does not matter which comes first. */
  lemma AlikeSwap<T(!new)>(y: T, z: T, x: T, le: (T, T) -> bool)
    requires !le(y, z) && (le(y, x) && le(x, z) ==> le(y, z))
    ensures IfAlike(z, x, le) + IfAlike(y, x, le) == IfAlike(y, x, le) + IfAlike(z, x, le)
  {
  }

  lemma InsertCases<T(!new)>(y: T, xs: seq<T>, le: (T, T) -> bool)
    ensures Insert(y, xs, le) == if xs == [] || le(y, xs[0]) then [y] + xs else [xs[0]] + Insert(y, xs[1..], le)
  {
  }

  lemma TransitiveAt<T(!new)>(le: (T, T) -> bool, y: T, x: T, z: T)
    requires TotalPreorder(le)
    ensures le(y, x) && le(x, z) ==> le(y, z)
  {
  }

  lemma {:induction false} InsertStable<T(!new)>(y: T, xs: seq<T>, x: T, le: (T, T) -> bool)
    requires TotalPreorder(le)
    ensures Alike(Insert(y, xs, le), x, le) == IfAlike(y, x, le) + Alike(xs, x, le)
  {
    hide *;
    InsertCases(y, xs, le);
    AlikeCons(y, xs, x, le);
    if xs != [] && !le(y, xs[0]) {
      var z, rest := xs[0], xs[1..];
      assert xs == [z] + rest;
      AlikeCons(z, Insert(y, rest, le), x, le);
      AlikeCons(z, rest, x, le);
      InsertStable(y, rest, x, le);
      TransitiveAt(le, y, x, z);
      AlikeSwap(y, z, x, le);
      Regroup(IfAlike(z, x, le), IfAlike(y, x, le), Alike(rest, x, le));
    }
  }

  lemma Regroup<T>(a: seq<T>, b: seq<T>, c: seq<T>)
    requires a + b == b + a
    ensures a + (b + c) == b + (a + c)
  {
    assert a + (b + c) == (a + b) + c;
    assert b + (a + c) == (b + a) + c;
  }

  /** Elements that the order does not separate keep their relative order. */
  lemma {:induction false} SortStable<T(!new)>(xs: seq<T>, x: T, le: (T, T) -> bool)
    requires TotalPreorder(le)
    ensures Alike(Sort(xs, le), x, le) == Alike(xs, x, le)
  {
    hide TotalPreorder, Insert, IfAlike, Sorted;
    if xs != [] {
      SortStable(xs[1..], x, le);
      InsertStable(xs[0], Sort(xs[1..], le), x, le);
    }
  }

  /** `sort.Slice`: ordered and a permutation; the order of equals is not promised. */
  method SortSlice<T(!new)>(xs: seq<T>, le: (T, T) -> bool) returns (r: seq<T>)
    requires TotalPreorder(le)
    ensures Sorted(r, le)
    ensures multiset(r) == multiset(xs)
    ensures |r| == |xs|
  {
    r := Sort(xs, le);
  }

  /** Of two ordered permutations of each other the least elements agree, when equivalent elements are equal. */
  lemma LeastAgrees<T(!new)>(a: seq<T>, b: seq<T>, le: (T, T) -> bool)
    requires TotalPreorder(le) && Sorted(a, le) && Sorted(b, le) && multiset(a) == multiset(b) && a != []
    requires forall x, y :: x in a && y in a && le(x, y) && le(y, x) ==> x == y
    ensures b != [] && a[0] == b[0]
  {
    assert |multiset(a)| == |a| && |multiset(b)| == |b|;
    PermutationMembers(a, b, a[0]);
    PermutationMembers(a, b, b[0]);
    var i :| 0 <= i < |b| && b[i] == a[0];
    var j :| 0 <= j < |a| && a[j] == b[0];
    assert le(a[0], a[0]);
    assert le(b[0], b[i]) && le(a[0], a[j]);
  }

  lemma DropSameFirst<T>(x: T, a: seq<T>, b: seq<T>)
    requires multiset([x] + a) == multiset([x] + b)
    ensures multiset(a) == multiset(b)
  {
    assert multiset([x] + a) - multiset{x} == multiset(a);
    assert multiset([x] + b) - multiset{x} == multiset(b);
  }

  /** So the whole of them agree. */
  lemma {:induction false} OrderedPermutationsAgree<T(!new)>(a: seq<T>, b: seq<T>, le: (T, T) -> bool)
    requires TotalPreorder(le) && Sorted(a, le) && Sorted(b, le) && multiset(a) == multiset(b)
    requires forall x, y :: x in a && y in a && le(x, y) && le(y, x) ==> x == y
    ensures a == b
  {
    hide TotalPreorder;
    if a == [] {
      assert |multiset(b)| == 0;
    } else {
      LeastAgrees(a, b, le);
      assert a == [a[0]] + a[1..];
      assert b == [a[0]] + b[1..];
      DropSameFirst(a[0], a[1..], b[1..]);
      OrderedPermutationsAgree(a[1..], b[1..], le);
    }
  }

  // ---- Last elements -----------------------------------------------------------

  lemma FrontLast<T>(xs: seq<T>)
    requires xs != []
    ensures xs == xs[..|xs| - 1] + [xs[|xs| - 1]]
  {
  }

  lemma ConcatFront<T>(a: seq<T>, b: seq<T>)
    requires b != []
    ensures a + b != [] && (a + b)[..|a + b| - 1] == a + b[..|b| - 1] && (a + b)[|a + b| - 1] == b[|b| - 1]
  {
  }

  lemma ConcatAssociative<T>(a: seq<T>, b: seq<T>, c: seq<T>)
    ensures a + (b + c) == a + b + c
  {
  }

  // ---- Permutations ---------------------------------------------------------

  ghost predicate NoDuplicates<T>(xs: seq<T>) {
    forall i, j :: 0 <= i < j < |xs| ==> xs[i] != xs[j]
  }

  lemma NoDuplicatesSnoc<T>(xs: seq<T>, x: T)
    ensures NoDuplicates(xs + [x]) <==> NoDuplicates(xs) && x !in xs
  {
    var ys := xs + [x];
    assert forall i :: 0 <= i < |xs| ==> ys[i] == xs[i];
    assert ys[|xs|] == x;
  }

  lemma {:induction false} CountAtMostOne<T>(xs: seq<T>, v: T)
    requires NoDuplicates(xs)
    ensures multiset(xs)[v] <= 1
  {
    if xs != [] {
      CountAtMostOne(xs[1..], v);
      assert xs == [xs[0]] + xs[1..];
    }
  }

  lemma PermutationKeepsDistinct<T>(xs: seq<T>, ys: seq<T>)
    requires multiset(xs) == multiset(ys) && NoDuplicates(xs)
    ensures NoDuplicates(ys)
  {
    forall i, j | 0 <= i < j < |ys| ensures ys[i] != ys[j] {
      CountAtMostOne(xs, ys[i]);
      assert ys == ys[..j] + [ys[j]] + ys[j + 1..];
      assert ys[i] in ys[..j];
    }
  }

  lemma PermutationMembers<T>(xs: seq<T>, ys: seq<T>, x: T)
    requires multiset(xs) == multiset(ys)
    ensures x in xs <==> x in ys
    ensures |xs| == |ys|
  {
    assert x in xs <==> x in multiset(xs);
    assert x in ys <==> x in multiset(ys);
    assert |multiset(xs)| == |xs| && |multiset(ys)| == |ys|;
  }

  /** The sequence without its j-th element, and the rest of a permutation of it. */
  lemma RemoveOne<T>(xs: seq<T>, ys: seq<T>) returns (j: nat)
    requires xs != [] && multiset(xs) == multiset(ys)
    ensures j < |ys| && ys[j] == xs[|xs| - 1]
    ensures multiset(xs[..|xs| - 1]) == multiset(ys[..j] + ys[j + 1..])
  {
    var x := xs[|xs| - 1];
    assert xs == xs[..|xs| - 1] + [x];
    PermutationMembers(xs, ys, x);
    j :| 0 <= j < |ys| && ys[j] == x;
    assert ys == ys[..j] + [x] + ys[j + 1..];
    assert multiset(ys) == multiset(ys[..j]) + multiset{x} + multiset(ys[j + 1..]);
    assert multiset(xs) == multiset(xs[..|xs| - 1]) + multiset{x};
    assert multiset(ys[..j] + ys[j + 1..]) == multiset(ys[..j]) + multiset(ys[j + 1..]);
    assert multiset(xs[..|xs| - 1]) == multiset(xs) - multiset{x};
  }
}

/** The database's `orderBy`, modelled as a stable insertion sort under a
    caller-supplied "comes no later than" relation. */
module Ordering {

  /** Any two elements can be compared. */
  ghost predicate Total<T(!new)>(leq: (T, T) -> bool)
  {
    forall a, b :: leq(a, b) || leq(b, a)
  }

  ghost predicate Transitive<T(!new)>(leq: (T, T) -> bool)
  {
    forall a, b, c :: leq(a, b) && leq(b, c) ==> leq(a, c)
  }

  /** Each element comes no later than its successor. */
  predicate SortedBy<T>(s: seq<T>, leq: (T, T) -> bool)
  {
    forall i :: 0 < i < |s| ==> leq(s[i - 1], s[i])
  }

  /** Inserts `x` before the first element it comes no later than. */
  function Insert<T(!new)>(x: T, s: seq<T>, leq: (T, T) -> bool): (r: seq<T>)
    ensures |r| == |s| + 1 && multiset(r) == multiset(s) + multiset{x}
    ensures r[0] == x || (s != [] && r[0] == s[0])
  {
    if s == [] || leq(x, s[0]) then
      [x] + s
    else
      var t := Insert(x, s[1..], leq);
      assert s == [s[0]] + s[1..];
      [s[0]] + t
  }

  lemma {:induction false} InsertSorted<T(!new)>(x: T, s: seq<T>, leq: (T, T) -> bool)
    requires Total(leq) && SortedBy(s, leq)
    ensures SortedBy(Insert(x, s, leq), leq)
  {
    if s != [] && !leq(x, s[0]) {
      assert leq(s[0], x);
      var t := Insert(x, s[1..], leq);
      InsertSorted(x, s[1..], leq);
      assert |s| > 1 ==> leq(s[0], s[1]);
      var r := [s[0]] + t;
      forall i | 0 < i < |r| ensures leq(r[i - 1], r[i]) {
        if i > 1 { assert r[i - 1] == t[i - 2] && r[i] == t[i - 1]; }
      }
    }
  }

  /** The elements of `s` rearranged so that they are sorted by `leq`
      (sortedness is lemma SortSorted). */
  function Sort<T(!new)>(s: seq<T>, leq: (T, T) -> bool): (r: seq<T>)
    ensures |r| == |s| && multiset(r) == multiset(s)
  {
    if s == [] then []
    else
      assert s == [s[0]] + s[1..];
      Insert(s[0], Sort(s[1..], leq), leq)
  }

  /** Sorting neither adds nor drops an element. */
  lemma SortMembers<T(!new)>(s: seq<T>, leq: (T, T) -> bool)
    ensures forall x :: x in Sort(s, leq) <==> x in s
  {
    var r := Sort(s, leq);
    forall x ensures x in r <==> x in s {
      assert x in r <==> multiset(r)[x] > 0;
      assert x in s <==> multiset(s)[x] > 0;
    }
  }

  /** Every position of the sorted sequence holds an element of the input. */
  lemma SortedElementIn<T(!new)>(s: seq<T>, leq: (T, T) -> bool, i: int)
    requires 0 <= i < |Sort(s, leq)|
    ensures Sort(s, leq)[i] in s
  {
    SortMembers(s, leq);
  }

  /** Every element of the input has a position in the sorted sequence. */
  lemma SortedHasElement<T(!new)>(s: seq<T>, leq: (T, T) -> bool, x: T)
    requires x in s
    ensures exists i :: 0 <= i < |Sort(s, leq)| && Sort(s, leq)[i] == x
  {
    SortMembers(s, leq);
  }

  lemma {:induction false} SortSorted<T(!new)>(s: seq<T>, leq: (T, T) -> bool)
    requires Total(leq)
    ensures SortedBy(Sort(s, leq), leq)
  {
    if s != [] {
      SortSorted(s[1..], leq);
      InsertSorted(s[0], Sort(s[1..], leq), leq);
    }
  }

  /** Under a transitive relation, sorted neighbours give a sorted whole. */
  lemma {:induction false} SortedPairwise<T(!new)>(s: seq<T>, leq: (T, T) -> bool, i: int, j: int)
    requires Transitive(leq) && SortedBy(s, leq)
    requires 0 <= i < j < |s|
    ensures leq(s[i], s[j])
  {
    if j > i + 1 {
      SortedPairwise(s, leq, i, j - 1);
    }
  }

  /** Set extensionality, in the form needed to pick a member. */
  lemma NoMemberMeansEmpty(s: set<int>)
    ensures (forall y :: y !in s) ==> s == {}
  {
    if forall y :: y !in s {
      assert s == {};
    }
  }

  /** Every non-empty finite set of integers has a least element. */
  lemma {:induction false} HasMin(s: set<int>)
    requires s != {}
    ensures exists m :: m in s && forall x :: x in s ==> m <= x
    decreases s
  {
    NoMemberMeansEmpty(s);
    var x :| x in s;
    if s != {x} {
      HasMin(s - {x});
      var m :| m in s - {x} && forall y :: y in s - {x} ==> m <= y;
      var least := if x < m then x else m;
      forall y | y in s ensures least <= y {
        if y != x { assert y in s - {x}; }
      }
    } else {
      assert forall y :: y in s ==> x <= y;
    }
  }

  /** The least element of a non-empty finite set. */
  function Min(s: set<int>): (m: int)
    requires s != {}
    ensures m in s && forall x :: x in s ==> m <= x
  {
    HasMin(s);
    var m :| m in s && forall x :: x in s ==> m <= x;
    m
  }

  /** The elements of `s` in ascending order. */
  function Ascending(s: set<int>): (r: seq<int>)
    ensures |r| == |s|
    ensures forall x :: x in r <==> x in s
    ensures forall i :: 0 < i < |r| ==> r[i - 1] < r[i]
    decreases s
  {
    if s == {} then []
    else
      var m := Min(s);
      var rest := Ascending(s - {m});
      var r := [m] + rest;
      assert |s - {m}| == |s| - 1;
      assert forall x :: x in r <==> x == m || x in rest;
      forall i | 0 < i < |r| ensures r[i - 1] < r[i] {
        if i == 1 {
          assert r[1] == rest[0] && rest[0] in s - {m};
        } else {
          assert r[i - 1] == rest[i - 2] && r[i] == rest[i - 1];
        }
      }
      r
  }

  /** A table's rows in ascending key order: every row exactly once. */
  function Rows<V(!new)>(m: map<int, V>): (r: seq<V>)
    ensures |r| == |m|
    ensures forall i :: 0 <= i < |r| ==> r[i] == m[Ascending(m.Keys)[i]]
    ensures forall v :: v in r <==> exists k :: k in m && m[k] == v
  {
    var ks := Ascending(m.Keys);
    var r := seq(|ks|, i requires 0 <= i < |ks| => m[ks[i]]);
    assert forall i :: 0 <= i < |r| ==> r[i] == m[ks[i]];
    forall v | v in r ensures exists k :: k in m && m[k] == v {
      var i :| 0 <= i < |r| && r[i] == v;
      assert m[ks[i]] == v;
    }
    forall k | k in m ensures m[k] in r {
      var i :| 0 <= i < |ks| && ks[i] == k;
      assert r[i] == m[k];
    }
    r
  }

  /** `a` is `b` with some elements left out, the rest in order. */
  predicate Subsequence<T(==)>(a: seq<T>, b: seq<T>)
    decreases |b|
  {
    a == [] || (b != [] && ((a[0] == b[0] && Subsequence(a[1..], b[1..])) || Subsequence(a, b[1..])))
  }

  /** The elements of `s` that satisfy `keep`, in their original order. */
  function Filter<T(!new)>(s: seq<T>, keep: T -> bool): (r: seq<T>)
    ensures |r| <= |s|
    ensures Subsequence(r, s)
    ensures forall x :: x in r <==> x in s && keep(x)
    ensures forall x :: multiset(r)[x] == if keep(x) then multiset(s)[x] else 0
  {
    if s == [] then []
    else
      var rest := Filter(s[1..], keep);
      assert s == [s[0]] + s[1..];
      if keep(s[0]) then [s[0]] + rest else rest
  }
}

/** Array.prototype.sort with a three-way comparator, as a stable insertion sort. */
module Sorting {

  /** `cmp` orders the members of `dom` totally; distinct members may tie. */
  ghost predicate Preorder<T(!new)>(cmp: (T, T) -> int, dom: set<T>) {
    && (forall a, b | a in dom && b in dom :: cmp(a, b) <= 0 <==> cmp(b, a) >= 0)
    && (forall a, b, c | a in dom && b in dom && c in dom && cmp(a, b) <= 0 && cmp(b, c) <= 0 :: cmp(a, c) <= 0)
  }

  /** `cmp` is a strict total order on `dom`: only equal members tie. */
  ghost predicate StrictOrder<T(!new)>(cmp: (T, T) -> int, dom: set<T>) {
    && Preorder(cmp, dom)
    && (forall a, b | a in dom && b in dom :: cmp(a, b) == 0 <==> a == b)
  }

  /** Every element of `s` is at or above `x`. */
  ghost predicate Above<T>(cmp: (T, T) -> int, x: T, s: seq<T>) {
    forall y | y in s :: cmp(x, y) <= 0
  }

  ghost predicate Sorted<T(!new)>(cmp: (T, T) -> int, s: seq<T>) {
    s == [] || (Above(cmp, s[0], s[1..]) && Sorted(cmp, s[1..]))
  }

  function Elements<T>(s: seq<T>): set<T> {
    set x | x in s
  }

  lemma ElementsConcat<T>(a: seq<T>, b: seq<T>)
    ensures Elements(a + b) == Elements(a) + Elements(b)
  {
  }

  lemma ElementsSnoc<T>(s: seq<T>)
    requires s != []
    ensures Elements(s) == Elements(s[..|s| - 1]) + {s[|s| - 1]}
  {
    assert s == s[..|s| - 1] + [s[|s| - 1]];
  }

  /** Taking one more element of `s`. */
  lemma ElementsTake<T(!new)>(s: seq<T>, i: nat)
    requires i < |s|
    ensures Elements(s[..i + 1]) == Elements(s[..i]) + {s[i]} && s[i] in Elements(s)
    ensures NoDuplicates(s) ==> s[i] !in Elements(s[..i])
    ensures s[..|s|] == s
  {
    assert s[..i + 1] == s[..i] + [s[i]];
  }

  ghost predicate NoDuplicates<T(!new)>(s: seq<T>) {
    forall i, j | 0 <= i < j < |s| :: s[i] != s[j]
  }

  function Insert<T>(cmp: (T, T) -> int, x: T, s: seq<T>): seq<T> {
    if s == [] || cmp(x, s[0]) < 0 then [x] + s else [s[0]] + Insert(cmp, x, s[1..])
  }

  function Sort<T>(cmp: (T, T) -> int, s: seq<T>): seq<T> {
    if s == [] then [] else Insert(cmp, s[|s| - 1], Sort(cmp, s[..|s| - 1]))
  }

  lemma {:induction false} InsertPermutes<T>(cmp: (T, T) -> int, x: T, s: seq<T>)
    ensures multiset(Insert(cmp, x, s)) == multiset(s) + multiset{x}
  {
    if s != [] && cmp(x, s[0]) >= 0 {
      InsertPermutes(cmp, x, s[1..]);
      assert s == [s[0]] + s[1..];
    }
  }

  lemma {:induction false} SortPermutes<T>(cmp: (T, T) -> int, s: seq<T>)
    ensures multiset(Sort(cmp, s)) == multiset(s)
  {
    if s != [] {
      SortPermutes(cmp, s[..|s| - 1]);
      InsertPermutes(cmp, s[|s| - 1], Sort(cmp, s[..|s| - 1]));
      assert s == s[..|s| - 1] + [s[|s| - 1]];
    }
  }

  lemma SameElements<T>(a: seq<T>, b: seq<T>)
    requires multiset(a) == multiset(b)
    ensures Elements(a) == Elements(b) && |a| == |b|
  {
    forall x ensures x in a <==> x in b {
      assert x in a <==> x in multiset(a);
      assert x in b <==> x in multiset(b);
    }
    assert |multiset(a)| == |a| && |multiset(b)| == |b|;
  }

  lemma AboveTransitive<T(!new)>(cmp: (T, T) -> int, x: T, y: T, s: seq<T>, dom: set<T>)
    requires Preorder(cmp, dom) && x in dom && y in dom && Elements(s) <= dom
    requires cmp(x, y) <= 0 && Above(cmp, y, s)
    ensures Above(cmp, x, s)
  {
    forall z | z in s ensures cmp(x, z) <= 0 {
      assert z in Elements(s) && cmp(y, z) <= 0;
    }
  }

  lemma {:induction false} InsertSorts<T(!new)>(cmp: (T, T) -> int, x: T, s: seq<T>, dom: set<T>)
    requires Preorder(cmp, dom) && x in dom && Elements(s) <= dom && Sorted(cmp, s)
    ensures Sorted(cmp, Insert(cmp, x, s))
  {
    if s != [] {
      assert s[0] in Elements(s);
      assert s == [s[0]] + s[1..];
      if cmp(x, s[0]) < 0 {
        assert Elements(s[1..]) <= dom by { assert Elements(s[1..]) <= Elements(s); }
        AboveTransitive(cmp, x, s[0], s[1..], dom);
        assert ([x] + s)[1..] == s;
      } else {
        var rest := Insert(cmp, x, s[1..]);
        assert Elements(s[1..]) <= Elements(s);
        InsertSorts(cmp, x, s[1..], dom);
        InsertPermutes(cmp, x, s[1..]);
        forall y | y in rest ensures cmp(s[0], y) <= 0 {
          assert y in multiset(rest);
          assert y == x || y in s[1..];
        }
        assert ([s[0]] + rest)[1..] == rest;
      }
    }
  }

  lemma {:induction false} SortSorts<T(!new)>(cmp: (T, T) -> int, s: seq<T>, dom: set<T>)
    requires Preorder(cmp, dom) && Elements(s) <= dom
    ensures Sorted(cmp, Sort(cmp, s))
    ensures Elements(Sort(cmp, s)) == Elements(s) && |Sort(cmp, s)| == |s|
    ensures NoDuplicates(s) ==> NoDuplicates(Sort(cmp, s))
  {
    SortPermutes(cmp, s);
    SameElements(Sort(cmp, s), s);
    if NoDuplicates(s) {
      DistinctByCount(s);
      CountDistinct(Sort(cmp, s));
    }
    if s != [] {
      var init := s[..|s| - 1];
      assert forall y | y in init :: y in s;
      assert s[|s| - 1] in Elements(s);
      SortSorts(cmp, init, dom);
      InsertSorts(cmp, s[|s| - 1], Sort(cmp, init), dom);
    }
  }

  lemma {:induction false} SortedPairwise<T(!new)>(cmp: (T, T) -> int, s: seq<T>, i: nat, j: nat)
    requires Sorted(cmp, s) && i < j < |s|
    ensures cmp(s[i], s[j]) <= 0
  {
    if i == 0 {
      assert s[j] == s[1..][j - 1];
    } else {
      SortedPairwise(cmp, s[1..], i - 1, j - 1);
    }
  }

  /** A sequence has no duplicates exactly when it is as long as its set of elements is large. */
  lemma {:induction false} DistinctByCount<T(!new)>(s: seq<T>)
    requires NoDuplicates(s)
    ensures |Elements(s)| == |s|
  {
    if s != [] {
      var last := s[|s| - 1];
      DistinctByCount(s[..|s| - 1]);
      assert Elements(s) == Elements(s[..|s| - 1]) + {last};
    }
  }

  lemma {:induction false} CountBound<T>(s: seq<T>)
    ensures |Elements(s)| <= |s|
  {
    if s != [] {
      CountBound(s[..|s| - 1]);
      assert Elements(s) == Elements(s[..|s| - 1]) + {s[|s| - 1]};
    }
  }

  lemma {:induction false} CountDistinct<T(!new)>(s: seq<T>)
    requires |Elements(s)| == |s|
    ensures NoDuplicates(s)
  {
    if s != [] {
      var init, last := s[..|s| - 1], s[|s| - 1];
      CountBound(init);
      assert Elements(s) == Elements(init) + {last};
      assert last !in Elements(init);
      CountDistinct(init);
    }
  }

  /** Enumerates a set; the order is arbitrary, as the iteration order of a JavaScript Set is. */
  method Enumerate<T(==, !new)>(s: set<T>) returns (r: seq<T>)
    ensures Elements(r) == s && NoDuplicates(r) && |r| == |s|
  {
    r := [];
    var rest := s;
    while rest != {}
      invariant Elements(r) + rest == s && Elements(r) !! rest && NoDuplicates(r)
      decreases rest
    {
      var x :| x in rest;
      ghost var before := r;
      r := r + [x];
      assert Elements(r) == Elements(before) + {x};
      rest := rest - {x};
    }
    DistinctByCount(r);
  }
}

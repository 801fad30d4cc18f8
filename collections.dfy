/** Sequence helpers shared by the table models: order-keeping filtering and
    constraints between the rows of a table (ordering by id, uniqueness). */
module Collections {

  /** The elements of `s` that satisfy `p`, in their order. Defined on the last
      element so that a loop over a prefix extends it one step at a time. */
  function Filter<T>(s: seq<T>, p: T -> bool): (r: seq<T>)
    ensures |r| <= |s|
    ensures forall i :: 0 <= i < |r| ==> r[i] in s && p(r[i])
    ensures forall i :: 0 <= i < |s| && p(s[i]) ==> s[i] in r
  {
    if s == [] then []
    else Filter(s[..|s| - 1], p) + (if p(s[|s| - 1]) then [s[|s| - 1]] else [])
  }

  /** Filtering a list that starts with `x` decides `x` first and filters the
      rest after it. */
  lemma {:induction false} FilterCons<T>(x: T, s: seq<T>, p: T -> bool)
    ensures Filter([x] + s, p) == (if p(x) then [x] else []) + Filter(s, p)
  {
    if s == [] {
      assert [x] + s == [x];
    } else {
      var init, last := s[..|s| - 1], s[|s| - 1];
      assert ([x] + s)[..|[x] + s| - 1] == [x] + init;
      FilterCons(x, init, p);
    }
  }

  /** Filtering keeps everything exactly when every element qualifies. */
  lemma {:induction false} FilterAll<T>(s: seq<T>, p: T -> bool)
    ensures Filter(s, p) == s <==> forall i :: 0 <= i < |s| ==> p(s[i])
  {
    if s != [] {
      var init, last := s[..|s| - 1], s[|s| - 1];
      assert s == init + [last];
      FilterAll(init, p);
      if Filter(s, p) == s {
        assert |Filter(init, p)| <= |init|;
        assert p(last);
        assert Filter(init, p) == init;
      }
    }
  }

  /** Filtering leaves nothing exactly when no element qualifies. */
  lemma {:induction false} FilterNone<T>(s: seq<T>, p: T -> bool)
    ensures Filter(s, p) == [] <==> forall i :: 0 <= i < |s| ==> !p(s[i])
  {
    if s != [] {
      var init := s[..|s| - 1];
      FilterNone(init, p);
      assert forall i :: 0 <= i < |init| ==> init[i] == s[i];
    }
  }

  /** `rel` holds between every element and each one after it. */
  ghost predicate Pairwise<T>(s: seq<T>, rel: (T, T) -> bool) {
    forall i, j :: 0 <= i < j < |s| ==> rel(s[i], s[j])
  }

  /** A filtered table keeps every ordering or uniqueness constraint that
      holds between its rows. */
  lemma {:induction false} FilterPairwise<T>(s: seq<T>, p: T -> bool, rel: (T, T) -> bool)
    requires Pairwise(s, rel)
    ensures Pairwise(Filter(s, p), rel)
  {
    if s != [] {
      var init, last := s[..|s| - 1], s[|s| - 1];
      FilterPairwise(init, p, rel);
      var r := Filter(s, p);
      var fi := Filter(init, p);
      forall i, j | 0 <= i < j < |r|
        ensures rel(r[i], r[j])
      {
        if j >= |fi| {
          assert r[i] == fi[i];
          assert r[i] in init;
          var k :| 0 <= k < |init| && init[k] == r[i];
          assert s[k] == r[i];
        }
      }
    }
  }

  /** Appending rows keeps a pairwise constraint when it holds within each part
      and from every old row to every new one. */
  lemma PairwiseAppend<T>(a: seq<T>, b: seq<T>, rel: (T, T) -> bool)
    requires Pairwise(a, rel) && Pairwise(b, rel)
    requires forall i, j :: 0 <= i < |a| && 0 <= j < |b| ==> rel(a[i], b[j])
    ensures Pairwise(a + b, rel)
  {
    forall i, j | 0 <= i < j < |a + b|
      ensures rel((a + b)[i], (a + b)[j])
    {
      if j < |a| {
        assert (a + b)[i] == a[i] && (a + b)[j] == a[j];
      } else if i < |a| {
        assert (a + b)[i] == a[i] && (a + b)[j] == b[j - |a|];
      } else {
        assert (a + b)[i] == b[i - |a|] && (a + b)[j] == b[j - |a|];
      }
    }
  }

  // ------------------------------------------------------------ list.remove

  /** `list.remove(x)`: the first element equal to `x` goes. */
  function RemoveFirst<T(==)>(s: seq<T>, x: T): (r: seq<T>)
    ensures x in s ==> |r| == |s| - 1
    ensures x !in s ==> r == s
  {
    if s == [] then []
    else if s[0] == x then s[1..]
    else [s[0]] + RemoveFirst(s[1..], x)
  }

  /** The removals one after the other, in the order of `bad`. */
  function RemoveEach<T(==)>(s: seq<T>, bad: seq<T>): seq<T> {
    if bad == [] then s
    else RemoveFirst(RemoveEach(s, bad[..|bad| - 1]), bad[|bad| - 1])
  }

  predicate Distinct<T(==)>(s: seq<T>) {
    forall i, j :: 0 <= i < j < |s| ==> s[i] != s[j]
  }

  /** Membership outside `gone`, as a filter. */
  function NotIn<T>(gone: set<T>): T -> bool {
    y => y !in gone
  }

  /** In a list without repeated elements, removing an element that is there
      keeps every other element, in order. */
  lemma {:induction false} RemoveFirstDistinct<T>(s: seq<T>, x: T, gone: set<T>)
    requires Distinct(s) && x in s && x !in gone
    ensures RemoveFirst(Filter(s, NotIn(gone)), x) == Filter(s, NotIn(gone + {x}))
  {
    var init, last := s[..|s| - 1], s[|s| - 1];
    assert Distinct(init);
    var before := Filter(init, NotIn(gone));
    assert Filter(s, NotIn(gone)) == before + (if last !in gone then [last] else []);
    assert Filter(s, NotIn(gone + {x})) == Filter(init, NotIn(gone + {x})) + (if last !in gone + {x} then [last] else []);
    if last == x {
      assert x !in init;
      FilterSame(init, NotIn(gone), NotIn(gone + {x}));
      assert x !in before;
      RemoveFirstAppend(before, x);
    } else {
      assert x in init;
      RemoveFirstDistinct(init, x, gone);
      assert x in before;
      if last !in gone {
        RemoveFirstBefore(before, x, last);
        assert RemoveFirst(Filter(s, NotIn(gone)), x) == Filter(init, NotIn(gone + {x})) + [last];
      } else {
        assert Filter(s, NotIn(gone)) == before;
      }
    }
  }

  /** Two predicates that agree on every element of `s` filter it alike. */
  lemma {:induction false} FilterSame<T>(s: seq<T>, p: T -> bool, q: T -> bool)
    requires forall i :: 0 <= i < |s| ==> p(s[i]) == q(s[i])
    ensures Filter(s, p) == Filter(s, q)
  {
    if s != [] {
      FilterSame(s[..|s| - 1], p, q);
    }
  }

  lemma {:induction false} RemoveFirstAppend<T>(s: seq<T>, x: T)
    requires x !in s
    ensures RemoveFirst(s + [x], x) == s
  {
    if s != [] {
      assert (s + [x])[1..] == s[1..] + [x];
      RemoveFirstAppend(s[1..], x);
    }
  }

  lemma {:induction false} RemoveFirstBefore<T>(s: seq<T>, x: T, y: T)
    requires x != y && x in s
    ensures RemoveFirst(s + [y], x) == RemoveFirst(s, x) + [y]
  {
    if s[0] != x {
      assert (s + [y])[1..] == s[1..] + [y];
      RemoveFirstBefore(s[1..], x, y);
    } else {
      assert (s + [y])[1..] == s[1..] + [y];
    }
  }

  /** Without repeated elements, removing the elements of `bad` one by one
      keeps exactly the others, in order. */
  lemma {:induction false} RemoveEachIsFilter<T>(s: seq<T>, bad: seq<T>)
    requires Distinct(s) && Distinct(bad)
    requires forall k :: 0 <= k < |bad| ==> bad[k] in s
    ensures RemoveEach(s, bad) == Filter(s, NotIn(set x | x in bad))
  {
    if bad == [] {
      FilterAll(s, NotIn(set x | x in bad));
    } else {
      var init, x := bad[..|bad| - 1], bad[|bad| - 1];
      assert Distinct(init);
      RemoveEachIsFilter(s, init);
      var gone := set z | z in init;
      assert x !in gone;
      RemoveFirstDistinct(s, x, gone);
      assert bad == init + [x];
      ElementsOfSnoc(init, x);
    }
  }

  lemma ElementsOfSnoc<T>(init: seq<T>, x: T)
    ensures (set z | z in init) + {x} == set z | z in init + [x]
  {
  }

  lemma TakeOneMore<T>(s: seq<T>, m: nat)
    requires m < |s|
    ensures s[..m + 1][..m] == s[..m] && s[..m + 1] == s[..m] + [s[m]]
  {
  }

  lemma TakeAll<T>(s: seq<T>)
    ensures s[..|s|] == s
  {
  }

  lemma TakeNone<T>(s: seq<T>)
    ensures s[..0] == []
  {
  }

  /** Overwriting the first element after a prefix. */
  lemma ReplaceAfter<T>(done: seq<T>, rest: seq<T>, x: T)
    requires rest != []
    ensures (done + rest)[|done| := x] == done + [x] + rest[1..]
  {
  }

  /** Filtering a list without repeats gives one without repeats. */
  lemma FilterDistinct<T>(s: seq<T>, p: T -> bool)
    requires Distinct(s)
    ensures Distinct(Filter(s, p))
  {
    var neq := (a: T, b: T) => a != b;
    assert Pairwise(s, neq);
    FilterPairwise(s, p, neq);
  }
}

/** The stable sort by descending score that orders search hits
    (`scored_entities.sort(key=lambda x: x[0], reverse=True)` in
    backend/crud.py). Python's sort is stable, also with `reverse=True`: hits
    with equal scores keep their original order. */
module ScoreSort {

  predicate SortedDesc<T>(s: seq<(int, T)>) {
    forall i, j :: 0 <= i < j < |s| ==> s[i].0 >= s[j].0
  }

  /** The items with score `v`, in order. */
  function WithScore<T>(s: seq<(int, T)>, v: int): (r: seq<(int, T)>)
    ensures forall i :: 0 <= i < |r| ==> r[i].0 == v
  {
    if s == [] then []
    else WithScore(s[..|s| - 1], v) + (if s[|s| - 1].0 == v then [s[|s| - 1]] else [])
  }

  /** Insert `x` into a descending sequence after every item whose score is at least its own. */
  function Insert<T>(s: seq<(int, T)>, x: (int, T)): (r: seq<(int, T)>)
    requires SortedDesc(s)
    ensures SortedDesc(r)
    ensures multiset(r) == multiset(s) + multiset{x}
    ensures |r| == |s| + 1
  {
    if s == [] then [x]
    else if s[|s| - 1].0 >= x.0 then s + [x]
    else
      var init := s[..|s| - 1];
      var last := s[|s| - 1];
      assert s == init + [last];
      SortedInit(s);
      var r0 := Insert(init, x);
      InsertBeforeLast(init, last, x, r0);
      r0 + [last]
  }

  lemma SortedInit<T>(s: seq<(int, T)>)
    requires SortedDesc(s) && s != []
    ensures SortedDesc(s[..|s| - 1])
  {
  }

  /** Putting the last item back behind the insertion into the rest. */
  lemma InsertBeforeLast<T>(init: seq<(int, T)>, last: (int, T), x: (int, T), r0: seq<(int, T)>)
    requires SortedDesc(init + [last]) && last.0 < x.0
    requires SortedDesc(r0) && multiset(r0) == multiset(init) + multiset{x}
    ensures SortedDesc(r0 + [last])
    ensures multiset(r0 + [last]) == multiset(init + [last]) + multiset{x}
  {
    forall i | 0 <= i < |r0| ensures r0[i].0 >= last.0 {
      assert r0[i] in multiset(r0);
      if r0[i] != x {
        assert r0[i] in multiset(init);
        var k :| 0 <= k < |init| && init[k] == r0[i];
        assert (init + [last])[k] == init[k] && (init + [last])[|init|] == last;
      }
    }
  }

  /** Insertion sort, taking the items in order. */
  function SortDesc<T>(s: seq<(int, T)>): (r: seq<(int, T)>)
    ensures SortedDesc(r)
    ensures multiset(r) == multiset(s)
  {
    if s == [] then []
    else
      assert s == s[..|s| - 1] + [s[|s| - 1]];
      Insert(SortDesc(s[..|s| - 1]), s[|s| - 1])
  }

  lemma WithScoreSnoc<T>(s: seq<(int, T)>, e: (int, T), v: int)
    ensures WithScore(s + [e], v) == WithScore(s, v) + (if e.0 == v then [e] else [])
  {
    assert (s + [e])[..|s|] == s;
  }

  lemma {:induction false} InsertWithScore<T>(s: seq<(int, T)>, x: (int, T), v: int)
    requires SortedDesc(s)
    ensures WithScore(Insert(s, x), v) == WithScore(s, v) + (if x.0 == v then [x] else [])
  {
    if s == [] || s[|s| - 1].0 >= x.0 {
      WithScoreSnoc(s, x, v);
    } else {
      var init := s[..|s| - 1];
      InsertWithScore(init, x, v);
      InsertPastLast(s, x, v);
    }
  }

  lemma InsertUnfold<T>(s: seq<(int, T)>, x: (int, T))
    requires SortedDesc(s) && s != [] && s[|s| - 1].0 < x.0
    ensures SortedDesc(s[..|s| - 1])
    ensures Insert(s, x) == Insert(s[..|s| - 1], x) + [s[|s| - 1]]
  {
  }

  /** The step of `InsertWithScore` where `x` moves in front of the last item. */
  lemma InsertPastLast<T>(s: seq<(int, T)>, x: (int, T), v: int)
    requires SortedDesc(s) && s != [] && s[|s| - 1].0 < x.0
    requires WithScore(Insert(s[..|s| - 1], x), v) == WithScore(s[..|s| - 1], v) + (if x.0 == v then [x] else [])
    ensures WithScore(Insert(s, x), v) == WithScore(s, v) + (if x.0 == v then [x] else [])
  {
    var init := s[..|s| - 1];
    var last := s[|s| - 1];
    var r0 := Insert(init, x);
    var X: seq<(int, T)> := if x.0 == v then [x] else [];
    var L: seq<(int, T)> := if last.0 == v then [last] else [];
    assert s == init + [last];
    assert WithScore(Insert(s, x), v) == WithScore(r0, v) + L by {
      InsertUnfold(s, x);
      WithScoreSnoc(r0, last, v);
    }
    assert WithScore(s, v) == WithScore(init, v) + L by {
      WithScoreSnoc(init, last, v);
    }
    assert X == [] || L == [];
    SwapEmpty(WithScore(init, v), X, L);
  }

  lemma SwapEmpty<T>(a: seq<T>, x: seq<T>, l: seq<T>)
    requires x == [] || l == []
    ensures a + x + l == a + l + x
  {
  }

  /** Stability: among the hits with any one score, the sort keeps the input order. */
  lemma {:induction false} SortStable<T>(s: seq<(int, T)>, v: int)
    ensures WithScore(SortDesc(s), v) == WithScore(s, v)
  {
    if s != [] {
      var init := s[..|s| - 1];
      SortStable(init, v);
      InsertWithScore(SortDesc(init), s[|s| - 1], v);
    }
  }
}

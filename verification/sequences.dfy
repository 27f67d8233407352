/** Sequence operations the server uses for ordering and paging: reversal,
    SQL `OFFSET … LIMIT …` windows and Python slices with their negative-index
    rules. */
module Sequences {

  function Reverse<T>(s: seq<T>): (r: seq<T>)
    ensures |r| == |s|
    ensures forall i :: 0 <= i < |s| ==> r[i] == s[|s| - 1 - i]
  {
    if s == [] then [] else Reverse(s[1..]) + [s[0]]
  }

  function Min(a: int, b: int): int {
    if a < b then a else b
  }

  /** `OFFSET skip LIMIT limit`: the items from position `skip` on, at most `limit` of them. */
  function Window<T>(s: seq<T>, skip: nat, limit: nat): (r: seq<T>)
    ensures |r| == Min(limit, if skip < |s| then |s| - skip else 0)
    ensures forall i :: 0 <= i < |r| ==> skip + i < |s| && r[i] == s[skip + i]
  {
    if skip >= |s| then [] else s[skip..Min(skip + limit, |s|)]
  }

  /** Where a Python slice bound lands in a sequence of length `n`: a negative
      bound counts from the end, and either kind is clamped into `[0, n]`. */
  function SliceBound(i: int, n: nat): (r: nat)
    ensures r <= n
    ensures 0 <= i <= n ==> r == i
    ensures i > n ==> r == n
    ensures i < 0 && i + n >= 0 ==> r == i + n
    ensures i + n < 0 ==> r == 0
  {
    if i < 0 then (if i + n < 0 then 0 else i + n) else if i > n then n else i
  }

  /** Python's `s[a:b]`. */
  function PySlice<T>(s: seq<T>, a: int, b: int): (r: seq<T>)
    ensures a <= b ==> |r| <= b - a
    ensures |r| == if SliceBound(a, |s|) < SliceBound(b, |s|) then SliceBound(b, |s|) - SliceBound(a, |s|) else 0
    ensures SliceBound(a, |s|) + |r| <= |s|
    ensures forall i :: 0 <= i < |r| ==> r[i] == s[SliceBound(a, |s|) + i]
  {
    var lo := SliceBound(a, |s|);
    var hi := SliceBound(b, |s|);
    if lo < hi then s[lo..hi] else []
  }

  /** For a non-negative offset and size, the Python slice `[skip : skip + limit]`
      is the SQL window `OFFSET skip LIMIT limit`. */
  lemma PySliceIsWindow<T>(s: seq<T>, skip: nat, limit: nat)
    ensures PySlice(s, skip, skip + limit) == Window(s, skip, limit)
  {
  }

  /** Consecutive windows tile: page `k + 1` starts where page `k` ends. */
  lemma WindowsTile<T>(s: seq<T>, skip: nat, limit: nat)
    ensures Window(s, skip, limit) + Window(s, skip + limit, limit) == Window(s, skip, 2 * limit)
  {
    var a := Window(s, skip, limit);
    var b := Window(s, skip + limit, limit);
    var c := Window(s, skip, 2 * limit);
    if |a| == limit {
      assert |a + b| == |c|;
      forall i | 0 <= i < |c| ensures (a + b)[i] == c[i] {
        if i >= |a| {
          assert (a + b)[i] == b[i - |a|];
        }
      }
    } else {
      assert b == [];
      assert a == c;
    }
  }

  /** The items a predicate keeps, in order. */
  function FilterSeq<T>(s: seq<T>, keep: T -> bool): (r: seq<T>)
    ensures |r| <= |s|
    ensures forall i :: 0 <= i < |r| ==> keep(r[i]) && r[i] in s
    ensures forall i :: 0 <= i < |s| && keep(s[i]) ==> s[i] in r
  {
    if s == [] then []
    else
      var rest := FilterSeq(s[1..], keep);
      assert forall i :: 1 <= i < |s| ==> s[i] == s[1..][i - 1];
      if keep(s[0]) then [s[0]] + rest else rest
  }

  /** Filtering keeps order: a sequence split in two filters to the kept items
      of the first part followed by those of the second. */
  lemma {:induction false} FilterSeqAppend<T>(a: seq<T>, b: seq<T>, keep: T -> bool)
    ensures FilterSeq(a + b, keep) == FilterSeq(a, keep) + FilterSeq(b, keep)
    decreases |a|
  {
    if a != [] {
      assert (a + b)[0] == a[0];
      assert (a + b)[1..] == a[1..] + b;
      FilterSeqAppend(a[1..], b, keep);
    } else {
      assert a + b == b;
    }
  }

  /** A single item is kept exactly when it passes. */
  lemma FilterSeqOne<T>(x: T, keep: T -> bool)
    ensures FilterSeq([x], keep) == if keep(x) then [x] else []
  {
    assert [x][1..] == [];
  }
}

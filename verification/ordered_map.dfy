/** A string-keyed dictionary that remembers insertion order, as JavaScript
    objects and Python dicts (and the JSON that travels between them) do.
    It is a sequence of entries; writing an existing key replaces that entry's
    value where it stands, writing a new key appends an entry. */
module OrderedMap {
  import opened Options

  type OMap<V> = seq<(string, V)>

  /** No key occurs twice. */
  predicate UniqueKeys<V>(m: OMap<V>) {
    forall i, j :: 0 <= i < j < |m| ==> m[i].0 != m[j].0
  }

  function KeySet<V>(m: OMap<V>): set<string> {
    set i | 0 <= i < |m| :: m[i].0
  }

  lemma KeySetAppend<V>(m: OMap<V>, e: (string, V))
    ensures KeySet(m + [e]) == KeySet(m) + {e.0}
  {
    var r := m + [e];
    assert forall i :: 0 <= i < |m| ==> r[i] == m[i];
    assert r[|m|] == e;
  }

  function Keys<V>(m: OMap<V>): (r: seq<string>)
    ensures |r| == |m|
    ensures forall i :: 0 <= i < |m| ==> r[i] == m[i].0
  {
    if m == [] then [] else Keys(m[..|m| - 1]) + [m[|m| - 1].0]
  }

  /** The values in iteration order (`Object.values`, `dict.values()`). */
  function Values<V>(m: OMap<V>): (r: seq<V>)
    ensures |r| == |m|
    ensures forall i :: 0 <= i < |m| ==> r[i] == m[i].1
  {
    if m == [] then [] else Values(m[..|m| - 1]) + [m[|m| - 1].1]
  }

  /** The value stored under `k`, if any. */
  function Get<V>(m: OMap<V>, k: string): (r: Option<V>)
    ensures r.None? <==> k !in KeySet(m)
    ensures r.Some? ==> exists i :: 0 <= i < |m| && m[i] == (k, r.value)
  {
    if m == [] then None
    else if m[|m| - 1].0 == k then Some(m[|m| - 1].1)
    else
      var r := Get(m[..|m| - 1], k);
      assert KeySet(m) == KeySet(m[..|m| - 1]) + {m[|m| - 1].0};
      r
  }

  /** Where `k` stands in `m`. */
  function IndexOf<V>(m: OMap<V>, k: string): (r: nat)
    requires k in KeySet(m)
    ensures r < |m| && m[r].0 == k
  {
    if m[|m| - 1].0 == k then |m| - 1
    else
      KeySetAppend(m[..|m| - 1], m[|m| - 1]);
      assert m == m[..|m| - 1] + [m[|m| - 1]];
      IndexOf(m[..|m| - 1], k)
  }

  /** With unique keys, the entry at `i` is what lookup of its key finds. */
  lemma GetAt<V>(m: OMap<V>, i: nat)
    requires UniqueKeys(m) && i < |m|
    ensures Get(m, m[i].0) == Some(m[i].1)
  {
    assert m[i].0 in KeySet(m);
  }

  /** `m[k] = v`: replaces the value in place when `k` is present, appends otherwise. */
  function Put<V>(m: OMap<V>, k: string, v: V): (r: OMap<V>)
    requires UniqueKeys(m)
    ensures UniqueKeys(r)
    ensures KeySet(r) == KeySet(m) + {k}
    ensures Get(r, k) == Some(v)
    ensures forall k' :: k' != k ==> Get(r, k') == Get(m, k')
    ensures k in KeySet(m) ==> Keys(r) == Keys(m)
    ensures k !in KeySet(m) ==> r == m + [(k, v)]
  {
    if k in KeySet(m) then
      var i := IndexOf(m, k);
      var r := m[i := (k, v)];
      assert KeySet(r) == KeySet(m) by {
        assert forall j :: 0 <= j < |m| ==> r[j].0 == m[j].0;
      }
      GetAt(r, i);
      assert forall k' :: k' != k ==> Get(r, k') == Get(m, k') by {
        forall k' | k' != k ensures Get(r, k') == Get(m, k') {
          if k' in KeySet(m) {
            var j :| 0 <= j < |m| && m[j].0 == k';
            GetAt(m, j);
            GetAt(r, j);
          }
        }
      }
      r
    else
      var r := m + [(k, v)];
      KeySetAppend(m, (k, v));
      GetAt(r, |m|);
      assert forall k' :: k' != k ==> Get(r, k') == Get(m, k') by {
        forall k' | k' != k ensures Get(r, k') == Get(m, k') {
          if k' in KeySet(m) {
            var j :| 0 <= j < |m| && m[j].0 == k';
            GetAt(m, j);
            GetAt(r, j);
          }
        }
      }
      r
  }

  /** Keeps the entries satisfying `keep`, in order. */
  function Filter<V>(m: OMap<V>, keep: (string, V) -> bool): (r: OMap<V>)
    ensures |r| <= |m|
    ensures forall i :: 0 <= i < |r| ==> keep(r[i].0, r[i].1)
    ensures forall i :: 0 <= i < |r| ==> r[i] in m
    ensures forall i :: 0 <= i < |m| && keep(m[i].0, m[i].1) ==> m[i] in r
    ensures UniqueKeys(m) ==> UniqueKeys(r)
  {
    if m == [] then []
    else
      var init := Filter(m[..|m| - 1], keep);
      var last := m[|m| - 1];
      assert m == m[..|m| - 1] + [last];
      if keep(last.0, last.1) then
        var r := init + [last];
        assert UniqueKeys(m) ==> UniqueKeys(r) by {
          if UniqueKeys(m) {
            forall i | 0 <= i < |init| ensures init[i].0 != last.0 {
              assert init[i] in m[..|m| - 1];
            }
          }
        }
        r
      else init
  }

  /** Filtering keeps order: a dictionary split in two filters to the kept
      entries of the first part followed by those of the second. */
  lemma {:induction false} FilterAppend<V>(a: OMap<V>, b: OMap<V>, keep: (string, V) -> bool)
    ensures Filter(a + b, keep) == Filter(a, keep) + Filter(b, keep)
    decreases |b|
  {
    if b == [] {
      assert a + b == a;
    } else {
      var b0 := b[..|b| - 1];
      var e := b[|b| - 1];
      assert b == b0 + [e];
      assert a + b == (a + b0) + [e];
      FilterSnoc(a + b0, e, keep);
      FilterSnoc(b0, e, keep);
      FilterAppend(a, b0, keep);
    }
  }

  /** One more entry is kept at the end when it passes. */
  lemma FilterSnoc<V>(m: OMap<V>, e: (string, V), keep: (string, V) -> bool)
    ensures Filter(m + [e], keep) == Filter(m, keep) + if keep(e.0, e.1) then [e] else []
  {
    assert (m + [e])[..|m|] == m;
  }

  /** A single entry is kept exactly when it passes. */
  lemma FilterOne<V>(e: (string, V), keep: (string, V) -> bool)
    ensures Filter([e], keep) == if keep(e.0, e.1) then [e] else []
  {
    assert [e][..0] == [];
  }

  /** The Dafny map with the same key/value associations. */
  function ToMap<V>(m: OMap<V>): (r: map<string, V>)
    ensures r.Keys == KeySet(m)
    ensures forall k :: k in r ==> Get(m, k) == Some(r[k])
  {
    if m == [] then map[]
    else
      var init := m[..|m| - 1];
      assert KeySet(m) == KeySet(init) + {m[|m| - 1].0};
      ToMap(init)[m[|m| - 1].0 := m[|m| - 1].1]
  }
}

/** The conversion between the stored attribute dictionary and the ordered,
    editable attribute list of the create and edit pages
    (frontend/src/pages/InsertEntity.jsx, frontend/src/pages/EditEntity.jsx). */
module AttributeCodec {
  import opened Options
  import opened OrderedMap
  import opened Schemas

  /** Every entry is stored under its own record's key. */
  predicate WellKeyed(m: OMap<Attr>) {
    forall i :: 0 <= i < |m| ==> m[i].1.key == m[i].0
  }

  /** The keys of the rows that submission keeps: the non-empty ones. */
  function SavedKeys(rows: seq<Attr>): set<string> {
    set i | 0 <= i < |rows| && rows[i].key != "" :: rows[i].key
  }

  /** Submission: each row with a truthy (non-empty) key is written to the
      dictionary under that key, in list order, so a later row with the same key
      overwrites an earlier one. A key made only of spaces is kept. */
  function Encode(rows: seq<Attr>): (m: OMap<Attr>)
    ensures UniqueKeys(m)
    ensures WellKeyed(m)
    ensures KeySet(m) == SavedKeys(rows)
    ensures |m| <= |rows|
  {
    if rows == [] then []
    else
      var init := rows[..|rows| - 1];
      var a := rows[|rows| - 1];
      var m := Encode(init);
      assert SavedKeys(rows) == SavedKeys(init) + (if a.key != "" then {a.key} else {}) by {
        assert forall i :: 0 <= i < |init| ==> rows[i] == init[i];
      }
      if a.key != "" then
        var r := Put(m, a.key, a);
        assert WellKeyed(r) by {
          forall i | 0 <= i < |r| ensures r[i].1.key == r[i].0 {
            GetAt(r, i);
            if r[i].0 != a.key {
              var j :| 0 <= j < |m| && m[j] == (r[i].0, Get(m, r[i].0).value);
            }
          }
        }
        assert |r| <= |rows| by {
          if a.key in KeySet(m) {
            assert |Keys(r)| == |Keys(m)|;
          }
        }
        r
      else m
  }

  /** Edit-page load: the values of the stored dictionary, in its iteration
      order, keeping only the records whose `active` flag is set. */
  function Decode(m: OMap<Attr>): (rows: seq<Attr>)
    ensures |rows| <= |m|
    ensures forall i :: 0 <= i < |rows| ==> rows[i].active
    ensures forall i :: 0 <= i < |rows| ==> rows[i] in Values(m)
    ensures forall i :: 0 <= i < |m| && m[i].1.active ==> m[i].1 in rows
  {
    if m == [] then []
    else
      var init := Decode(m[..|m| - 1]);
      var a := m[|m| - 1].1;
      assert Values(m) == Values(m[..|m| - 1]) + [a];
      if a.active then init + [a] else init
  }

  /** Loading keeps iteration order: the rows of a dictionary split in two are
      the rows of the first part followed by those of the second. */
  lemma {:induction false} DecodeAppend(a: OMap<Attr>, b: OMap<Attr>)
    ensures Decode(a + b) == Decode(a) + Decode(b)
    decreases |b|
  {
    if b == [] {
      assert a + b == a;
    } else {
      var b0 := b[..|b| - 1];
      var e := b[|b| - 1];
      assert b == b0 + [e];
      assert a + b == (a + b0) + [e];
      DecodeSnoc(a + b0, e);
      DecodeSnoc(b0, e);
      DecodeAppend(a, b0);
    }
  }

  /** One more entry adds its record at the end when the record is active. */
  lemma DecodeSnoc(m: OMap<Attr>, e: (string, Attr))
    ensures Decode(m + [e]) == Decode(m) + if e.1.active then [e.1] else []
  {
    assert (m + [e])[..|m|] == m;
  }

  /** A single entry loads as its record exactly when the record is active. */
  lemma DecodeOne(e: (string, Attr))
    ensures Decode([e]) == if e.1.active then [e.1] else []
  {
    assert [e][..0] == [];
  }

  /** What survives a load followed by an unedited save: the active records
      under a non-empty key. */
  function KeepSaved(m: OMap<Attr>): OMap<Attr> {
    Filter(m, (k: string, a: Attr) => a.active && k != "")
  }

  /** Row `i` is the last row whose key is `k`. */
  predicate LastWithKey(rows: seq<Attr>, i: int, k: string) {
    && 0 <= i < |rows| && rows[i].key == k
    && forall j :: i < j < |rows| ==> rows[j].key != k
  }

  /** One more row changes the dictionary only at that row's key. */
  lemma GetEncodeSnoc(rows: seq<Attr>, k: string)
    requires rows != []
    ensures Get(Encode(rows), k) ==
      if rows[|rows| - 1].key == k && k != "" then Some(rows[|rows| - 1])
      else Get(Encode(rows[..|rows| - 1]), k)
  {
  }

  /** Last row wins: the dictionary entry for a non-empty key `k` is the last
      row in list order whose key is `k`. */
  lemma {:induction false} EncodeLastWins(rows: seq<Attr>, k: string, i: int)
    requires k != ""
    requires LastWithKey(rows, i, k)
    ensures Get(Encode(rows), k) == Some(rows[i])
  {
    var n := |rows| - 1;
    GetEncodeSnoc(rows, k);
    if i < n {
      var init := rows[..n];
      assert LastWithKey(init, i, k);
      EncodeLastWins(init, k, i);
    }
  }

  /** Last row wins, for every non-empty key at once. */
  lemma EncodeGet(rows: seq<Attr>)
    ensures forall k, i :: k != "" && LastWithKey(rows, i, k) ==> Get(Encode(rows), k) == Some(rows[i])
  {
    forall k, i | k != "" && LastWithKey(rows, i, k) ensures Get(Encode(rows), k) == Some(rows[i]) {
      EncodeLastWins(rows, k, i);
    }
  }

  /** A key no row carries is absent from the dictionary. */
  lemma EncodeAbsent(rows: seq<Attr>, k: string)
    requires forall i :: 0 <= i < |rows| ==> rows[i].key != k
    ensures Get(Encode(rows), k) == None
  {
  }

  /** Encoding a decoded dictionary whose entries are stored under their own keys
      gives back exactly the active entries with non-empty keys, in the same
      order: an edit-page load followed by an unedited save drops every inactive
      attribute. */
  lemma {:induction false} EncodeDecode(m: OMap<Attr>)
    requires UniqueKeys(m)
    requires WellKeyed(m)
    ensures Encode(Decode(m)) == KeepSaved(m)
  {
    if m != [] {
      var init := m[..|m| - 1];
      var e := m[|m| - 1];
      assert m == init + [e];
      EncodeDecode(init);
      var rows := Decode(init);
      if e.1.active {
        assert Decode(m) == rows + [e.1];
        assert (rows + [e.1])[..|rows|] == rows;
        if e.0 != "" {
          NewKeyNotKept(init, e);
        }
      }
    }
  }

  /** The last entry's key is not among the kept entries before it. */
  lemma NewKeyNotKept(init: OMap<Attr>, e: (string, Attr))
    requires UniqueKeys(init + [e])
    ensures e.0 !in KeySet(KeepSaved(init))
  {
    var m := init + [e];
    var kept := KeepSaved(init);
    forall j | 0 <= j < |kept| ensures kept[j].0 != e.0 {
      assert kept[j] in init;
      var l :| 0 <= l < |init| && init[l] == kept[j];
      assert m[l] == init[l] && m[|init|] == e;
    }
  }

  /** Corollary: an inactive stored attribute never comes back from an unedited save. */
  lemma InactiveDroppedBySave(m: OMap<Attr>, i: nat)
    requires UniqueKeys(m) && WellKeyed(m)
    requires i < |m| && !m[i].1.active
    ensures m[i].0 !in KeySet(Encode(Decode(m)))
  {
    EncodeDecode(m);
    var kept := KeepSaved(m);
    forall j | 0 <= j < |kept| ensures kept[j].0 != m[i].0 {
      assert kept[j] in m;
      var l :| 0 <= l < |m| && m[l] == kept[j];
      assert m[l].1.active;
    }
  }
}

/** The server's data operations (backend/crud.py) on an in-memory picture of
    the two tables: entities in ascending id order, and tags with unique names.
    Ids are handed out as one more than the largest id in the table. */
module Crud {
  import opened Options
  import opened Strings
  import opened OrderedMap
  import opened Schemas
  import opened Sequences
  import opened ScoreSort
  import opened SqlLike

  datatype Db = Db(entities: seq<Entity>, tags: seq<Tag>)

  predicate IdsAscending(es: seq<Entity>) {
    forall i, j :: 0 <= i < j < |es| ==> es[i].id < es[j].id
  }

  /** The tag table: ids ascending, and the unique constraint on `name`. */
  predicate TagTable(ts: seq<Tag>) {
    && (forall i, j :: 0 <= i < j < |ts| ==> ts[i].id < ts[j].id)
    && (forall i, j :: 0 <= i < j < |ts| ==> ts[i].name != ts[j].name)
  }

  predicate Valid(db: Db) {
    IdsAscending(db.entities) && TagTable(db.tags)
  }

  function NextEntityId(es: seq<Entity>): (r: int)
    requires IdsAscending(es)
    ensures forall i :: 0 <= i < |es| ==> es[i].id < r
  {
    if es == [] then 1 else es[|es| - 1].id + 1
  }

  function NextTagId(ts: seq<Tag>): (r: int)
    requires TagTable(ts)
    ensures forall i :: 0 <= i < |ts| ==> ts[i].id < r
  {
    if ts == [] then 1 else ts[|ts| - 1].id + 1
  }

  function TagNames(ts: seq<Tag>): set<string> {
    set i | 0 <= i < |ts| :: ts[i].name
  }

  /** The entity with id `id` in `es`, if any. */
  function Find(es: seq<Entity>, id: int): (r: Option<Entity>)
    ensures r.None? <==> forall i :: 0 <= i < |es| ==> es[i].id != id
    ensures r.Some? ==> r.value.id == id && r.value in es
  {
    if es == [] then None
    else if es[0].id == id then Some(es[0])
    else
      assert forall i :: 1 <= i < |es| ==> es[i] == es[1..][i - 1];
      Find(es[1..], id)
  }

  /** `get_entity`: the entity with that id, if there is one. */
  function GetEntity(db: Db, id: int): (r: Option<Entity>)
    ensures r.None? <==> forall i :: 0 <= i < |db.entities| ==> db.entities[i].id != id
    ensures r.Some? ==> r.value.id == id && r.value in db.entities
  {
    Find(db.entities, id)
  }

  /** Ids are unique, so the lookup finds the entity at its position. */
  lemma FindAt(es: seq<Entity>, p: nat)
    requires IdsAscending(es) && p < |es|
    ensures Find(es, es[p].id) == Some(es[p])
  {
    var x := Find(es, es[p].id).value;
    var k :| 0 <= k < |es| && es[k] == x;
  }

  /** `get_entities`: newest first, `skip` entities in, at most `limit`: item
      `i` is the `skip + i`-th newest entity. The database's treatment of a
      negative offset or limit is not modelled. */
  function GetEntities(db: Db, skip: nat, limit: nat): (r: seq<Entity>)
    requires Valid(db)
    ensures |r| == Min(limit, if skip < |db.entities| then |db.entities| - skip else 0)
    ensures forall i :: 0 <= i < |r| ==> skip + i < |db.entities| && r[i] == db.entities[|db.entities| - 1 - (skip + i)]
    ensures forall i, j :: 0 <= i < j < |r| ==> r[i].id > r[j].id
  {
    Window(Reverse(db.entities), skip, limit)
  }

  /** The tag name one list entry contributes: none when blank after stripping. */
  function AddedBy(name: string): set<string> {
    if PyStrip(name) != "" then {PyStrip(name)} else {}
  }

  /** The tag names `sync_tags` adds: each name of the list, stripped, unless blank. */
  function Added(names: seq<string>): set<string>
    decreases |names|
  {
    if names == [] then {} else AddedBy(names[0]) + Added(names[1..])
  }

  /** List entry `name` stands for tag name `x`: stripped, it is `x`, and `x` is not blank. */
  predicate Yields(name: string, x: string) {
    PyStrip(name) != "" && PyStrip(name) == x
  }

  lemma AddedCons(names: seq<string>, x: string)
    requires names != []
    ensures x in Added(names) <==> Yields(names[0], x) || x in Added(names[1..])
  {
  }

  /** `Added` holds exactly the stripped non-blank names of the list. */
  lemma {:induction false} AddedExactly(names: seq<string>, x: string)
    ensures x in Added(names) <==> exists i :: 0 <= i < |names| && Yields(names[i], x)
    decreases |names|
  {
    if names != [] {
      var rest := names[1..];
      AddedExactly(rest, x);
      AddedCons(names, x);
      if x in Added(rest) {
        var i :| 0 <= i < |rest| && Yields(rest[i], x);
        assert names[i + 1] == rest[i];
      }
      if exists i :: 0 <= i < |names| && Yields(names[i], x) {
        var i :| 0 <= i < |names| && Yields(names[i], x);
        if i > 0 {
          assert rest[i - 1] == names[i];
        }
      }
    }
  }

  /** One tag name of `sync_tags`: stripped; skipped when blank or already in
      the table, otherwise added with a fresh id. */
  function AddTagName(ts: seq<Tag>, name: string): (r: seq<Tag>)
    requires TagTable(ts)
    ensures TagTable(r)
    ensures TagNames(r) == TagNames(ts) + AddedBy(name)
    ensures ts <= r
  {
    var n := PyStrip(name);
    if n == "" || n in TagNames(ts) then ts
    else
      var t := Tag(NextTagId(ts), n);
      AppendTag(ts, t);
      ts + [t]
  }

  /** A row with a larger id and a new name keeps the table a table. */
  lemma AppendTag(ts: seq<Tag>, t: Tag)
    requires TagTable(ts)
    requires forall i :: 0 <= i < |ts| ==> ts[i].id < t.id
    requires t.name !in TagNames(ts)
    ensures TagTable(ts + [t])
    ensures TagNames(ts + [t]) == TagNames(ts) + {t.name}
    ensures ts <= ts + [t]
  {
    TagNamesAppend(ts, t);
    var r := ts + [t];
    forall i, j | 0 <= i < j < |r| ensures r[i].id < r[j].id && r[i].name != r[j].name {
      if j == |ts| {
        assert r[i] == ts[i] && ts[i].name in TagNames(ts);
      }
    }
  }

  lemma TagNamesAppend(ts: seq<Tag>, t: Tag)
    ensures TagNames(ts + [t]) == TagNames(ts) + {t.name}
  {
    var r := ts + [t];
    assert forall i :: 0 <= i < |ts| ==> r[i] == ts[i];
    assert r[|ts|] == t;
  }

  /** `sync_tags`: afterwards the table holds its old rows unchanged, followed
      by new rows, and its names are the old ones plus every non-blank stripped
      name of the list; the unique constraint on names still holds. */
  function SyncTags(ts: seq<Tag>, names: seq<string>): (r: seq<Tag>)
    requires TagTable(ts)
    ensures TagTable(r)
    ensures ts <= r
    ensures TagNames(r) == TagNames(ts) + Added(names)
    decreases |names|
  {
    if names == [] then ts
    else
      var ts1 := AddTagName(ts, names[0]);
      var r := SyncTags(ts1, names[1..]);
      SyncStep(ts, ts1, r, names);
      r
  }

  /** One step of the sync composes with the rest. */
  lemma SyncStep(ts: seq<Tag>, ts1: seq<Tag>, r: seq<Tag>, names: seq<string>)
    requires names != []
    requires ts <= ts1 && ts1 <= r
    requires TagNames(ts1) == TagNames(ts) + AddedBy(names[0])
    requires TagNames(r) == TagNames(ts1) + Added(names[1..])
    ensures ts <= r
    ensures TagNames(r) == TagNames(ts) + Added(names)
  {
    PrefixTrans(ts, ts1, r);
    UnionStep(TagNames(ts), TagNames(ts1), TagNames(r), AddedBy(names[0]), Added(names[1..]), Added(names));
  }

  lemma PrefixTrans<T>(a: seq<T>, b: seq<T>, c: seq<T>)
    requires a <= b && b <= c
    ensures a <= c
  {
    assert c[..|a|] == b[..|a|];
  }

  lemma UnionStep<T>(a: set<T>, b: set<T>, c: set<T>, x: set<T>, y: set<T>, z: set<T>)
    requires b == a + x && c == b + y && z == x + y
    ensures c == a + z
  {
  }

  /** Every non-blank tag of the list is in the table afterwards, and the rows
      `sync_tags` adds carry list names that were not in the table before: no
      name is added twice. */
  lemma SyncTagsAddsListed(ts: seq<Tag>, names: seq<string>)
    requires TagTable(ts)
    ensures forall i :: 0 <= i < |names| && PyStrip(names[i]) != "" ==> PyStrip(names[i]) in TagNames(SyncTags(ts, names))
    ensures forall i :: |ts| <= i < |SyncTags(ts, names)| ==>
      SyncTags(ts, names)[i].name in Added(names) && SyncTags(ts, names)[i].name !in TagNames(ts)
  {
    var r := SyncTags(ts, names);
    forall i | 0 <= i < |names| && PyStrip(names[i]) != "" ensures PyStrip(names[i]) in TagNames(r) {
      AddedExactly(names, PyStrip(names[i]));
    }
    forall i | |ts| <= i < |r| ensures r[i].name in Added(names) && r[i].name !in TagNames(ts) {
      assert r[i].name in TagNames(r);
      forall k | 0 <= k < |ts| ensures ts[k].name != r[i].name {
        assert ts[k] == r[k];
      }
    }
  }

  /** The guard `if entity.tags:` around `sync_tags`; with no tags nothing is
      added either way. */
  function SyncIfAny(ts: seq<Tag>, names: seq<string>): (r: seq<Tag>)
    requires TagTable(ts)
    ensures TagTable(r) && ts <= r
    ensures TagNames(r) == TagNames(ts) + Added(names)
  {
    if names != [] then SyncTags(ts, names) else ts
  }

  lemma AppendAscending(es: seq<Entity>, e: Entity)
    requires IdsAscending(es)
    requires forall i :: 0 <= i < |es| ==> es[i].id < e.id
    ensures IdsAscending(es + [e])
  {
  }

  /** `create_entity`: the tags are synced (when the list is not empty), then
      the body is stored as given under a fresh id, the largest so far. */
  function Create(db: Db, e: EntityBase): (r: (Db, Entity))
    requires Valid(db)
    ensures Valid(r.0)
    ensures r.1.data == e
    ensures forall i :: 0 <= i < |db.entities| ==> db.entities[i].id < r.1.id
    ensures r.0.entities == db.entities + [r.1]
    ensures GetEntity(r.0, r.1.id) == Some(r.1)
    ensures TagNames(r.0.tags) == TagNames(db.tags) + Added(e.tags)
    ensures db.tags <= r.0.tags
  {
    var tags := SyncIfAny(db.tags, e.tags);
    var ent := Entity(NextEntityId(db.entities), e);
    var es := db.entities + [ent];
    AppendAscending(db.entities, ent);
    FindAt(es, |db.entities|);
    (Db(es, tags), ent)
  }

  lemma ReplaceAscending(es: seq<Entity>, k: nat, e: Entity)
    requires IdsAscending(es) && k < |es| && es[k].id == e.id
    ensures IdsAscending(es[k := e])
  {
  }

  /** `update_entity`: with no entity under `id` the answer is `None`;
      otherwise every field is overwritten by the body, the attribute dictionary
      included (no merge with the stored one), and the tags are synced. */
  function Update(db: Db, id: int, e: EntityBase): (r: Option<(Db, Entity)>)
    requires Valid(db)
    ensures r.None? <==> GetEntity(db, id).None?
    ensures r.Some? ==> Valid(r.value.0)
    ensures r.Some? ==> r.value.1 == Entity(id, e)
    ensures r.Some? ==> GetEntity(r.value.0, id) == Some(Entity(id, e))
    ensures r.Some? ==> |r.value.0.entities| == |db.entities|
    ensures r.Some? ==> forall i :: 0 <= i < |db.entities| && db.entities[i].id != id ==>
      r.value.0.entities[i] == db.entities[i]
    ensures r.Some? ==> TagNames(r.value.0.tags) == TagNames(db.tags) + Added(e.tags)
  {
    if GetEntity(db, id).None? then None
    else
      var k := PositionOf(db.entities, id);
      var ent := Entity(id, e);
      var es := db.entities[k := ent];
      var tags := SyncIfAny(db.tags, e.tags);
      ReplaceAscending(db.entities, k, ent);
      FindAt(es, k);
      Some((Db(es, tags), ent))
  }

  function PositionOf(es: seq<Entity>, id: int): (k: nat)
    requires Find(es, id).Some?
    ensures k < |es| && es[k].id == id
  {
    if es[0].id == id then 0 else 1 + PositionOf(es[1..], id)
  }

  lemma RemoveAscending(es: seq<Entity>, k: nat, r: seq<Entity>)
    requires IdsAscending(es) && k < |es|
    requires r == es[..k] + es[k + 1..]
    ensures IdsAscending(r)
    ensures forall i :: 0 <= i < |r| ==> r[i] in es && r[i].id != es[k].id
    ensures forall i :: 0 <= i < |es| && i != k ==> es[i] in r
  {
    forall i | 0 <= i < |es| && i != k ensures es[i] in r {
      if i < k {
        assert r[i] == es[i];
      } else {
        assert r[i - 1] == es[i];
      }
    }
  }

  /** `delete_entity`: with no entity under `id` the answer is `None`;
      otherwise that entity is returned and is gone from the table, and the
      others keep their order. */
  function Delete(db: Db, id: int): (r: Option<(Db, Entity)>)
    requires Valid(db)
    ensures r.None? <==> GetEntity(db, id).None?
    ensures r.Some? ==> Valid(r.value.0) && r.value.0.tags == db.tags
    ensures r.Some? ==> GetEntity(db, id) == Some(r.value.1)
    ensures r.Some? ==> GetEntity(r.value.0, id).None?
    ensures r.Some? ==> |r.value.0.entities| == |db.entities| - 1
    ensures r.Some? ==> forall i :: 0 <= i < |r.value.0.entities| ==>
      r.value.0.entities[i] in db.entities && r.value.0.entities[i].id != id
    ensures r.Some? ==> forall i :: 0 <= i < |db.entities| && db.entities[i].id != id ==>
      db.entities[i] in r.value.0.entities
  {
    if GetEntity(db, id).None? then None
    else
      var k := PositionOf(db.entities, id);
      var es := db.entities[..k] + db.entities[k + 1..];
      RemoveAscending(db.entities, k, es);
      FindAt(db.entities, k);
      Some((Db(es, db.tags), db.entities[k]))
  }

  /** Python's f-string rendering of an optional text: `None` prints as "None". */
  function PyText(s: Option<string>): (r: string)
    ensures s.Some? ==> r == s.value
    ensures s.None? ==> r == "None"
  {
    match s
    case Some(t) => t
    case None => "None"
  }

  /** The text each active attribute contributes: its key, description and remarks. */
  function AttrText(m: OMap<Attr>): string {
    if m == [] then ""
    else
      var a := m[|m| - 1].1;
      AttrText(m[..|m| - 1])
        + (if a.active then " " + a.key + " " + PyText(a.description) + " " + PyText(a.remarks) else "")
  }

  /** The text a query is scored against: name, description (empty when
      missing), type and space-joined tags, then each active attribute. */
  function SearchableText(e: EntityBase): string {
    e.name + " " + OrEmpty(e.description) + " " + e.entityType + " " + Join(e.tags, " ")
      + AttrText(e.attributes)
  }

  function OnlyActive(m: OMap<Attr>): OMap<Attr> {
    Filter(m, (k: string, a: Attr) => a.active)
  }

  lemma {:induction false} AttrTextActive(m: OMap<Attr>)
    ensures AttrText(m) == AttrText(OnlyActive(m))
  {
    if m != [] {
      var init := m[..|m| - 1];
      var last := m[|m| - 1];
      AttrTextActive(init);
      var f := OnlyActive(init);
      if last.1.active {
        assert OnlyActive(m) == f + [last];
        assert (f + [last])[..|f|] == f;
      } else {
        assert OnlyActive(m) == f;
      }
    }
  }

  /** Inactive attributes play no part in search: dropping them leaves the
      searchable text unchanged. */
  lemma SearchIgnoresInactive(e: EntityBase)
    ensures SearchableText(e) == SearchableText(e.(attributes := OnlyActive(e.attributes)))
  {
    AttrTextActive(e.attributes);
  }

  /** The fuzzy score `fuzz.partial_ratio(query, text)`, which comes from a
      library outside this model: any function of the two strings. */
  type Scorer = (string, string) -> int

  function Score(score: Scorer, q: string, e: Entity): int {
    score(Lower(q), Lower(SearchableText(e.data)))
  }

  /** The hits of a query, paired with their scores, in table order. */
  function Scored(es: seq<Entity>, q: string, score: Scorer): (r: seq<(int, Entity)>)
    ensures forall i :: 0 <= i < |r| ==> r[i].0 == Score(score, q, r[i].1) && r[i].0 > 50 && r[i].1 in es
    ensures forall i :: 0 <= i < |es| && Score(score, q, es[i]) > 50 ==> (Score(score, q, es[i]), es[i]) in r
  {
    if es == [] then []
    else
      var rest := Scored(es[1..], q, score);
      assert forall i :: 1 <= i < |es| ==> es[i] == es[1..][i - 1];
      var s := Score(score, q, es[0]);
      if s > 50 then [(s, es[0])] + rest else rest
  }

  lemma {:induction false} ScoredLength(es: seq<Entity>, q: string, score: Scorer)
    ensures |Scored(es, q, score)| <= |es|
  {
    if es != [] {
      ScoredLength(es[1..], q, score);
    }
  }

  function Seconds<T>(ps: seq<(int, T)>): (r: seq<T>)
    ensures |r| == |ps|
    ensures forall i :: 0 <= i < |ps| ==> r[i] == ps[i].1
  {
    if ps == [] then [] else [ps[0].1] + Seconds(ps[1..])
  }

  /** The hits of a query: every pair carries its entity's score, above 50,
      and an entity of the table. */
  predicate Hits(ps: seq<(int, Entity)>, es: seq<Entity>, q: string, score: Scorer) {
    forall i :: 0 <= i < |ps| ==> ps[i].0 == Score(score, q, ps[i].1) && ps[i].0 > 50 && ps[i].1 in es
  }

  /** Sorting keeps the hits what they were. */
  lemma SortedHits(ps: seq<(int, Entity)>, es: seq<Entity>, q: string, score: Scorer)
    requires Hits(ps, es, q, score)
    ensures Hits(SortDesc(ps), es, q, score)
  {
    var h := SortDesc(ps);
    forall i | 0 <= i < |h|
      ensures h[i].0 == Score(score, q, h[i].1) && h[i].0 > 50 && h[i].1 in es
    {
      assert h[i] in multiset(h);
      assert h[i] in multiset(ps);
      var j :| 0 <= j < |ps| && ps[j] == h[i];
    }
  }

  /** A page of ranked hits is still ranked best first, and still hits. */
  lemma RankedPage(hits: seq<(int, Entity)>, es: seq<Entity>, q: string, score: Scorer, a: int, b: int)
    requires SortedDesc(hits) && Hits(hits, es, q, score)
    ensures forall i :: 0 <= i < |PySlice(Seconds(hits), a, b)| ==>
      PySlice(Seconds(hits), a, b)[i] in es && Score(score, q, PySlice(Seconds(hits), a, b)[i]) > 50
    ensures forall i, j :: 0 <= i < j < |PySlice(Seconds(hits), a, b)| ==>
      Score(score, q, PySlice(Seconds(hits), a, b)[i]) >= Score(score, q, PySlice(Seconds(hits), a, b)[j])
  {
    var r := PySlice(Seconds(hits), a, b);
    var lo := SliceBound(a, |hits|);
    assert forall i :: 0 <= i < |r| ==> r[i] == hits[lo + i].1;
  }

  /** A page of the newest-first listing is still newest first. */
  lemma ListingPage(es: seq<Entity>, a: int, b: int)
    requires IdsAscending(es)
    ensures forall i :: 0 <= i < |PySlice(Reverse(es), a, b)| ==> PySlice(Reverse(es), a, b)[i] in es
    ensures forall i, j :: 0 <= i < j < |PySlice(Reverse(es), a, b)| ==>
      PySlice(Reverse(es), a, b)[i].id > PySlice(Reverse(es), a, b)[j].id
  {
    var v := Reverse(es);
    var r := PySlice(v, a, b);
    var lo := SliceBound(a, |v|);
    forall i | 0 <= i < |r| ensures r[i] == es[|es| - 1 - (lo + i)] {
      assert r[i] == v[lo + i];
    }
  }

  /** `search_entities`. An empty query lists the entities newest first,
      sliced `[skip : skip + limit]`. Otherwise the entities scoring above 50
      against the lower-cased query and text, best first (ties in table
      order), sliced the same way. */
  function SearchEntities(db: Db, q: string, skip: int, limit: int, score: Scorer): (r: seq<Entity>)
    requires Valid(db)
    ensures 0 <= skip && 0 <= limit ==> |r| <= limit
    ensures forall i :: 0 <= i < |r| ==> r[i] in db.entities
    ensures q == "" ==> forall i, j :: 0 <= i < j < |r| ==> r[i].id > r[j].id
    ensures q != "" ==> forall i :: 0 <= i < |r| ==> Score(score, q, r[i]) > 50
    ensures q != "" ==> forall i, j :: 0 <= i < j < |r| ==> Score(score, q, r[i]) >= Score(score, q, r[j])
  {
    if q == "" then
      ListingPage(db.entities, skip, skip + limit);
      PySlice(Reverse(db.entities), skip, skip + limit)
    else
      var hits := Scored(db.entities, q, score);
      SortedHits(hits, db.entities, q, score);
      RankedPage(SortDesc(hits), db.entities, q, score, skip, skip + limit);
      PySlice(Seconds(SortDesc(hits)), skip, skip + limit)
  }

  /** Any entity scoring above 50 is found on some page: with a page from the
      start as long as the table, the search returns every hit. */
  lemma SearchFindsEveryHit(db: Db, q: string, score: Scorer, e: Entity)
    requires Valid(db) && q != ""
    requires e in db.entities && Score(score, q, e) > 50
    ensures e in SearchEntities(db, q, 0, |db.entities|, score)
  {
    var hits := Scored(db.entities, q, score);
    var h := SortDesc(hits);
    var k :| 0 <= k < |db.entities| && db.entities[k] == e;
    assert (Score(score, q, e), e) in hits;
    assert |h| <= |db.entities| by {
      ScoredLength(db.entities, q, score);
      assert |multiset(h)| == |multiset(hits)|;
    }
    var j := SortedPosition(hits, (Score(score, q, e), e));
    FullSlice(Seconds(h), |db.entities|);
    assert Seconds(h)[j] == e;
    assert SearchEntities(db, q, 0, |db.entities|, score) == Seconds(h);
  }

  /** Where an item of the input lands in the sorted output. */
  lemma SortedPosition<T>(s: seq<(int, T)>, x: (int, T)) returns (j: nat)
    requires x in s
    ensures j < |SortDesc(s)| && SortDesc(s)[j] == x
  {
    assert x in multiset(SortDesc(s));
    j :| 0 <= j < |SortDesc(s)| && SortDesc(s)[j] == x;
  }

  /** A slice from the start to at least the end is the whole sequence. */
  lemma FullSlice<T>(s: seq<T>, b: int)
    requires |s| <= b
    ensures PySlice(s, 0, b) == s
  {
    assert SliceBound(0, |s|) == 0 && SliceBound(b, |s|) == |s|;
    assert s[0..|s|] == s;
  }

  /** With an empty query, search and the plain listing agree on every page. */
  lemma EmptySearchIsListing(db: Db, skip: nat, limit: nat, score: Scorer)
    requires Valid(db)
    ensures SearchEntities(db, "", skip, limit, score) == GetEntities(db, skip, limit)
  {
    PySliceIsWindow(Reverse(db.entities), skip, limit);
  }

  /** `get_tags`: with no query, the first `limit` tags; with one, the tags
      whose name matches `%query%` case-insensitively, at most `limit` of them.
      Both in table order. */
  function GetTags(ts: seq<Tag>, q: Option<string>, limit: nat): (r: seq<Tag>)
    ensures |r| <= limit
    ensures forall i :: 0 <= i < |r| ==> r[i] in ts
    ensures !Truthy(q) ==> r == ts[..Min(limit, |ts|)]
    ensures Truthy(q) ==> forall i :: 0 <= i < |r| ==> ILike(['%'] + q.value + ['%'], r[i].name)
    ensures Truthy(q) && |r| < limit ==> forall t :: t in ts && ILike(['%'] + q.value + ['%'], t.name) ==> t in r
  {
    if !Truthy(q) then Window(ts, 0, limit)
    else
      var m := FilterSeq(ts, (t: Tag) => ILike(['%'] + q.value + ['%'], t.name));
      var r := Window(m, 0, limit);
      assert forall i :: 0 <= i < |r| ==> r[i] == m[i];
      r
  }

  lemma LowerPercent(q: string)
    ensures Lower(['%'] + q + ['%']) == ['%'] + Lower(q) + ['%']
  {
  }

  /** For a query without `%` or `_`, the tag filter is a case-insensitive
      (ASCII) substring test; a query with them matches by pattern. */
  lemma TagFilterIsSubstring(q: string, name: string)
    requires forall i :: 0 <= i < |q| ==> !Wildcard(q[i])
    ensures ILike(['%'] + q + ['%'], name) <==> Contains(Lower(name), Lower(q))
  {
    LowerPercent(q);
    ContainsPattern(Lower(q), Lower(name));
  }
}

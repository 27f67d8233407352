/** The tag manager (frontend/src/pages/TagsPage.jsx): the tag list and its
    search, selecting a tag and listing its entities, and renaming and deleting
    the selected tag with the local list updates that follow. */
module TagsPage {
  import opened Options
  import opened Strings
  import opened Schemas

  datatype State = State(
    tags: seq<Tag>,
    selected: Option<Tag>,
    query: string,
    entities: seq<Entity>,
    isEditing: bool,
    editName: string)

  /** The parameters of `GET /tags/`. */
  datatype TagQuery = TagQuery(q: string, limit: int)

  /** The parameters of the `GET /entities/` request that lists a tag's entities. */
  datatype EntityQuery = EntityQuery(q: string, searchField: string, exactMatch: bool, limit: int)

  /** `PUT /tags/{id}` with the new name, and `DELETE /tags/{id}`. */
  datatype TagRequest = RenameTag(id: int, name: string) | DeleteTag(id: int)

  /** What a handler does: the new state, the rename or delete request it
      sends, and the entity listing it asks for. */
  datatype Effect = Effect(state: State, sent: Option<TagRequest>, listing: Option<EntityQuery>)

  function Initial(): State {
    State([], None, "", [], false, "")
  }

  /** `fetchTags`: the tag list is searched with the box's text, at most one hundred tags. */
  function TagListRequest(s: State): (r: TagQuery)
    ensures r.q == s.query && r.limit == 100
  {
    TagQuery(s.query, 100)
  }

  /** The answer of `fetchTags`: it replaces the list, and a failure keeps the old one. */
  function TagsLoaded(s: State, answer: Option<seq<Tag>>): (r: State)
    ensures answer.Some? ==> r == s.(tags := answer.value)
    ensures answer.None? ==> r == s
  {
    if answer.Some? then s.(tags := answer.value) else s
  }

  /** `fetchTagEntities(name)`: an exact match on the tags field, fifty at most. */
  function TagEntities(name: string): (r: EntityQuery)
    ensures r.q == name && r.searchField == "tags" && r.exactMatch && r.limit == 50
  {
    EntityQuery(name, "tags", true, 50)
  }

  /** The effect that runs whenever the selection changes: with a tag selected,
      its entities are requested, the edit box takes its name and edit mode is
      left; with none, the entity list is emptied. */
  function Selected(s: State, t: Option<Tag>): (r: Effect)
    ensures r.state.selected == t && r.sent.None?
    ensures r.state.tags == s.tags && r.state.query == s.query
    ensures t.Some? ==> r.state.editName == t.value.name && !r.state.isEditing
    ensures t.Some? ==> r.listing == Some(TagEntities(t.value.name)) && r.state.entities == s.entities
    ensures t.None? ==> r.listing.None? && r.state.entities == []
    ensures t.None? ==> r.state.editName == s.editName && r.state.isEditing == s.isEditing
  {
    match t
    case Some(tag) =>
      Effect(s.(selected := t, editName := tag.name, isEditing := false), None, Some(TagEntities(tag.name)))
    case None => Effect(s.(selected := None, entities := []), None, None)
  }

  /** The list after a rename: the tags carrying the updated tag's id become
      the updated tag, everything else stays where it was. */
  function ReplaceById(tags: seq<Tag>, u: Tag): (r: seq<Tag>)
    ensures |r| == |tags|
    ensures forall i :: 0 <= i < |tags| && tags[i].id != u.id ==> r[i] == tags[i]
    ensures forall i :: 0 <= i < |tags| && tags[i].id == u.id ==> r[i] == u
  {
    if tags == [] then []
    else [if tags[0].id == u.id then u else tags[0]] + ReplaceById(tags[1..], u)
  }

  /** The list after a delete: the tags without the deleted id, in their old order. */
  function RemoveById(tags: seq<Tag>, id: int): (r: seq<Tag>)
    ensures forall i :: 0 <= i < |r| ==> r[i].id != id
    ensures forall i :: 0 <= i < |r| ==> r[i] in tags
    ensures forall t :: t in tags && t.id != id ==> t in r
  {
    if tags == [] then []
    else
      assert forall t :: t in tags ==> t == tags[0] || t in tags[1..];
      (if tags[0].id == id then [] else [tags[0]]) + RemoveById(tags[1..], id)
  }

  /** `handleRename`, for the selected tag. A name that is blank after
      trimming, or equal to the current name, only leaves edit mode. Otherwise
      nothing happens unless the user confirms; then the untrimmed name is sent,
      and on success the updated tag replaces its namesake in the list, becomes
      the selection, and its entities are listed again under the new name. A
      failed request changes nothing. */
  function Renamed(s: State, confirmed: bool, answer: Option<Tag>): (r: Effect)
    requires s.selected.Some?
    ensures AllSpace(s.editName, IsJsSpace) || s.editName == s.selected.value.name ==>
      r == Effect(s.(isEditing := false), None, None)
    ensures !AllSpace(s.editName, IsJsSpace) && s.editName != s.selected.value.name ==>
      && (r.sent.Some? <==> confirmed)
      && (confirmed ==> r.sent == Some(RenameTag(s.selected.value.id, s.editName)))
      && (!confirmed || answer.None? ==> r.state == s && r.listing.None?)
    ensures !AllSpace(s.editName, IsJsSpace) && s.editName != s.selected.value.name && confirmed && answer.Some? ==>
      && r.state.tags == ReplaceById(s.tags, answer.value)
      && r.state.selected == answer
      && !r.state.isEditing
      && r.listing == Some(TagEntities(answer.value.name))
  {
    var tag := s.selected.value;
    if JsTrim(s.editName) == "" || s.editName == tag.name then
      Effect(s.(isEditing := false), None, None)
    else if !confirmed then
      Effect(s, None, None)
    else
      var sent := Some(RenameTag(tag.id, s.editName));
      match answer
      case None => Effect(s, sent, None)
      case Some(u) =>
        var e := Selected(s.(tags := ReplaceById(s.tags, u), isEditing := false), Some(u));
        Effect(e.state, sent, e.listing)
  }

  /** `handleDelete`, for the selected tag: after confirmation and a successful
      request the tag leaves the list and the selection is cleared (which
      empties the entity list); otherwise nothing changes. */
  function Deleted(s: State, confirmed: bool, succeeded: bool): (r: Effect)
    requires s.selected.Some?
    ensures r.sent.Some? <==> confirmed
    ensures confirmed ==> r.sent == Some(DeleteTag(s.selected.value.id))
    ensures confirmed && succeeded ==>
      && r.state.tags == RemoveById(s.tags, s.selected.value.id)
      && r.state.selected.None? && r.state.entities == []
    ensures !(confirmed && succeeded) ==> r.state == s
    ensures r.listing.None?
  {
    var tag := s.selected.value;
    if !confirmed then Effect(s, None, None)
    else if !succeeded then Effect(s, Some(DeleteTag(tag.id)), None)
    else
      var e := Selected(s.(tags := RemoveById(s.tags, tag.id)), None);
      Effect(e.state, Some(DeleteTag(tag.id)), None)
  }

  /** Ids are unique in the tag table. */
  predicate UniqueIds(tags: seq<Tag>) {
    forall i, j :: 0 <= i < j < |tags| ==> tags[i].id != tags[j].id
  }

  /** With unique ids, a rename changes exactly the one tag it names: the
      updated tag is in the list once, at the old tag's position, and every
      other tag is where it was. The ids stay unique. */
  lemma RenameReplacesOne(tags: seq<Tag>, i: nat, u: Tag)
    requires UniqueIds(tags)
    requires i < |tags| && tags[i].id == u.id
    ensures ReplaceById(tags, u) == tags[i := u]
    ensures UniqueIds(ReplaceById(tags, u))
  {
  }

  /** After a delete with unique ids, exactly the deleted tag is gone and the
      others keep their order. */
  lemma {:induction false} DeleteRemovesOne(tags: seq<Tag>, i: nat)
    requires UniqueIds(tags)
    requires i < |tags|
    ensures RemoveById(tags, tags[i].id) == tags[..i] + tags[i + 1..]
  {
    var id := tags[i].id;
    var rest := tags[1..];
    RemoveByIdCons(tags, id);
    if i == 0 {
      NoneWithId(rest, id);
      assert tags[..0] + tags[1..] == rest;
    } else {
      UniqueIdsTail(tags);
      assert rest[i - 1] == tags[i];
      DeleteRemovesOne(rest, i - 1);
      assert tags[0].id != id;
      CutAfterHead(tags, i);
    }
  }

  lemma UniqueIdsTail(tags: seq<Tag>)
    requires UniqueIds(tags) && tags != []
    ensures UniqueIds(tags[1..])
  {
    var rest := tags[1..];
    forall a, b | 0 <= a < b < |rest| ensures rest[a].id != rest[b].id {
      assert rest[a] == tags[a + 1] && rest[b] == tags[b + 1];
    }
  }

  lemma CutAfterHead<T>(s: seq<T>, i: nat)
    requires 0 < i < |s|
    ensures s[..i] + s[i + 1..] == [s[0]] + (s[1..][..i - 1] + s[1..][i..])
  {
  }

  lemma RemoveByIdCons(tags: seq<Tag>, id: int)
    requires tags != []
    ensures RemoveById(tags, id) == (if tags[0].id == id then [] else [tags[0]]) + RemoveById(tags[1..], id)
  {
  }

  lemma {:induction false} NoneWithId(tags: seq<Tag>, id: int)
    requires forall j :: 0 <= j < |tags| ==> tags[j].id != id
    ensures RemoveById(tags, id) == tags
  {
    if tags != [] {
      NoneWithId(tags[1..], id);
    }
  }
}

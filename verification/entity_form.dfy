/** The state and actions of the create and edit pages
    (frontend/src/pages/InsertEntity.jsx and frontend/src/pages/EditEntity.jsx,
    whose form logic is the same code): the fixed fields, the editable list of
    attribute rows, loading a stored entity into the form and building the
    request body on submit. */
module EntityForm {
  import opened Options
  import opened OrderedMap
  import opened Strings
  import opened Schemas
  import opened TagString
  import opened AttributeCodec

  /** The fixed fields as the form holds them: all plain strings, the tags as
      one comma-separated string. */
  datatype FormData = FormData(
    entityType: string,
    name: string,
    locator: string,
    description: string,
    tags: string,
    imageUrl: string)

  datatype FixedField = EntityTypeField | NameField | LocatorField | DescriptionField | TagsField | ImageUrlField

  /** The four attribute fields the rows' inputs edit. */
  datatype AttrField = KeyField | DescriptionText | UrlField | RemarksField

  /** The form a new page starts with: type "Website", everything else empty. */
  function InitialForm(): (f: FormData)
    ensures f.entityType == "Website"
    ensures f.name == "" && f.locator == "" && f.description == "" && f.tags == "" && f.imageUrl == ""
  {
    FormData("Website", "", "", "", "", "")
  }

  function FieldOf(f: FormData, field: FixedField): string {
    match field
    case EntityTypeField => f.entityType
    case NameField => f.name
    case LocatorField => f.locator
    case DescriptionField => f.description
    case TagsField => f.tags
    case ImageUrlField => f.imageUrl
  }

  /** `handleFixedChange` (and `handleImageChange` for the image field):
      one field takes the new value, the others keep theirs. */
  function SetFixed(f: FormData, field: FixedField, v: string): (r: FormData)
    ensures FieldOf(r, field) == v
    ensures forall other :: other != field ==> FieldOf(r, other) == FieldOf(f, other)
  {
    match field
    case EntityTypeField => f.(entityType := v)
    case NameField => f.(name := v)
    case LocatorField => f.(locator := v)
    case DescriptionField => f.(description := v)
    case TagsField => f.(tags := v)
    case ImageUrlField => f.(imageUrl := v)
  }

  /** The row `addDynamicAttribute` appends. */
  function BlankAttr(): Attr {
    Attr("", Some(""), Some(""), Some(""), true)
  }

  /** `addDynamicAttribute`: one blank, active row at the end; earlier rows unchanged. */
  function AddRow(rows: seq<Attr>): (r: seq<Attr>)
    ensures |r| == |rows| + 1
    ensures forall j :: 0 <= j < |rows| ==> r[j] == rows[j]
    ensures r[|rows|].key == "" && r[|rows|].active
    ensures r[|rows|].description == Some("") && r[|rows|].url == Some("") && r[|rows|].remarks == Some("")
  {
    rows + [BlankAttr()]
  }

  /** `removeDynamicAttribute` (`splice(index, 1)`): row `i` is gone and the
      rest keep their order; an index past the end changes nothing. */
  function RemoveRow(rows: seq<Attr>, i: nat): (r: seq<Attr>)
    ensures i < |rows| ==> |r| == |rows| - 1
    ensures i < |rows| ==> forall j :: 0 <= j < i ==> r[j] == rows[j]
    ensures i < |rows| ==> forall j :: i <= j < |r| ==> r[j] == rows[j + 1]
    ensures i < |rows| ==> multiset(r) + multiset{rows[i]} == multiset(rows)
    ensures i >= |rows| ==> r == rows
  {
    if i < |rows| then
      assert rows == rows[..i] + [rows[i]] + rows[i + 1..];
      rows[..i] + rows[i + 1..]
    else rows
  }

  function AttrFieldOf(a: Attr, field: AttrField): Option<string> {
    match field
    case KeyField => Some(a.key)
    case DescriptionText => a.description
    case UrlField => a.url
    case RemarksField => a.remarks
  }

  /** `handleDynamicChange(index, field, value)`: only that field of that row
      changes. The page only passes indices of rows it displays. */
  function ChangeRow(rows: seq<Attr>, i: nat, field: AttrField, v: string): (r: seq<Attr>)
    requires i < |rows|
    ensures |r| == |rows|
    ensures forall j :: 0 <= j < |rows| && j != i ==> r[j] == rows[j]
    ensures AttrFieldOf(r[i], field) == Some(v)
    ensures forall other :: other != field ==> AttrFieldOf(r[i], other) == AttrFieldOf(rows[i], other)
    ensures r[i].active == rows[i].active
  {
    var a := rows[i];
    var b := match field
      case KeyField => a.(key := v)
      case DescriptionText => a.(description := Some(v))
      case UrlField => a.(url := Some(v))
      case RemarksField => a.(remarks := Some(v));
    rows[i := b]
  }

  /** `handleSubmit`: the request body is the fixed fields, with the tags parsed
      into a list and the rows encoded into the attribute dictionary; the whole
      dictionary is sent, never a change set. */
  function BuildPayload(f: FormData, rows: seq<Attr>): (p: EntityBase)
    ensures p.entityType == f.entityType && p.name == f.name && p.locator == f.locator
    ensures p.description == Some(f.description) && p.imageUrl == Some(f.imageUrl)
    ensures GoodTags(p.tags)
    ensures p.tags == ParseTags(f.tags)
    ensures p.attributes == Encode(rows)
    ensures UniqueKeys(p.attributes) && WellKeyed(p.attributes)
    ensures KeySet(p.attributes) == SavedKeys(rows)
    ensures forall k, i :: k != "" && LastWithKey(rows, i, k) ==> Get(p.attributes, k) == Some(rows[i])
  {
    EncodeGet(rows);
    EntityBase(f.entityType, f.name, f.locator, Some(f.description), ParseTags(f.tags), Some(f.imageUrl),
               Encode(rows))
  }

  /** `fetchEntity` on the edit page: the fixed fields copied, `null` texts shown
      as empty, the tag list joined with ", " and the attribute dictionary decoded
      into rows (active records only). */
  function LoadForm(e: EntityBase): (r: (FormData, seq<Attr>))
    ensures r.0.entityType == e.entityType && r.0.name == e.name && r.0.locator == e.locator
    ensures r.0.description == OrEmpty(e.description) && r.0.imageUrl == OrEmpty(e.imageUrl)
    ensures GoodTags(e.tags) ==> ParseTags(r.0.tags) == e.tags
    ensures r.1 == Decode(e.attributes)
    ensures forall i :: 0 <= i < |r.1| ==> r.1[i].active && r.1[i] in Values(e.attributes)
    ensures forall i :: 0 <= i < |e.attributes| && e.attributes[i].1.active ==> e.attributes[i].1 in r.1
  {
    ParseJoinIfGood(e.tags);
    (FormData(e.entityType, e.name, e.locator, OrEmpty(e.description), JoinTags(e.tags), OrEmpty(e.imageUrl)),
     Decode(e.attributes))
  }

  lemma ParseJoinIfGood(ts: seq<string>)
    ensures GoodTags(ts) ==> ParseTags(JoinTags(ts)) == ts
  {
    if GoodTags(ts) {
      ParseJoin(ts);
    }
  }

  /** Opening the edit page and saving without touching anything sends back the
      stored entity with its tags unchanged, missing texts turned into empty
      strings, and its attribute dictionary cut down to the active records
      under non-empty keys: inactive attributes are lost. */
  lemma UneditedSave(e: EntityBase)
    requires GoodTags(e.tags)
    requires UniqueKeys(e.attributes) && WellKeyed(e.attributes)
    ensures var (f, rows) := LoadForm(e);
      BuildPayload(f, rows) ==
        e.(description := Some(OrEmpty(e.description)),
           imageUrl := Some(OrEmpty(e.imageUrl)),
           attributes := KeepSaved(e.attributes))
  {
    EncodeDecode(e.attributes);
  }
}

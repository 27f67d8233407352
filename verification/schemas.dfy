/** HTTP outcomes of the server's endpoints. */
module Http {

  const BadRequest: nat := 400
  const NotFound: nat := 404
  const Unprocessable: nat := 422
  const ServerError: nat := 500

  datatype Response<+T> = Ok(body: T) | Error(status: nat, detail: string)
}

/** The request and response shapes of the server (backend/schemas.py), and the
    validation that fills in their defaults. */
module Schemas {
  import opened Options
  import opened OrderedMap
  import opened Http

  /** One user-defined fact about an entity (`DynamicAttribute`). `active` is
      the soft-delete flag. */
  datatype Attr = Attr(
    key: string,
    description: Option<string>,
    url: Option<string>,
    remarks: Option<string>,
    active: bool)

  /** The body of a create or update request once validated (`EntityBase`).
      `entityType` is a plain string on the server, not an enumeration. */
  datatype EntityBase = EntityBase(
    entityType: string,
    name: string,
    locator: string,
    description: Option<string>,
    tags: seq<string>,
    imageUrl: Option<string>,
    attributes: OMap<Attr>)

  /** A stored entity with its database identifier. */
  datatype Entity = Entity(id: int, data: EntityBase)

  /** A row of the tag table. */
  datatype Tag = Tag(id: int, name: string)

  /** One member of a JSON object as it arrives: left out, sent as `null`, or
      sent with a value. */
  datatype Member<T> = Absent | Null | Given(value: T)

  /** An `Optional[...]` field whose default is `None`: a missing member and a
      `null` both read as `None`. */
  function Nullable<T>(m: Member<T>): (r: Option<T>)
    ensures r.Some? <==> m.Given?
    ensures m.Given? ==> r.value == m.value
  {
    if m.Given? then Some(m.value) else None
  }

  /** A JSON attribute object as it arrives. */
  datatype RawAttr = RawAttr(
    key: Member<string>,
    description: Member<string>,
    url: Member<string>,
    remarks: Member<string>,
    active: Member<bool>)

  /** A JSON entity object as it arrives. */
  datatype RawEntity = RawEntity(
    entityType: Member<string>,
    name: Member<string>,
    locator: Member<string>,
    description: Member<string>,
    tags: Member<seq<string>>,
    imageUrl: Member<string>,
    attributes: Member<OMap<RawAttr>>)

  /** Validation of one attribute: `key` is a required string, so a missing or
      `null` key is rejected; the three texts are optional and default to
      `None`; `active` is a boolean that defaults to true when left out, and
      `null` is not a boolean. */
  function ValidateAttr(raw: RawAttr): (r: Response<Attr>)
    ensures r.Ok? <==> raw.key.Given? && !raw.active.Null?
    ensures r.Error? ==> r.status == Unprocessable
    ensures r.Ok? ==> r.body.key == raw.key.value
    ensures r.Ok? && raw.active.Given? ==> r.body.active == raw.active.value
    ensures r.Ok? && raw.active.Absent? ==> r.body.active
    ensures r.Ok? ==> r.body.description == Nullable(raw.description) && r.body.url == Nullable(raw.url)
                      && r.body.remarks == Nullable(raw.remarks)
  {
    match raw.key
    case Absent => Error(Unprocessable, "field required: key")
    case Null => Error(Unprocessable, "none is not an allowed value: key")
    case Given(k) =>
      match raw.active
      case Null => Error(Unprocessable, "none is not an allowed value: active")
      case Absent =>
        Ok(Attr(k, Nullable(raw.description), Nullable(raw.url), Nullable(raw.remarks), true))
      case Given(b) =>
        Ok(Attr(k, Nullable(raw.description), Nullable(raw.url), Nullable(raw.remarks), b))
  }

  /** Validation of every value of an attribute dictionary, keeping its keys and order. */
  function ValidateAttrs(m: OMap<RawAttr>): (r: Response<OMap<Attr>>)
    ensures r.Ok? <==> forall i :: 0 <= i < |m| ==> ValidateAttr(m[i].1).Ok?
    ensures r.Error? ==> r.status == Unprocessable
    ensures r.Ok? ==> |r.body| == |m|
    ensures r.Ok? ==> forall i :: 0 <= i < |m| ==>
      r.body[i].0 == m[i].0 && ValidateAttr(m[i].1) == Ok(r.body[i].1)
  {
    if m == [] then Ok([])
    else
      var init := m[..|m| - 1];
      var last := m[|m| - 1];
      match ValidateAttrs(init)
      case Error(s, d) => Error(s, d)
      case Ok(vs) =>
        match ValidateAttr(last.1)
        case Error(s, d) => Error(s, d)
        case Ok(a) => Ok(vs + [(last.0, a)])
  }

  /** Validation of an entity body: `entity_type`, `name` and `locator` are
      required strings; `tags` defaults to the empty list and `attributes` to
      the empty dictionary when left out, and neither accepts `null`;
      `description` and `image_url` are optional and default to `None`. */
  function ValidateEntity(raw: RawEntity): (r: Response<EntityBase>)
    ensures r.Ok? <==>
      && raw.entityType.Given? && raw.name.Given? && raw.locator.Given?
      && !raw.tags.Null? && !raw.attributes.Null?
      && (raw.attributes.Given? ==> ValidateAttrs(raw.attributes.value).Ok?)
    ensures r.Error? ==> r.status == Unprocessable
    ensures r.Ok? ==> r.body.entityType == raw.entityType.value
                      && r.body.name == raw.name.value
                      && r.body.locator == raw.locator.value
    ensures r.Ok? && raw.tags.Given? ==> r.body.tags == raw.tags.value
    ensures r.Ok? && raw.tags.Absent? ==> r.body.tags == []
    ensures r.Ok? && raw.attributes.Given? ==> ValidateAttrs(raw.attributes.value) == Ok(r.body.attributes)
    ensures r.Ok? && raw.attributes.Absent? ==> r.body.attributes == []
    ensures r.Ok? ==> r.body.description == Nullable(raw.description) && r.body.imageUrl == Nullable(raw.imageUrl)
  {
    if !raw.entityType.Given? || !raw.name.Given? || !raw.locator.Given? then
      Error(Unprocessable, "field required")
    else if raw.tags.Null? || raw.attributes.Null? then
      Error(Unprocessable, "none is not an allowed value")
    else
      var attrs := if raw.attributes.Given? then ValidateAttrs(raw.attributes.value) else Ok([]);
      match attrs
      case Error(s, d) => Error(s, d)
      case Ok(a) =>
        Ok(EntityBase(raw.entityType.value, raw.name.value, raw.locator.value,
                      Nullable(raw.description), if raw.tags.Given? then raw.tags.value else [],
                      Nullable(raw.imageUrl), a))
  }

  /** How the browser's `JSON.stringify` sends an optional text: `null` for none. */
  function TextToJson(t: Option<string>): (r: Member<string>)
    ensures Nullable(r) == t
  {
    if t.Some? then Given(t.value) else Null
  }

  /** The JSON the browser sends for a complete attribute record. */
  function AttrToJson(a: Attr): RawAttr {
    RawAttr(Given(a.key), TextToJson(a.description), TextToJson(a.url), TextToJson(a.remarks), Given(a.active))
  }

  function AttrsToJson(m: OMap<Attr>): (r: OMap<RawAttr>)
    ensures |r| == |m|
    ensures forall i :: 0 <= i < |m| ==> r[i] == (m[i].0, AttrToJson(m[i].1))
  {
    if m == [] then [] else AttrsToJson(m[..|m| - 1]) + [(m[|m| - 1].0, AttrToJson(m[|m| - 1].1))]
  }

  /** The JSON the browser sends for a complete entity body. */
  function EntityToJson(e: EntityBase): RawEntity {
    RawEntity(Given(e.entityType), Given(e.name), Given(e.locator), TextToJson(e.description),
              Given(e.tags), TextToJson(e.imageUrl), Given(AttrsToJson(e.attributes)))
  }

  /** A complete body survives serialisation and validation unchanged: the
      defaults never overwrite a value that was sent. */
  lemma ValidateSerialised(e: EntityBase)
    ensures ValidateEntity(EntityToJson(e)) == Ok(e)
  {
    var raw := AttrsToJson(e.attributes);
    var v := ValidateAttrs(raw);
    assert v.Ok?;
    assert v.body == e.attributes;
  }
}

/** The routes of the server (backend/main.py): request validation, the
    dispatch to the data operations, the mapping of a missing entity to 404, and
    the outcome of the routes whose calls do not match the data layer. Each
    route takes the tables and gives back the tables and the HTTP response. */
module Endpoints {
  import opened Options
  import opened Strings
  import opened Http
  import opened Schemas
  import opened Sequences
  import opened Crud
  import opened Media
  import HomePage

  /** The defaults of `GET /entities/`. */
  const DefaultSkip: nat := 0
  const DefaultLimit: nat := 10

  const EntityNotFound := "Entity not found"

  /** What FastAPI answers when a route raises an exception it does not handle. */
  const Crash: Response<seq<Entity>> := Error(ServerError, "Internal Server Error")

  /** The routes' `if db_x is None: raise HTTPException(404, …)`. */
  function OrNotFound<T>(x: Option<T>, detail: string): (r: Response<T>)
    ensures r.Ok? <==> x.Some?
    ensures x.Some? ==> r.body == x.value
    ensures x.None? ==> r.status == NotFound && r.detail == detail
  {
    match x
    case Some(v) => Ok(v)
    case None => Error(NotFound, detail)
  }

  /** `GET /entities/{id}`: the entity, or 404 when no entity has that id. */
  function ReadEntity(db: Db, id: int): (r: Response<Entity>)
    requires Valid(db)
    ensures r.Ok? <==> exists i :: 0 <= i < |db.entities| && db.entities[i].id == id
    ensures r.Ok? ==> r.body.id == id && r.body in db.entities
    ensures r.Error? ==> r == Error(NotFound, EntityNotFound)
  {
    OrNotFound(GetEntity(db, id), EntityNotFound)
  }

  /** `POST /entities/`: a body that fails validation is answered 422 and
      nothing is stored; otherwise the entity is created and returned, and it
      can be read back under its new id. */
  function CreateRoute(db: Db, body: RawEntity): (r: (Db, Response<Entity>))
    requires Valid(db)
    ensures Valid(r.0)
    ensures ValidateEntity(body).Error? ==> r.0 == db && r.1.Error? && r.1.status == Unprocessable
    ensures ValidateEntity(body).Ok? ==>
      && r.1.Ok? && r.1.body.data == ValidateEntity(body).body
      && ReadEntity(r.0, r.1.body.id) == r.1
      && |r.0.entities| == |db.entities| + 1
  {
    match ValidateEntity(body)
    case Error(s, d) => (db, Error(s, d))
    case Ok(e) =>
      var (db1, ent) := Create(db, e);
      (db1, Ok(ent))
  }

  /** `PUT /entities/{id}`: 422 for an invalid body, 404 for an unknown id
      (both leaving the tables alone); otherwise the stored entity becomes the
      body, exactly, and reading it back gives the body. */
  function UpdateRoute(db: Db, id: int, body: RawEntity): (r: (Db, Response<Entity>))
    requires Valid(db)
    ensures Valid(r.0)
    ensures ValidateEntity(body).Error? ==> r.0 == db && r.1.Error? && r.1.status == Unprocessable
    ensures ValidateEntity(body).Ok? && GetEntity(db, id).None? ==>
      r.0 == db && r.1 == Error(NotFound, EntityNotFound)
    ensures ValidateEntity(body).Ok? && GetEntity(db, id).Some? ==>
      && r.1 == Ok(Entity(id, ValidateEntity(body).body))
      && ReadEntity(r.0, id) == r.1
  {
    match ValidateEntity(body)
    case Error(s, d) => (db, Error(s, d))
    case Ok(e) =>
      match Update(db, id, e)
      case None => (db, Error(NotFound, EntityNotFound))
      case Some((db1, ent)) => (db1, Ok(ent))
  }

  /** `DELETE /entities/{id}`: 404 for an unknown id; otherwise the deleted
      entity is returned and reading its id afterwards gives 404. */
  function DeleteRoute(db: Db, id: int): (r: (Db, Response<Entity>))
    requires Valid(db)
    ensures Valid(r.0)
    ensures r.1.Ok? <==> ReadEntity(db, id).Ok?
    ensures r.1.Ok? ==> r.1 == ReadEntity(db, id) && ReadEntity(r.0, id) == Error(NotFound, EntityNotFound)
    ensures r.1.Error? ==> r.0 == db && r.1 == Error(NotFound, EntityNotFound)
  {
    match Delete(db, id)
    case None => (db, Error(NotFound, EntityNotFound))
    case Some((db1, ent)) => (db1, Ok(ent))
  }

  /** `GET /entities/`. A non-empty query goes to the search, but the route
      passes `search_field` and `exact_match`, which `search_entities` does not
      take: the call raises and the answer is a server error. Without a query
      the newest entities are listed, `skip` in and at most `limit` of them. */
  function ReadEntities(db: Db, q: Option<string>, skip: nat, limit: nat): (r: Response<seq<Entity>>)
    requires Valid(db)
    ensures Truthy(q) ==> r == Crash
    ensures !Truthy(q) ==> r.Ok?
    ensures !Truthy(q) ==> |r.body| == Min(limit, if skip < |db.entities| then |db.entities| - skip else 0)
    ensures !Truthy(q) ==> forall i :: 0 <= i < |r.body| ==>
      skip + i < |db.entities| && r.body[i] == db.entities[|db.entities| - 1 - (skip + i)]
  {
    if Truthy(q) then Crash
    else Ok(GetEntities(db, skip, limit))
  }

  /** With the defaults, the listing is the ten newest entities, newest first. */
  lemma DefaultListing(db: Db)
    requires Valid(db)
    ensures ReadEntities(db, None, DefaultSkip, DefaultLimit) ==
      Ok(Window(Reverse(db.entities), 0, 10))
  {
  }

  /** The home page's requests, answered by this route, with no query: the
      page and the next page are consecutive windows of the newest-first list. */
  lemma HomePagesTile(db: Db, s: HomePage.State)
    requires Valid(db) && HomePage.Valid(s) && s.query == ""
    ensures ReadEntities(db, Some(s.query), HomePage.Request(s).skip, s.limit).Ok?
    ensures ReadEntities(db, Some(s.query), HomePage.Request(HomePage.Next(s)).skip, s.limit).Ok?
    ensures ReadEntities(db, Some(s.query), HomePage.Request(s).skip, s.limit).body
      + ReadEntities(db, Some(s.query), HomePage.Request(HomePage.Next(s)).skip, s.limit).body
      == Window(Reverse(db.entities), HomePage.Request(s).skip, 2 * s.limit)
  {
    var skip := HomePage.Request(s).skip;
    HomePage.NextPreviousWindows(s);
    WindowsTile(Reverse(db.entities), skip, s.limit);
  }

  /** With a query, the home page's request is answered with a server error,
      and the page keeps the list it showed. */
  lemma HomeSearchFails(db: Db, s: HomePage.State)
    requires Valid(db) && HomePage.Valid(s) && s.query != ""
    ensures ReadEntities(db, Some(s.query), HomePage.Request(s).skip, s.limit).Error?
    ensures HomePage.Responded(s, None) == s
  {
  }

  /** `GET /tags/` passes `skip`, which `get_tags` does not take: every request
      raises, and the answer is a server error whatever the parameters. */
  function ReadTags(db: Db, q: Option<string>, skip: int, limit: int): (r: Response<seq<Tag>>)
    ensures r.Error? && r.status == ServerError
  {
    Error(ServerError, "Internal Server Error")
  }

  /** `PUT /tags/{id}` and `DELETE /tags/{id}` call functions the data layer
      does not define: both raise, and nothing changes. */
  function TagRoute(db: Db, id: int): (r: (Db, Response<Tag>))
    ensures r.0 == db && r.1.Error? && r.1.status == ServerError
  {
    (db, Error(ServerError, "Internal Server Error"))
  }

  /** The outcome of the download in `fetch_media`: an exception (no
      connection, a bad URL, a failed write), or a response with its status,
      its `content-type` header if any, and the text `raise_for_status` would
      report. */
  datatype Download =
    | Failed(message: string)
    | Received(status: int, contentType: Option<string>, reason: string)

  /** `raise_for_status` passes exactly the 2xx statuses. */
  predicate Succeeded(d: Download) {
    d.Received? && 200 <= d.status <= 299
  }

  const FetchFailed := "Failed to fetch media: "

  /** `POST /fetch-media/`: a missing or empty `url` is 400 "URL is required";
      a download that raises or comes back with a status outside 2xx is 400
      with the error's text; otherwise the file is stored under the random name
      `id` with the extension its content type selects (a missing header reads
      as the empty string), and its URL is returned. */
  function FetchMedia(url: Option<string>, d: Download, id: string): (r: Response<string>)
    ensures !Truthy(url) ==> r == Error(BadRequest, "URL is required")
    ensures Truthy(url) && !Succeeded(d) ==> r.Error? && r.status == BadRequest && StartsWith(r.detail, FetchFailed)
    ensures Truthy(url) && Succeeded(d) ==> r.Ok? && r.body == MediaUrl(id, FirstMatch(d.contentType.GetOr(""), Extensions, ".jpg"))
    ensures r.Ok? ==> StartsWith(r.body, "/media/")
  {
    if !Truthy(url) then Error(BadRequest, "URL is required")
    else
      match d
      case Failed(m) =>
        assert (FetchFailed + m)[..|FetchFailed|] == FetchFailed;
        Error(BadRequest, FetchFailed + m)
      case Received(status, ct, reason) =>
        if !(200 <= status <= 299) then
          assert (FetchFailed + reason)[..|FetchFailed|] == FetchFailed;
          Error(BadRequest, FetchFailed + reason)
        else
          ChainIsFirstMatch(ct.GetOr(""));
          Ok(MediaUrl(id, ContentTypeExtension(ct.GetOr(""))))
  }

  /** `POST /upload/`: the file is stored under the random name `id` and its
      own extension (".jpg" when it has none), and its URL is returned. */
  function UploadRoute(filename: string, id: string): (r: Response<string>)
    ensures r.Ok? && r.body == UploadUrl(id, filename)
    ensures StartsWith(r.body, "/media/") && EndsWith(r.body, UploadExtension(filename))
  {
    Ok(UploadUrl(id, filename))
  }
}

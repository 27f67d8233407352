/** The paged entity list of the home page (frontend/src/pages/Home.jsx): the
    query the list request carries, the `hasMore` rule that enables Next, and
    the transitions of the search box, the page-size selector and the
    Previous/Next buttons. */
module HomePage {
  import opened Options
  import opened Schemas

  datatype State = State(
    entities: seq<Entity>,
    query: string,
    page: int,
    limit: int,
    hasMore: bool)

  /** The parameters of `GET /entities/`. */
  datatype ListQuery = ListQuery(q: string, skip: int, limit: int)

  /** The page a visitor first sees: no query, page 0, ten per page. */
  function Initial(): (s: State)
    ensures s.page == 0 && s.limit == 10 && s.query == "" && s.hasMore
  {
    State([], "", 0, 10, true)
  }

  /** The page sizes the selector offers. */
  predicate PageSize(n: int) {
    n == 5 || n == 10 || n == 20 || n == 100
  }

  /** What every reachable state keeps: a page number that is never negative and a positive page size. */
  predicate Valid(s: State) {
    s.page >= 0 && s.limit > 0
  }

  /** `fetchEntities`: the request for the current page starts `page * limit`
      entities in, so page `p` is the `p`-th block of `limit` entities. */
  function Request(s: State): (r: ListQuery)
    requires Valid(s)
    ensures r.q == s.query && r.limit == s.limit
    ensures r.skip >= 0
    ensures r.skip == s.page * s.limit
  {
    ListQuery(s.query, s.page * s.limit, s.limit)
  }

  /** The list request's answer: a successful answer replaces the list and
      `hasMore` is set exactly when the page came back full; a failed request
      leaves everything as it was. */
  function Responded(s: State, answer: Option<seq<Entity>>): (r: State)
    ensures answer.None? ==> r == s
    ensures answer.Some? ==> r.entities == answer.value
    ensures answer.Some? ==> (r.hasMore <==> |answer.value| >= s.limit)
    ensures r.page == s.page && r.limit == s.limit && r.query == s.query
  {
    match answer
    case None => s
    case Some(data) => s.(entities := data, hasMore := !(|data| < s.limit))
  }

  /** `handleSearch`: a new query, back to the first page. */
  function Searched(s: State, q: string): (r: State)
    ensures r.query == q && r.page == 0
    ensures r.limit == s.limit && r.entities == s.entities && r.hasMore == s.hasMore
  {
    s.(query := q, page := 0)
  }

  /** The page-size selector: a new size, back to the first page. */
  function Resized(s: State, n: int): (r: State)
    ensures r.limit == n && r.page == 0
    ensures r.query == s.query && r.entities == s.entities && r.hasMore == s.hasMore
  {
    s.(limit := n, page := 0)
  }

  /** The Previous button is enabled everywhere but on the first page. */
  predicate PreviousEnabled(s: State) {
    s.page != 0
  }

  /** The Next button is enabled while the last answer was a full page. */
  predicate NextEnabled(s: State) {
    s.hasMore
  }

  /** Previous: one page back, never below the first page. */
  function Previous(s: State): (r: State)
    ensures r.page >= 0
    ensures s.page >= 1 ==> r.page == s.page - 1
    ensures s.page <= 0 ==> r.page == 0
    ensures r == s.(page := r.page)
  {
    s.(page := if 0 > s.page - 1 then 0 else s.page - 1)
  }

  /** Next: one page forward. */
  function Next(s: State): (r: State)
    ensures r.page == s.page + 1
    ensures r == s.(page := r.page)
  {
    s.(page := s.page + 1)
  }

  /** A user action on the page; a click on a disabled button does nothing. */
  datatype Action =
    | Search(q: string)
    | Resize(n: int)
    | ClickPrevious
    | ClickNext
    | Answer(data: Option<seq<Entity>>)

  function Step(s: State, a: Action): (r: State)
    requires a.Resize? ==> PageSize(a.n)
  {
    match a
    case Search(q) => Searched(s, q)
    case Resize(n) => Resized(s, n)
    case ClickPrevious => if PreviousEnabled(s) then Previous(s) else s
    case ClickNext => if NextEnabled(s) then Next(s) else s
    case Answer(data) => Responded(s, data)
  }

  /** Every action keeps a valid state valid. */
  lemma StepValid(s: State, a: Action)
    requires Valid(s)
    requires a.Resize? ==> PageSize(a.n)
    ensures Valid(Step(s, a))
  {
  }

  predicate AllowedActions(actions: seq<Action>) {
    forall i :: 0 <= i < |actions| ==> (actions[i].Resize? ==> PageSize(actions[i].n))
  }

  function Run(s: State, actions: seq<Action>): State
    requires AllowedActions(actions)
    decreases |actions|
  {
    if actions == [] then s else Run(Step(s, actions[0]), actions[1..])
  }

  /** Whatever the user does, the page number never goes negative and every
      request asks for a non-negative offset. */
  lemma {:induction false} RunValid(s: State, actions: seq<Action>)
    requires Valid(s)
    requires AllowedActions(actions)
    ensures Valid(Run(s, actions))
    ensures Request(Run(s, actions)).skip >= 0
    decreases |actions|
  {
    if actions != [] {
      StepValid(s, actions[0]);
      assert AllowedActions(actions[1..]) by {
        forall i | 0 <= i < |actions| - 1 ensures (actions[1..][i].Resize? ==> PageSize(actions[1..][i].n)) {
          assert actions[1..][i] == actions[i + 1];
        }
      }
      RunValid(Step(s, actions[0]), actions[1..]);
    }
  }

  /** A full page always enables Next; a short page disables it. */
  lemma FullPageEnablesNext(s: State, data: seq<Entity>)
    ensures NextEnabled(Responded(s, Some(data))) <==> |data| >= s.limit
  {
  }

  /** Consecutive pages ask for adjacent windows: Next moves the offset by
      exactly one page, and Previous from a later page undoes it. */
  lemma NextPreviousWindows(s: State)
    requires Valid(s)
    ensures Request(Next(s)).skip == Request(s).skip + s.limit
    ensures Previous(Next(s)) == s
  {
    assert (s.page + 1) * s.limit == s.page * s.limit + s.limit;
  }
}

/** `DomainManager`: a Django manager narrowing every query to one site. Each
    call takes the manager's state and returns its new state together with
    the query built or the exception raised, since the Python code mutates the
    manager before it raises. */
module DomainManager {
  import opened Results
  import opened PathSplit
  import opened ModelSchema

  /** `_field_name`, `_depth` and `_is_validated`. */
  datatype Manager = Manager(fieldName: Option<string>, depth: int, isValidated: bool)

  /** The exceptions validation raises, with the field name each message names. */
  datatype Raised = TypeErr(field: string) | ValueErr(attempted: Option<string>)

  /** The manager after a call, and what the call returned or raised. */
  datatype Step<+T> = Step(state: Manager, result: Result<T, Raised>)

  /** The query handed back: `none()`, or the base query set narrowed by one
      equality filter. */
  datatype Query = Empty | Filter(key: string, value: int)

  /** A site object; `id` is None while it is unsaved. */
  datatype Site = Site(id: Option<int>)

  /** A request: `site` is None when the attribute is missing, Some(None) when
      it is null. */
  datatype Request = Request(site: Option<Option<Site>>)

  /** Field names tried, in order, when no path is configured. */
  const AutoNames: seq<string> := ["site", "sites"]

  /** Appended to the field path to form the filter key. */
  const IdExact: string := "__id__exact"

  /** What the states reachable from `Init` all satisfy. */
  predicate Consistent(m: Manager) {
    && (m.isValidated ==> m.fieldName.Some?)
    && 1 <= m.depth <= 2
  }

  /** Python's `'%s' %` rendering of an optional name. */
  function Show(name: Option<string>): (s: string) {
    match name
    case Some(n) => n
    case None => "None"
  }

  /** The constructor: nothing is validated yet and the depth starts at one. */
  function Init(fieldName: Option<string>): (m: Manager)
    ensures Consistent(m)
    ensures m.fieldName == fieldName && !m.isValidated
    ensures m.depth == 1
  {
    Manager(fieldName, 1, false)
  }

  /** The `for potential_name in [...]` loop: the first of `names[from..]`
      that the schema has. */
  function Probe(schema: Schema, names: seq<string>, from: nat): (r: Option<nat>)
    requires from <= |names|
    ensures r.Some? ==> from <= r.value < |names| && names[r.value] in schema
    ensures r.Some? ==> forall j :: from <= j < r.value ==> names[j] !in schema
    ensures r.None? ==> forall j :: from <= j < |names| ==> names[j] !in schema
    decreases |names| - from
  {
    if from == |names| then None
    else if names[from] in schema then Some(from)
    else Probe(schema, names, from + 1)
  }

  /** `_validate_field_name`. With a path, only the segment before its first
      separator is looked up and `depth` widens to the number of parts; without
      one, "site" then "sites" are probed and the first found is recorded and
      marked validated before its kind is checked. */
  function Validate(m: Manager, schema: Schema): (s: Step<()>)
    ensures s.state.depth >= m.depth
    ensures m.fieldName.Some? ==> s.state.fieldName == m.fieldName
    ensures m.fieldName.None? ==> s.state.depth == m.depth
    ensures s.result.Success? ==> s.state.isValidated && s.state.fieldName.Some?
    ensures s.result.Failure? && m.fieldName.Some? ==> s.state.isValidated == m.isValidated
    ensures s.result.Failure? && m.fieldName.None? ==> (s.state.isValidated <==> m.isValidated || s.state.fieldName.Some?)
  {
    if m.fieldName.Some? then
      var parts := Split(m.fieldName.value);
      var widened := m.(depth := if |parts| > m.depth then |parts| else m.depth);
      var name := parts[0];
      match GetField(schema, name)
      case None => Step(widened, Failure(ValueErr(Some(name))))
      case Some(k) =>
        if IsRelation(k) then Step(widened.(isValidated := true), Success(()))
        else Step(widened, Failure(TypeErr(name)))
    else
      match Probe(schema, AutoNames, 0)
      case None => Step(m, Failure(ValueErr(None)))
      case Some(i) =>
        var name := AutoNames[i];
        var found := m.(fieldName := Some(name), isValidated := true);
        if IsRelation(schema[name]) then Step(found, Success(()))
        else Step(found, Failure(TypeErr(name)))
  }

  /** The site id a query filters on: the one given, or `settings.SITE_ID`
      (here `defaultSiteId`) when it is None. */
  function SiteIdOr(siteId: Option<int>, defaultSiteId: int): (id: int)
    ensures siteId.Some? ==> id == siteId.value
    ensures siteId.None? ==> id == defaultSiteId
  {
    match siteId
    case Some(given) => given
    case None => defaultSiteId
  }

  /** `get_queryset(site_id)`: validate unless already validated, then filter
      on `<field path>__id__exact`, with `defaultSiteId` (`settings.SITE_ID`)
      standing in for a missing id. */
  function GetQueryset(m: Manager, schema: Schema, siteId: Option<int>, defaultSiteId: int): (s: Step<Query>)
    ensures s.state.depth >= m.depth
    ensures m.isValidated ==> s.state == m
    ensures s.result.Success? ==> s.state.isValidated
    ensures s.result.Success? ==> s.result.value == Filter(Show(s.state.fieldName) + IdExact, SiteIdOr(siteId, defaultSiteId))
    ensures s.result.Failure? ==> !m.isValidated
    ensures !m.isValidated ==>
              && s.state == Validate(m, schema).state
              && (s.result.Success? <==> Validate(m, schema).result.Success?)
              && (s.result.Failure? ==> s.result.error == Validate(m, schema).result.error)
  {
    var id := SiteIdOr(siteId, defaultSiteId);
    var v := if m.isValidated then Step(m, Success(())) else Validate(m, schema);
    match v.result
    case Failure(e) => Step(v.state, Failure(e))
    case Success(_) => Step(v.state, Success(Filter(Show(v.state.fieldName) + IdExact, id)))
  }

  /** `by_id`: the same as `get_queryset`. */
  function ById(m: Manager, schema: Schema, siteId: Option<int>, defaultSiteId: int): (s: Step<Query>)
    ensures s == GetQueryset(m, schema, siteId, defaultSiteId)
  {
    GetQueryset(m, schema, siteId, defaultSiteId)
  }

  /** `by_site`: filter on the site's own id. */
  function BySite(m: Manager, schema: Schema, site: Site, defaultSiteId: int): (s: Step<Query>)
    ensures s == GetQueryset(m, schema, site.id, defaultSiteId)
  {
    ById(m, schema, site.id, defaultSiteId)
  }

  /** `by_request`: a request without a site gets `none()`, which a Django
      manager builds from its own `get_queryset()` (so validation still runs
      and may raise); otherwise filter on the request's site. */
  function ByRequest(m: Manager, schema: Schema, request: Request, defaultSiteId: int): (s: Step<Query>)
    ensures request.site.Some? && request.site.value.Some? ==>
              s == GetQueryset(m, schema, request.site.value.value.id, defaultSiteId)
    ensures (request.site.None? || request.site.value.None?) ==>
              var g := GetQueryset(m, schema, None, defaultSiteId);
              s.result == (if g.result.Success? then Success(Empty) else Failure(g.result.error))
    ensures s.state == GetQueryset(m, schema, if request.site.Some? && request.site.value.Some? then request.site.value.value.id else None, defaultSiteId).state
  {
    if request.site.None? || request.site.value.None? then
      var s := GetQueryset(m, schema, None, defaultSiteId);
      match s.result
      case Failure(e) => Step(s.state, Failure(e))
      case Success(_) => Step(s.state, Success(Empty))
    else
      BySite(m, schema, request.site.value.value, defaultSiteId)
  }
}

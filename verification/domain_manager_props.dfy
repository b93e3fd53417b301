/** Properties of `DomainManager` across one or several calls. */
module DomainManagerProps {
  import opened Results
  import opened PathSplit
  import opened ModelSchema
  import opened DomainManager

  /** Reference definition of the field name validation resolves: the head of
      the configured path, or else the first of "site", "sites" the schema has. */
  function LookupName(m: Manager, schema: Schema): (name: Option<string>) {
    if m.fieldName.Some? then Some(Split(m.fieldName.value)[0])
    else if "site" in schema then Some("site")
    else if "sites" in schema then Some("sites")
    else None
  }

  function Max(a: int, b: int): (r: int) {
    if a < b then b else a
  }

  /** Validation succeeds exactly when the resolved name is a relation field,
      raises `TypeError` naming it exactly when it is some other field, and
      raises `ValueError` naming the attempted name exactly when it is missing. */
  lemma ValidateResolvesLookupName(m: Manager, schema: Schema)
    ensures var s := Validate(m, schema); var n := LookupName(m, schema);
      s.result.Success? <==> (n.Some? && n.value in schema && IsRelation(schema[n.value]))
    ensures var s := Validate(m, schema); var n := LookupName(m, schema);
      (s.result.Failure? && s.result.error.TypeErr?) <==> (n.Some? && n.value in schema && !IsRelation(schema[n.value]))
    ensures var s := Validate(m, schema); var n := LookupName(m, schema);
      s.result.Failure? && s.result.error.TypeErr? ==> s.result.error.field == n.value
    ensures var s := Validate(m, schema); var n := LookupName(m, schema);
      s.result == Failure(ValueErr(n)) <==> (n.None? || n.value !in schema)
  {
  }

  /** With no path configured, "site" wins over "sites"; "sites" is used only
      when "site" is absent; with neither, `ValueError` names None and the
      state is untouched. */
  lemma AutoDetectOrder(m: Manager, schema: Schema)
    requires m.fieldName.None?
    ensures var s := Validate(m, schema);
      "site" in schema ==> s.state == m.(fieldName := Some("site"), isValidated := true)
    ensures var s := Validate(m, schema);
      "site" !in schema && "sites" in schema ==> s.state == m.(fieldName := Some("sites"), isValidated := true)
    ensures "site" !in schema && "sites" !in schema ==> Validate(m, schema) == Step(m, Failure(ValueErr(None)))
  {
  }

  /** With a path configured, validation looks at nothing in the schema but
      the path's first segment. */
  lemma ExplicitPathOnlyHeadMatters(m: Manager, schema1: Schema, schema2: Schema)
    requires m.fieldName.Some?
    requires GetField(schema1, Split(m.fieldName.value)[0]) == GetField(schema2, Split(m.fieldName.value)[0])
    ensures Validate(m, schema1) == Validate(m, schema2)
  {
  }

  /** With a path configured, `depth` becomes the larger of its old value and
      the number of parts of the split path, and the path itself is kept. */
  lemma ExplicitPathDepth(m: Manager, schema: Schema)
    requires m.fieldName.Some?
    ensures var s := Validate(m, schema);
      s.state.depth == Max(m.depth, |Split(m.fieldName.value)|) && s.state.fieldName == m.fieldName
    ensures Consistent(m) ==> Validate(m, schema).state.depth in {1, 2}
  {
  }

  /** With a path configured, a built filter is keyed on the full path, not
      on the segment that was looked up. */
  lemma ExplicitPathFilterKey(m: Manager, schema: Schema, siteId: Option<int>, defaultSiteId: int)
    requires m.fieldName.Some?
    ensures var s := GetQueryset(m, schema, siteId, defaultSiteId);
      s.result.Success? ==> s.result.value.key == m.fieldName.value + IdExact
  {
  }

  /** `HostSiteManager("author__site")` on a model whose `author` is a foreign key. */
  lemma AuthorSiteExample(defaultSiteId: int)
    ensures var s := GetQueryset(Init(Some("author__site")), map["author" := ForeignKey], Some(5), defaultSiteId);
      s == Step(Manager(Some("author__site"), 2, true), Success(Filter("author__site__id__exact", 5)))
  {
    SplitJoin("author", "site");
    assert "author__site" == "author" + Sep + "site";
    assert "author__site" + IdExact == "author__site__id__exact";
  }

  /** Every operation keeps a consistent manager consistent; in particular a
      validated manager always has a field path, so no key reads `None__id__exact`. */
  lemma ConsistentPreserved(m: Manager, schema: Schema, siteId: Option<int>, request: Request, defaultSiteId: int)
    requires Consistent(m)
    ensures Consistent(Validate(m, schema).state)
    ensures Consistent(GetQueryset(m, schema, siteId, defaultSiteId).state)
    ensures Consistent(ByRequest(m, schema, request, defaultSiteId).state)
    ensures var s := GetQueryset(m, schema, siteId, defaultSiteId);
      s.result.Success? ==> s.result.value.key == s.state.fieldName.value + IdExact
  {
  }

  /** A failed validation of a configured path leaves the manager unvalidated,
      so the next query validates again and raises the same error from the
      same state. */
  lemma ExplicitFailureRetried(m: Manager, schema: Schema, siteId1: Option<int>, siteId2: Option<int>, defaultSiteId: int)
    requires m.fieldName.Some? && !m.isValidated
    requires Validate(m, schema).result.Failure?
    ensures var s := GetQueryset(m, schema, siteId1, defaultSiteId);
      && s.result.Failure?
      && !s.state.isValidated
      && GetQueryset(s.state, schema, siteId2, defaultSiteId) == s
  {
  }

  /** Once a query has been built, later queries neither validate nor change
      the manager; they filter on the same key with their own site id. */
  lemma SuccessIsFinal(m: Manager, schema: Schema, siteId1: Option<int>, siteId2: Option<int>, defaultSiteId: int)
    requires GetQueryset(m, schema, siteId1, defaultSiteId).result.Success?
    ensures var s := GetQueryset(m, schema, siteId1, defaultSiteId);
      GetQueryset(s.state, schema, siteId2, defaultSiteId)
        == Step(s.state, Success(Filter(s.result.value.key, SiteIdOr(siteId2, defaultSiteId))))
  {
  }

  /** With no path and a non-relation `site` field, the first query raises
      `TypeError`, yet the manager is already marked validated on "site", so
      the second query skips validation and reaches the filter on
      `site__id__exact`. */
  lemma AutoScalarSiteQuirk(schema: Schema, siteId1: Option<int>, siteId2: Option<int>, defaultSiteId: int)
    requires "site" in schema && !IsRelation(schema["site"])
    ensures var first := GetQueryset(Init(None), schema, siteId1, defaultSiteId);
      && first.result == Failure(TypeErr("site"))
      && first.state == Manager(Some("site"), 1, true)
      && GetQueryset(first.state, schema, siteId2, defaultSiteId)
           == Step(first.state, Success(Filter("site__id__exact", SiteIdOr(siteId2, defaultSiteId))))
  {
    AutoDetectOrder(Init(None), schema);
    ValidateResolvesLookupName(Init(None), schema);
    assert "site" + IdExact == "site__id__exact";
  }

  /** The same model with the path "site" given explicitly raises `TypeError`
      on every query. */
  lemma ExplicitScalarSiteRaisesAgain(schema: Schema, siteId1: Option<int>, siteId2: Option<int>, defaultSiteId: int)
    requires "site" in schema && !IsRelation(schema["site"])
    ensures var first := GetQueryset(Init(Some("site")), schema, siteId1, defaultSiteId);
      && first.result == Failure(TypeErr("site"))
      && GetQueryset(first.state, schema, siteId2, defaultSiteId) == first
  {
  }

  /** A request with no site, or a null one, on a validated manager yields the
      empty query set and leaves the manager as it was. */
  lemma ByRequestWithoutSite(m: Manager, schema: Schema, request: Request, defaultSiteId: int)
    requires m.isValidated
    requires request.site.None? || request.site.value.None?
    ensures ByRequest(m, schema, request, defaultSiteId) == Step(m, Success(Empty))
  {
  }

  /** A request with a site is served exactly as `by_id(request.site.id)`, and an
      unsaved site falls back to the default site id. */
  lemma ByRequestWithSite(m: Manager, schema: Schema, site: Site, defaultSiteId: int)
    ensures ByRequest(m, schema, Request(Some(Some(site))), defaultSiteId) == ById(m, schema, site.id, defaultSiteId)
    ensures var s := BySite(m, schema, site, defaultSiteId);
      site.id.None? && s.result.Success? ==> s.result.value.value == defaultSiteId
  {
  }

  /** The outcome of a sequence of `get_queryset` calls, and how many of them
      ran `_validate_field_name`. */
  datatype Trace = Trace(state: Manager, results: seq<Result<Query, Raised>>, validations: nat)

  function Replay(m: Manager, schema: Schema, siteIds: seq<Option<int>>, defaultSiteId: int): (t: Trace)
    ensures |t.results| == |siteIds|
    ensures t.validations <= |siteIds|
    ensures |siteIds| > 0 ==> t.results[0] == GetQueryset(m, schema, siteIds[0], defaultSiteId).result
    ensures t.state.depth >= m.depth
    ensures m.isValidated ==> t.state.isValidated
    ensures m.fieldName.Some? ==> t.state.fieldName == m.fieldName
    decreases |siteIds|
  {
    if |siteIds| == 0 then Trace(m, [], 0)
    else
      var s := GetQueryset(m, schema, siteIds[0], defaultSiteId);
      var rest := Replay(s.state, schema, siteIds[1..], defaultSiteId);
      Trace(rest.state, [s.result] + rest.results, rest.validations + if m.isValidated then 0 else 1)
  }

  /** On a validated manager no call validates, the manager never changes,
      and call `i` filters on the stored path with its own site id. */
  lemma {:induction false} ReplayValidated(m: Manager, schema: Schema, siteIds: seq<Option<int>>, defaultSiteId: int)
    requires m.isValidated
    ensures var t := Replay(m, schema, siteIds, defaultSiteId);
      && t.validations == 0
      && t.state == m
      && forall i :: 0 <= i < |siteIds| ==>
           t.results[i] == Success(Filter(Show(m.fieldName) + IdExact, SiteIdOr(siteIds[i], defaultSiteId)))
  {
    if |siteIds| > 0 {
      ReplayValidated(m, schema, siteIds[1..], defaultSiteId);
      var t := Replay(m, schema, siteIds, defaultSiteId);
      var rest := Replay(m, schema, siteIds[1..], defaultSiteId);
      forall i | 0 <= i < |siteIds|
        ensures t.results[i] == Success(Filter(Show(m.fieldName) + IdExact, SiteIdOr(siteIds[i], defaultSiteId)))
      {
        if i > 0 {
          assert t.results[i] == rest.results[i - 1];
          assert siteIds[1..][i - 1] == siteIds[i];
        }
      }
    }
  }

  /** Validation runs at most once along any sequence of calls that starts
      with a successful one. */
  lemma ReplayValidatesAtMostOnce(m: Manager, schema: Schema, siteIds: seq<Option<int>>, defaultSiteId: int)
    requires |siteIds| > 0
    requires GetQueryset(m, schema, siteIds[0], defaultSiteId).result.Success?
    ensures Replay(m, schema, siteIds, defaultSiteId).validations <= 1
  {
    var s := GetQueryset(m, schema, siteIds[0], defaultSiteId);
    ReplayValidated(s.state, schema, siteIds[1..], defaultSiteId);
  }

  /** A configured path that fails validation fails on every call, and every
      call runs validation again. */
  lemma {:induction false} ReplayExplicitFailure(m: Manager, schema: Schema, siteIds: seq<Option<int>>, defaultSiteId: int)
    requires m.fieldName.Some? && !m.isValidated
    requires Validate(m, schema).result.Failure?
    ensures var t := Replay(m, schema, siteIds, defaultSiteId);
      && t.validations == |siteIds|
      && forall i :: 0 <= i < |siteIds| ==> t.results[i] == Failure(Validate(m, schema).result.error)
    decreases |siteIds|
  {
    if |siteIds| > 0 {
      var s := GetQueryset(m, schema, siteIds[0], defaultSiteId);
      ExplicitFailureRetried(m, schema, siteIds[0], siteIds[0], defaultSiteId);
      assert Validate(s.state, schema) == Validate(m, schema) by {
        assert Split(s.state.fieldName.value) == Split(m.fieldName.value);
      }
      ReplayExplicitFailure(s.state, schema, siteIds[1..], defaultSiteId);
      var t := Replay(m, schema, siteIds, defaultSiteId);
      var rest := Replay(s.state, schema, siteIds[1..], defaultSiteId);
      forall i | 0 <= i < |siteIds|
        ensures t.results[i] == Failure(Validate(m, schema).result.error)
      {
        if i > 0 {
          assert t.results[i] == rest.results[i - 1];
        }
      }
    }
  }
}

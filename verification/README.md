# DomainManager, modelled in Dafny

`DomainManager` (in `backend/garpix_utils/managers/domain_manager.py`) is a
Django model manager for multi-site applications. It narrows every query to
the rows whose related site has a given id. The relation it filters on is a
configured path such as `author__site`. When no path is configured, it detects
a field named `site` or `sites`. The path is checked lazily, the first time a
query is built.

The model is a functional state machine. The manager's three state fields
(`_field_name`, `_depth`, `_is_validated`) form an immutable `Manager` record.
The Python code changes the manager before it raises, so every call returns a
`Step`: the new state together with either the query built or the exception
raised (`TypeErr` or `ValueErr`). The model's `_meta` is a map from field name
to `FieldKind` (`Scalar | ForeignKey | ManyToMany`). A query set is
`Empty | Filter(key, value)`. `settings.SITE_ID` is a parameter,
`defaultSiteId`.

Files:
- `results.dfy`: `Option` and `Result`.
- `path_split.dfy`: `str.split("__", 1)` and its inverse `Join`.
- `model_schema.dfy`: field kinds and field lookup.
- `domain_manager.dfy`: the manager's state and its operations.
- `domain_manager_props.dfy`: properties over one or several calls.

Behaviour worth noting, read from the code:
- For a request with no site, `by_request` calls `self.none()`. A Django
  manager builds that through its own overridden `get_queryset()`. So a
  manager that is not yet validated validates there, and can raise. `ByRequest` models this.
  `ByRequestWithoutSite` proves the empty, error-free result for a manager
  that is already validated.
- Validation can run more than once.
  - A configured path that fails (either error) leaves `_is_validated` false,
    so every later query validates again.
  - Without a path, a `site` field that is not a relation raises `TypeError`
    once. The manager is already marked validated by then, so later queries
    skip validation and reach the filter on `site__id__exact`
    (`AutoScalarSiteQuirk`).
- `by_site` on a site whose `id` is None passes None to `get_queryset`. That
  falls back to `settings.SITE_ID` (`Site.id` is an `Option`).

## Model

| member | source | states |
|---|---|---|
| PathSplit.FirstSep | backend/garpix_utils/managers/domain_manager.py:32 | finds the leftmost `__` at or after a position, or reports that there is none |
| PathSplit.Split | backend/garpix_utils/managers/domain_manager.py:32 | `split("__", 1)` gives one part (the whole path) exactly when there is no separator; otherwise it gives two parts, head + `__` + rest, split at the leftmost separator |
| PathSplit.HeadBeforeFirstSep | backend/garpix_utils/managers/domain_manager.py:32 | the text before the leftmost separator has no separator and does not end in `_` |
| PathSplit.JoinSplit | backend/garpix_utils/managers/domain_manager.py:32 | joining the split parts with `__` gives back the path |
| PathSplit.SplitJoin | backend/garpix_utils/managers/domain_manager.py:32 | a head with no separator that does not end in `_`, followed by `__` and any rest, splits into exactly that head and that rest |
| PathSplit.SplitNoSep | backend/garpix_utils/managers/domain_manager.py:32 | a path with no separator splits into itself |
| ModelSchema.GetField | backend/garpix_utils/managers/domain_manager.py:37-40 | field lookup finds a field exactly when the model has that name, and returns its kind |
| DomainManager.Init | backend/garpix_utils/managers/domain_manager.py:22-27 | a new manager keeps the configured path, is unvalidated, has depth 1, and satisfies the reachable-state invariant |
| DomainManager.Probe | backend/garpix_utils/managers/domain_manager.py:42-50 | the probe loop stops at the first candidate the model has, with every earlier candidate absent; if it finds none, no candidate is present |
| DomainManager.Validate | backend/garpix_utils/managers/domain_manager.py:29-60 | depth never shrinks; a configured path is kept; success leaves the manager validated with a field path; a failure on a configured path leaves the validated flag as it was; a failure without a path sets the flag exactly when a field was recorded |
| DomainManager.SiteIdOr | backend/garpix_utils/managers/domain_manager.py:63-64 | the filtered id is the given one, or `settings.SITE_ID` when none is given |
| DomainManager.GetQueryset | backend/garpix_utils/managers/domain_manager.py:62-68 | an unvalidated manager ends in the state `Validate` leaves and succeeds or raises exactly as `Validate` does, with the same error; a validated manager is left unchanged; a query built filters `<field path>__id__exact` on the given id, or on the default id when none is given; only an unvalidated manager can raise |
| DomainManager.ById | backend/garpix_utils/managers/domain_manager.py:70-71 | `by_id` is `get_queryset` |
| DomainManager.BySite | backend/garpix_utils/managers/domain_manager.py:78-79 | `by_site` filters on the site object's own id |
| DomainManager.ByRequest | backend/garpix_utils/managers/domain_manager.py:73-76 | a request with a site is served as `get_queryset(site.id)`; without one, the result is the empty set when the implicit `get_queryset()` succeeds and that call's error when it raises; the manager ends in the same state as after that `get_queryset` |
| DomainManagerProps.ValidateResolvesLookupName | backend/garpix_utils/managers/domain_manager.py:29-60 | checked against an independent definition of the looked-up name. Validation succeeds iff that name is a relation field. It raises `TypeError` naming it iff it is another kind of field. It raises `ValueError` naming the attempted name (None when nothing was probed successfully) iff the name is missing |
| DomainManagerProps.AutoDetectOrder | backend/garpix_utils/managers/domain_manager.py:42-50 | with no path, `site` is chosen over `sites`; `sites` is chosen only when `site` is absent; with neither, `ValueError(None)` leaves the state untouched |
| DomainManagerProps.ExplicitPathOnlyHeadMatters | backend/garpix_utils/managers/domain_manager.py:31-40 | with a path, two models that agree on the path's first segment validate identically |
| DomainManagerProps.ExplicitPathDepth | backend/garpix_utils/managers/domain_manager.py:32-35 | with a path, depth becomes max(old depth, number of parts) and stays in {1, 2}; the full path is kept |
| DomainManagerProps.ExplicitPathFilterKey | backend/garpix_utils/managers/domain_manager.py:62-68 | with a path, the filter key is the full path followed by `__id__exact` |
| DomainManagerProps.AuthorSiteExample | backend/garpix_utils/managers/domain_manager.py:11 | `author__site` with a foreign key `author` gives `Filter("author__site__id__exact", 5)` and depth 2 |
| DomainManagerProps.ConsistentPreserved | backend/garpix_utils/managers/domain_manager.py:22-79 | every operation keeps the invariant (validated implies a field path; depth in {1, 2}), so a built key is never `None__id__exact` |
| DomainManagerProps.ExplicitFailureRetried | backend/garpix_utils/managers/domain_manager.py:56-66 | a failed configured path stays unvalidated; the next query validates again and raises the same error from the same state |
| DomainManagerProps.SuccessIsFinal | backend/garpix_utils/managers/domain_manager.py:60-68 | after a successful query, later queries do not validate or change the manager, and they filter on the same key with their own id |
| DomainManagerProps.AutoScalarSiteQuirk | backend/garpix_utils/managers/domain_manager.py:42-60 | with no path and a scalar `site` field, the first query raises `TypeError("site")` but leaves the manager validated on `site`; the second query returns `site__id__exact` |
| DomainManagerProps.ExplicitScalarSiteRaisesAgain | backend/garpix_utils/managers/domain_manager.py:51-55 | with the path `site` given explicitly and a scalar field, every query raises `TypeError("site")` |
| DomainManagerProps.ByRequestWithoutSite | backend/garpix_utils/managers/domain_manager.py:73-75 | a missing or null request site on a validated manager gives the empty set and leaves the state unchanged |
| DomainManagerProps.ByRequestWithSite | backend/garpix_utils/managers/domain_manager.py:73-79 | a request with a site equals `by_id(site.id)`; an unsaved site filters on the default id |
| DomainManagerProps.Replay | backend/garpix_utils/managers/domain_manager.py:62-68 | a run of queries yields one outcome per call, the first being that call's `get_queryset` outcome; along the run depth never shrinks, a validated flag stays set, a configured path is kept, and validation runs at most once per call (what the results contain is stated by ReplayValidated and ReplayExplicitFailure) |
| DomainManagerProps.ReplayValidated | backend/garpix_utils/managers/domain_manager.py:60-66 | starting from a validated manager, no call validates, the state never changes, and call i filters on its own id |
| DomainManagerProps.ReplayValidatesAtMostOnce | backend/garpix_utils/managers/domain_manager.py:60-66 | a run whose first call succeeds validates at most once |
| DomainManagerProps.ReplayExplicitFailure | backend/garpix_utils/managers/domain_manager.py:56-66 | with a failing configured path, every call of a run validates and raises the same error |

## Left out

- Django's ORM is not modelled. `super().get_queryset()`, `.filter(...)` and `.none()` are represented by the `Query` datatype, and no query is executed.
- Errors raised by `.filter`'s own lookup resolution are not modelled. For example, Django rejects `site__id__exact` when `site` is not a relation. A `Filter` result means only that the call reached `.filter` with that key and value.
- `_meta.get_field` and `FieldDoesNotExist` are a lookup in a `Schema` map. Field objects are assumed truthy, as Django fields are, so line 51 means "a field was found".
- `select_related` is stored but never read, and `use_in_migrations` is a class flag. Neither affects the behaviour modelled here.
- Exception messages are reduced to the error kind and the field name they interpolate. The class name and model name in the `ValueError` text are dropped.
- `hasattr(request, "site")` duck typing is modelled as `Option<Option<Site>>`: a missing attribute versus a null one.
- Site ids are unbounded integers. The source puts no bound on them.
- `settings.SITE_ID` is the parameter `defaultSiteId`. It is not read from configuration.

# tntnet ecpp component addressing and dispatch, in Dafny

This project models the part of tntnet's ecpp runtime (`tntnet/framework/common/ecpp.cpp`)
that addresses components and dispatches references to them:

- `Subcompident`: a component identifier with a sub-component part. The component part produced
  by the base `Compident` parser is split once, at its first `.`. `toString` appends
  `.sub` only when there is a sub-component.
- The sub-component registry of an `EcppComponent`. `registerSubComp` keeps the first registration
  of a name. `fetchSubComp` fails with NotFound for an unknown name.
- The resolution protocol. `fetchComp(url)` fills in an empty library or component part from the
  component's own identity and tries the loader directly. When a sub-component is named, it then
  asks the fetched component for it. Only if that ends in NotFound does it map the original `url`
  through the URL mapper and fetch once more, unguarded. `fetchComp(ci)` and `createComp(ci)`
  only fill in an empty library.
- `getData`: locale-specific data from the loader, or the caller's default.

The collaborators are not modelled. They appear as the function fields of `EcppComponents.Env`:
- the base `Compident` parser and its `toString` (`parse`, `render`);
- the loader's `fetchComp`, `createComp` and `getLangData`, with the root URL mapper already
  bound (`fetch`, `create`, `langData`);
- `Urlmapper::mapComp` (`mapComp`).

The request enters only through its language tag, passed as a string. The exceptions of the
loader's `fetchComp` and `createComp` and of `mapComp` become the outcomes of `Outcomes.Outcome`: `Found`, `NotFound` (a `NotFoundException`) and `Fatal` (any other
exception). Each resolution function returns a `Run`: the outcome together with the collaborator
calls it made, in order. This lets the model state which services are consulted and how often.

Modules: `Outcomes` (outcome types), `Subcompidents` (identifiers), `EcppComponents` (the
`EcppComponent` class: registry and resolution), `Resolution` (properties of the protocol).

Behaviour of the source worth noting:
- The inner handler of `fetchComp(url)` catches every exception from the cast and the
  sub-component lookup, not only NotFound, and turns it into NotFound for the whole
  sub-identifier. The model does the same. The lookup itself can only fail with NotFound.
- Rejoining the split component part and splitting it again gives back the same sub-identifier
  only for canonical values, whose component name holds no `.`. A component part whose first `.` is its last character
  (`"b."`) loses that `.` (`Subcompidents.JoinedRecoversComponent`).
- The NotFound raised by `fetchSubComp` names the parent's identity followed by `.` and the
  requested name only when that name is non-empty, because it is built with `Subcompident::toString`.

## Model

| member | source | states |
|---|---|---|
| `Subcompidents.IndexOf` | tntnet/framework/common/ecpp.cpp:42-43 | `find('.')`: none exactly when the character is absent; otherwise an index holding it with no earlier occurrence |
| `Subcompidents.Split` | tntnet/framework/common/ecpp.cpp:39-48 | the library is kept. With no `.`, the component part is unchanged and the sub-component is empty. Otherwise the component is `.`-free and component + `.` + sub-component is the original part, so the split is at the first `.` and the suffix may itself hold `.` |
| `Subcompidents.NewSubcompident` | tntnet/framework/common/ecpp.cpp:39-48 | the constructor's in-place reassignment of `subname` then `compname` yields exactly the split value |
| `Subcompidents.FirstSeparatorUnique` | tntnet/framework/common/ecpp.cpp:42-47 | a string has only one decomposition as `a + "." + b` with `a` free of `.`, so the split is unambiguous |
| `Subcompidents.Subcompident.ToString` | tntnet/framework/common/ecpp.cpp:50-59 | the base form is a prefix of the result, and the result equals the base form exactly when the sub-component name is empty. Otherwise the base form is followed by `.` and then exactly the sub-component name |
| `Subcompidents.ToStringEndsWithJoined` | tntnet/framework/common/ecpp.cpp:50-59 | when the base form ends with the component name, `toString` is the base form's leading text followed by the rejoined component part |
| `Subcompidents.ToStringDistinguishesSubname` | tntnet/framework/common/ecpp.cpp:50-59 | over the same base, two sub-identifiers render alike if and only if their sub-component names are equal |
| `Subcompidents.JoinedRecoversComponent` | tntnet/framework/common/ecpp.cpp:42-59 | the rejoined component part (`compname`, then `.` and `subname` when non-empty) equals the original component part unless it held a `.` and the sub-component came out empty (a trailing `.` is lost) |
| `Subcompidents.ReparseJoined` | tntnet/framework/common/ecpp.cpp:42-59 | re-splitting the rejoined component part of a canonical sub-identifier gives the same sub-identifier back |
| `Subcompidents.SplitAt` | tntnet/framework/common/ecpp.cpp:42-47 | a component part made of a `.`-free name, `.`, and any suffix (dots allowed) splits into exactly that name and that suffix |
| `Subcompidents.SplitExamples` | tntnet/framework/common/ecpp.cpp:42-47 | `b.c` splits into `b`/`c`, `b` into `b`/empty, `b.c.d` into `b`/`c.d`, `.c` into empty/`c`, `b.` into `b`/empty |
| `EcppComponents.AsEcpp` | tntnet/framework/common/ecpp.cpp:108 | the capability query succeeds exactly for ecpp components and yields that component |
| `EcppComponents.EcppComponent.constructor` | tntnet/framework/common/ecpp.cpp:66-71 | a new component has the given identity and an empty registry |
| `EcppComponents.EcppComponent.RegisterSubComp` | tntnet/framework/common/ecpp.cpp:76-85 | an absent name is added. A present name leaves the registry unchanged and is reported as a duplicate. No existing entry is removed or changed, so the first registration wins |
| `EcppComponents.EcppComponent.FetchSubComp` | tntnet/framework/common/ecpp.cpp:152-160 | found exactly when the name is registered, yielding the registered entry. Otherwise NotFound carrying the parent's identity with the name appended. Never any other failure |
| `EcppComponents.EcppComponent.Defaulted` | tntnet/framework/common/ecpp.cpp:91-95 | the split of the parsed reference, with an empty library replaced by the component's own and an empty component part by its own name; the sub-component is kept |
| `EcppComponents.EcppComponent.DirectStep` | tntnet/framework/common/ecpp.cpp:97-116 | a loader failure is passed on unchanged. A found component is the answer when no sub-component is named. Otherwise the answer is found exactly when the component is an ecpp component holding that name, and NotFound for the whole sub-identifier if not, never another failure |
| `EcppComponents.EcppComponent.FetchComp` | tntnet/framework/common/ecpp.cpp:87-125 | the first call is always the loader fetch of the defaulted identifier. The mapper is consulted at most once, exactly when the direct step ends in NotFound, and then on the original `url`. Without it, the direct step's outcome is returned after that single call |
| `EcppComponents.EcppComponent.WithLibrary` | tntnet/framework/common/ecpp.cpp:129-132 | an empty library becomes the component's own, a non-empty one is kept, and the component name is preserved |
| `EcppComponents.EcppComponent.FetchCompIdent` | tntnet/framework/common/ecpp.cpp:127-137 | exactly one loader fetch, of the identifier with its library filled in. Its outcome is returned unchanged and the mapper is never consulted |
| `EcppComponents.EcppComponent.CreateComp` | tntnet/framework/common/ecpp.cpp:139-150 | exactly one loader create, of the identifier with its library filled in. Its outcome is returned unchanged and the mapper is never consulted |
| `EcppComponents.EcppComponent.GetData` | tntnet/framework/common/ecpp.cpp:162-174 | an empty language gives the default with no loader call. Otherwise exactly one data query; its data when present, else the default. Never fails |
| `Resolution.MapperConsultedIff` | tntnet/framework/common/ecpp.cpp:98-122 | the mapper is consulted (once) if and only if the loader reports NotFound, or a sub-component was named that the fetched component cannot supply |
| `Resolution.DirectSuccessSkipsMapper` | tntnet/framework/common/ecpp.cpp:98-104 | a direct fetch that succeeds with no sub-component named is the answer, after that single loader call |
| `Resolution.FatalPropagates` | tntnet/framework/common/ecpp.cpp:98-122 | a non-NotFound failure of the first fetch propagates unchanged without consulting the mapper |
| `Resolution.NonEcppFallsBack` | tntnet/framework/common/ecpp.cpp:106-114 | a sub-component of a component that is not an ecpp component sends the reference to the mapper |
| `Resolution.FallbackShape` | tntnet/framework/common/ecpp.cpp:117-122 | after a failed direct path: one `mapComp` of the original `url`, then one unguarded loader fetch whose outcome, NotFound included, is returned; a mapper failure is returned as is |
| `Resolution.OwnSubComponentResolves` | tntnet/framework/common/ecpp.cpp:91-115 | a reference to this component, in full or with library or component omitted, plus a registered sub-component name, resolves to that entry with one loader fetch of this component and no mapper call |
| `Resolution.ReportsSummaryHeader` | tntnet/framework/common/ecpp.cpp:91-115 | `reports/summary.header`, referenced from `reports/summary` with `header` registered, resolves to that sub-component without consulting the mapper |
| `Resolution.FetchCompAgreesWithIdent` | tntnet/framework/common/ecpp.cpp:87-137 | for a reference with a component part and no sub-component, `fetchComp(url)` agrees with `fetchComp(ci)` unless the loader reports NotFound |
| `Resolution.FetchAndCreateAgree` | tntnet/framework/common/ecpp.cpp:127-150 | `fetchComp(ci)` and `createComp(ci)` hand the loader the same identifier |

## Left out

- `tntnet/framework/common/unzipfile.cpp`: a thin adapter over the minizip library. Its calls are
  foreign, its stream buffer is I/O, and its error-code mapping depends on constants that are
  not part of this model.
- The `equivMonitor` read/write lock (line 64): concurrency, unused by the modelled logic.
- Logging: `log_debug` calls are dropped. The `log_error` for a duplicate registration is the
  ghost result `duplicate` of `RegisterSubComp`.
- The base `Compident` parser and `Compident::toString` are not part of this model. They are the
  `parse` and `render` parameters, so no full-string round trip is stated. `operator<<`
  (lines 36-37) only prints `toString`.
- The loader, the URL mapper and `HttpRequest::getLang` are services outside this model. They are
  parameters, and the root mapper that `fetchComp` passes to the loader is bound into `fetch`
  and `create`.
- `EcppSubComponent` is an identity only (`SubComponent`); `drop` (line 179) is a no-op and is not
  modelled. Ownership and lifetime of the returned references are not modelled.
- Exception messages other than those built here are opaque strings.
- EcppComponents.EcppComponent.GetData: the loader's `getLangData` and `request.getLang()` are
  taken never to throw (`langData` has no failure case), so "never fails" holds only under that
  assumption; an exception from either would propagate out of `getData` in the source.
- The `getSubcomps()` and `getCompident()` accessors (declared in a header that is not part of this
  model) are modelled as the fields `subcomps` and `myident`.

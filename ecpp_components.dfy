/**
 * `EcppComponent`: the per-component sub-component registry and the
 * protocol by which a component resolves references to other components.
 *
 * The collaborators (the component loader, the URL mapper, the base
 * `Compident` parser and its `toString`) are outside this model; they enter
 * as the function fields of an `Env`. Every call the protocol makes on them
 * is recorded, in order, in the `calls` of the `Run` it returns.
 */
module EcppComponents {
  import opened Outcomes
  import opened Subcompidents

  /** The identity of a registered `EcppSubComponent` object. */
  datatype SubComponent = SubComponent(handle: nat)

  /**
   * A component reference handed out by the loader: either an ecpp
   * component, with its sub-component registry, or some other kind of
   * component, of which only the identity is known.
   */
  datatype Component =
    | Ecpp(obj: EcppComponent)
    | Other(ident: Compident)

  /** What `fetchComp(url)` resolves to: a whole component or a sub-component of one. */
  datatype Target = Whole(comp: Component) | Part(sub: SubComponent)

  /** A call made on a collaborator. */
  datatype Call =
    | LoaderFetch(fetched: Compident)
    | LoaderCreate(created: Compident)
    | LoaderLangData(owner: Compident, lang: string)
    | MapperMapComp(url: string)

  /** A value together with the collaborator calls that produced it. */
  datatype Run<+T> = Run(value: T, calls: seq<Call>)

  /**
   * The services a component uses. `fetch` and `create` are the loader's
   * `fetchComp` and `createComp` with the component's root URL mapper
   * already bound; `langData` is the loader's `getLangData`, `None`
   * standing for a null pointer.
   */
  datatype Env = Env(
    parse: string -> Compident,
    render: Compident -> string,
    fetch: Compident -> Outcome<Component>,
    create: Compident -> Outcome<Component>,
    langData: (Compident, string) -> Option<string>,
    mapComp: string -> Outcome<Compident>)

  /** `dynamic_cast<EcppComponent&>` as a capability query. */
  function AsEcpp(c: Component): (e: Option<EcppComponent>)
    ensures e.Some? <==> c.Ecpp?
    ensures e.Some? ==> e.value == c.obj
  {
    match c
    case Ecpp(obj) => Some(obj)
    case Other(_) => None
  }

  /** A loader result, seen as a resolution target. */
  function AsTarget(o: Outcome<Component>): (t: Outcome<Target>)
    ensures t.Found? <==> o.Found?
    ensures o.Found? ==> t.value == Whole(o.value)
    ensures o.NotFound? ==> t == NotFound(o.what)
    ensures o.Fatal? ==> t == Fatal(o.error)
  {
    match o
    case Found(c) => Found(Whole(c))
    case NotFound(w) => NotFound(w)
    case Fatal(e) => Fatal(e)
  }

  /** How many of `calls` consult the URL mapper. */
  function MapperCalls(calls: seq<Call>): (n: nat)
    ensures n <= |calls|
    ensures n == 0 <==> forall i :: 0 <= i < |calls| ==> !calls[i].MapperMapComp?
  {
    if calls == [] then 0
    else (if calls[0].MapperMapComp? then 1 else 0) + MapperCalls(calls[1..])
  }

  class EcppComponent {
    /** The component's own identity (`myident`). */
    const myident: Compident
    /** The sub-component registry (`subcomps`). */
    var subcomps: map<string, SubComponent>

    constructor (ci: Compident)
      ensures myident == ci && subcomps == map[]
    {
      myident := ci;
      subcomps := map[];
    }

    /**
     * `registerSubComp`: the first registration of a name wins; a later one
     * only raises the diagnostic, reported here as `duplicate`.
     */
    method RegisterSubComp(name: string, comp: SubComponent) returns (ghost duplicate: bool)
      modifies this
      ensures duplicate <==> name in old(subcomps)
      ensures duplicate ==> subcomps == old(subcomps)
      ensures !duplicate ==> subcomps == old(subcomps)[name := comp]
      ensures name in subcomps && subcomps[name] == (if duplicate then old(subcomps)[name] else comp)
      ensures forall k :: k in old(subcomps) ==> k in subcomps && subcomps[k] == old(subcomps)[k]
    {
      duplicate := name in subcomps;
      if name !in subcomps {
        subcomps := subcomps[name := comp];
      }
    }

    /**
     * `fetchSubComp`: the registered sub-component, or NotFound naming the
     * parent's identity with the requested name appended.
     */
    function FetchSubComp(sub: string, render: Compident -> string): (r: Outcome<SubComponent>)
      reads this
      ensures r.Found? <==> sub in subcomps
      ensures r.Found? ==> r.value == subcomps[sub]
      ensures !r.Found? ==> r == NotFound(Subcompident(myident.libname, myident.compname, sub).ToString(render))
    {
      if sub in subcomps then Found(subcomps[sub])
      else NotFound(Subcompident(myident.libname, myident.compname, sub).ToString(render))
    }

    /**
     * The sub-identifier `fetchComp(url)` works with: the split of the base
     * parse of `url`, with an empty library or component part replaced by
     * this component's own.
     */
    function Defaulted(url: string, env: Env): (ci: Subcompident)
      ensures ci.subname == Split(env.parse(url)).subname
      ensures ci.libname == (if env.parse(url).libname == "" then myident.libname else env.parse(url).libname)
      ensures Split(env.parse(url)).compname != "" ==> ci.compname == Split(env.parse(url)).compname
      ensures Split(env.parse(url)).compname == "" ==> ci.compname == myident.compname
    {
      var ci := Split(env.parse(url));
      var ci := if ci.libname == "" then ci.(libname := myident.libname) else ci;
      if ci.compname == "" then ci.(compname := myident.compname) else ci
    }

    /**
     * The guarded block of `fetchComp(url)`: one loader fetch, then, when a
     * sub-component is named, the capability query and the registry lookup,
     * any failure of which becomes NotFound for the whole sub-identifier.
     */
    function DirectStep(ci: Subcompident, env: Env): (r: Outcome<Target>)
      reads *
      ensures !env.fetch(ci.Base()).Found? ==> r == AsTarget(env.fetch(ci.Base()))
      ensures env.fetch(ci.Base()).Found? && ci.subname == "" ==> r == Found(Whole(env.fetch(ci.Base()).value))
      ensures env.fetch(ci.Base()).Found? && ci.subname != "" ==>
                !r.Fatal? &&
                (r.Found? <==> env.fetch(ci.Base()).value.Ecpp? && ci.subname in env.fetch(ci.Base()).value.obj.subcomps) &&
                (r.Found? ==> r.value == Part(env.fetch(ci.Base()).value.obj.subcomps[ci.subname])) &&
                (r.NotFound? ==> r.what == ci.ToString(env.render))
    {
      match env.fetch(ci.Base())
      case NotFound(w) => NotFound(w)
      case Fatal(e) => Fatal(e)
      case Found(comp) =>
        if ci.subname == "" then Found(Whole(comp))
        else
          match AsEcpp(comp)
          case None => NotFound(ci.ToString(env.render))
          case Some(e) =>
            match e.FetchSubComp(ci.subname, env.render)
            case Found(s) => Found(Part(s))
            case _ => NotFound(ci.ToString(env.render))
    }

    /**
     * `fetchComp(const std::string& url)`: the direct path, and only when it
     * ends in NotFound, one consultation of the URL mapper on the original
     * `url` followed by one unguarded loader fetch.
     */
    function FetchComp(url: string, env: Env): (r: Run<Outcome<Target>>)
      reads *
      ensures |r.calls| >= 1 && r.calls[0] == LoaderFetch(Defaulted(url, env).Base())
      ensures MapperCalls(r.calls) <= 1
      ensures MapperCalls(r.calls) == 1 <==> DirectStep(Defaulted(url, env), env).NotFound?
      ensures MapperCalls(r.calls) == 0 ==> r == Run(DirectStep(Defaulted(url, env), env), r.calls[..1])
      ensures MapperCalls(r.calls) == 1 ==> r.calls[1] == MapperMapComp(url)
    {
      var ci := Defaulted(url, env);
      var direct := DirectStep(ci, env);
      var first := [LoaderFetch(ci.Base())];
      if direct.NotFound? then
        match env.mapComp(url)
        case Found(mapped) => Run(AsTarget(env.fetch(mapped)), first + [MapperMapComp(url), LoaderFetch(mapped)])
        case NotFound(w) => Run(NotFound(w), first + [MapperMapComp(url)])
        case Fatal(e) => Run(Fatal(e), first + [MapperMapComp(url)])
      else
        Run(direct, first)
    }

    /** The identifier that `fetchComp(ci)` and `createComp(ci)` pass on: `ci`, with an empty library made this component's. */
    function WithLibrary(ci: Compident): (cii: Compident)
      ensures cii.compname == ci.compname
      ensures ci.libname != "" ==> cii == ci
      ensures ci.libname == "" ==> cii.libname == myident.libname
    {
      if ci.libname == "" then ci.(libname := myident.libname) else ci
    }

    /** `fetchComp(const Compident& ci)`: one loader fetch, whose outcome is returned as it is. */
    function FetchCompIdent(ci: Compident, env: Env): (r: Run<Outcome<Component>>)
      ensures r.calls == [LoaderFetch(WithLibrary(ci))]
      ensures MapperCalls(r.calls) == 0
      ensures r.value == env.fetch(WithLibrary(ci))
    {
      var cii := WithLibrary(ci);
      Run(env.fetch(cii), [LoaderFetch(cii)])
    }

    /** `createComp(const Compident& ci)`: one loader create, whose outcome is returned as it is. */
    function CreateComp(ci: Compident, env: Env): (r: Run<Outcome<Component>>)
      ensures r.calls == [LoaderCreate(WithLibrary(ci))]
      ensures MapperCalls(r.calls) == 0
      ensures r.value == env.create(WithLibrary(ci))
    {
      var cii := WithLibrary(ci);
      Run(env.create(cii), [LoaderCreate(cii)])
    }

    /**
     * `getData`: the loader's data for this component in the request's
     * language, or the caller's default when there is no language or no data.
     */
    function GetData(lang: string, def: string, env: Env): (r: Run<string>)
      ensures lang == "" ==> r == Run(def, [])
      ensures lang != "" ==> r.calls == [LoaderLangData(myident, lang)]
      ensures r.value == def || (lang != "" && env.langData(myident, lang) == Some(r.value))
      ensures lang != "" && env.langData(myident, lang).Some? ==> r.value == env.langData(myident, lang).value
    {
      if lang == "" then Run(def, [])
      else
        match env.langData(myident, lang)
        case Some(data) => Run(data, [LoaderLangData(myident, lang)])
        case None => Run(def, [LoaderLangData(myident, lang)])
    }
  }
}

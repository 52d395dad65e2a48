/**
 * Properties of the resolution protocol of `EcppComponent`: which outcomes
 * of the direct path make `fetchComp(url)` consult the URL mapper, what it
 * does then, and how the short forms of a reference reach a component's own
 * sub-components.
 */
module Resolution {
  import opened Outcomes
  import opened Subcompidents
  import opened EcppComponents

  /**
   * The URL mapper is consulted exactly when the loader reports NotFound,
   * or when it finds the component but a sub-component was named and the
   * component either is no ecpp component or has no such sub-component.
   * It is never consulted more than once.
   */
  lemma MapperConsultedIff(self: EcppComponent, url: string, env: Env)
    ensures var ci := self.Defaulted(url, env);
            var f := env.fetch(ci.Base());
            MapperCalls(self.FetchComp(url, env).calls) ==
              if f.NotFound? || (f.Found? && ci.subname != "" && !(f.value.Ecpp? && ci.subname in f.value.obj.subcomps))
              then 1 else 0
  {
  }

  /**
   * When the loader finds the component and no sub-component was named, its
   * component is the answer and the loader fetch is the only call made.
   */
  lemma DirectSuccessSkipsMapper(self: EcppComponent, url: string, env: Env)
    requires env.fetch(self.Defaulted(url, env).Base()).Found?
    requires self.Defaulted(url, env).subname == ""
    ensures self.FetchComp(url, env) ==
              Run(Found(Whole(env.fetch(self.Defaulted(url, env).Base()).value)),
                  [LoaderFetch(self.Defaulted(url, env).Base())])
  {
  }

  /** A failure of the first loader fetch other than NotFound propagates at once. */
  lemma FatalPropagates(self: EcppComponent, url: string, env: Env)
    requires env.fetch(self.Defaulted(url, env).Base()).Fatal?
    ensures self.FetchComp(url, env) ==
              Run(Fatal(env.fetch(self.Defaulted(url, env).Base()).error),
                  [LoaderFetch(self.Defaulted(url, env).Base())])
  {
  }

  /** A named sub-component of a component that is no ecpp component sends the reference to the mapper. */
  lemma NonEcppFallsBack(self: EcppComponent, url: string, env: Env)
    requires env.fetch(self.Defaulted(url, env).Base()).Found?
    requires env.fetch(self.Defaulted(url, env).Base()).value.Other?
    requires self.Defaulted(url, env).subname != ""
    ensures MapperCalls(self.FetchComp(url, env).calls) == 1
  {
  }

  /**
   * The fallback: after the failed direct path comes one `mapComp` on the
   * original, unparsed `url`; if that maps, one more loader fetch, whose
   * outcome, NotFound included, is the answer; if it fails, its failure is.
   */
  lemma FallbackShape(self: EcppComponent, url: string, env: Env)
    requires self.DirectStep(self.Defaulted(url, env), env).NotFound?
    ensures var r := self.FetchComp(url, env);
            var first := LoaderFetch(self.Defaulted(url, env).Base());
            match env.mapComp(url)
            case Found(m) => r == Run(AsTarget(env.fetch(m)), [first, MapperMapComp(url), LoaderFetch(m)])
            case NotFound(w) => r == Run(NotFound(w), [first, MapperMapComp(url)])
            case Fatal(e) => r == Run(Fatal(e), [first, MapperMapComp(url)])
  {
  }

  /**
   * A reference that names this component (in full, or with its library or
   * component part left empty) and one of its registered sub-components
   * resolves to that sub-component with a single loader fetch of this
   * component: the mapper is not consulted, and the sub-component name is
   * never fetched as a component of its own.
   */
  lemma OwnSubComponentResolves(self: EcppComponent, url: string, env: Env, lib: string, comp: string, name: string)
    requires env.parse(url) == Compident(lib, comp + [Separator] + name)
    requires lib == "" || lib == self.myident.libname
    requires comp == "" || comp == self.myident.compname
    requires Separator !in comp && name != ""
    requires env.fetch(self.myident) == Found(Ecpp(self))
    requires name in self.subcomps
    ensures self.FetchComp(url, env) == Run(Found(Part(self.subcomps[name])), [LoaderFetch(self.myident)])
  {
    var sc := Split(env.parse(url));
    FirstSeparatorUnique(sc.compname, sc.subname, comp, name);
    assert self.Defaulted(url, env).Base() == self.myident;
  }

  /** The example reference "reports/summary.header", made from within "reports/summary". */
  lemma ReportsSummaryHeader(self: EcppComponent, env: Env, url: string)
    requires self.myident == Compident("reports", "summary")
    requires env.parse(url) == Compident("reports", "summary.header")
    requires env.fetch(self.myident) == Found(Ecpp(self))
    requires "header" in self.subcomps
    ensures self.FetchComp(url, env) == Run(Found(Part(self.subcomps["header"])), [LoaderFetch(self.myident)])
  {
    assert "summary.header" == "summary" + [Separator] + "header";
    OwnSubComponentResolves(self, url, env, "reports", "summary", "header");
  }

  /**
   * A reference without a sub-component and with a component part agrees
   * with `fetchComp(ci)` on its base parse, unless the loader reports
   * NotFound, which only `fetchComp(url)` recovers from.
   */
  lemma FetchCompAgreesWithIdent(self: EcppComponent, url: string, env: Env)
    requires env.parse(url).compname != "" && Separator !in env.parse(url).compname
    requires !env.fetch(self.WithLibrary(env.parse(url))).NotFound?
    ensures self.FetchComp(url, env).value == AsTarget(self.FetchCompIdent(env.parse(url), env).value)
    ensures self.FetchComp(url, env).calls == self.FetchCompIdent(env.parse(url), env).calls
  {
  }

  /** `fetchComp(ci)` and `createComp(ci)` address the loader with the same identifier. */
  lemma FetchAndCreateAgree(self: EcppComponent, ci: Compident, env: Env)
    ensures self.FetchCompIdent(ci, env).calls[0].fetched == self.CreateComp(ci, env).calls[0].created
  {
  }
}

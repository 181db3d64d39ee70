/** The language-redirect middleware: configuration checking, language
    resolution, strategy selection and the per-request decision to forward,
    rewrite, or rewrite and redirect. */
module LangRedirect {
  import opened GoStrings
  import opened AcceptLanguage
  import opened Strategies

  const StrategyHeader := "header"
  const StrategyPath := "path"
  const StrategyQuery := "query"

  const StatusFound := 302
  const StatusInternalServerError := 500

  /** The plugin configuration. */
  datatype Config = Config(
    languages: seq<string>,
    defaultLanguage: string,
    defaultLanguageHandling: bool,
    languageStrategy: string,
    languageParam: string,
    redirectAfterHandling: bool)

  /** The reasons `New` refuses a configuration, in the order it checks them. */
  datatype ConfigError = LanguagesRequired | DefaultLanguageRequired | LanguageParamRequired

  datatype Result<T, E> = Ok(value: T) | Err(error: E)

  /** A constructed middleware instance; the next handler is not modelled. */
  datatype LangRedirect = LangRedirect(config: Config)

  /** What happened to the request: passed on to the next handler,
      answered with a redirect to the rewritten URL, or answered with an error. */
  datatype Outcome =
    | Forwarded
    | Redirected(status: int, path: string, query: Values)
    | Failed(status: int)

  /** `New`: refuses a configuration without languages, without a default
      language, or with the query strategy and no parameter name; accepts every
      other one, whatever its strategy name. */
  function New(config: Config): (r: Result<LangRedirect, ConfigError>)
    ensures r.Ok? <==> |config.languages| > 0 && config.defaultLanguage != ""
                       && !(config.languageStrategy == StrategyQuery && config.languageParam == "")
    ensures r.Ok? ==> r.value.config == config
    ensures r == Err(LanguagesRequired) <==> |config.languages| == 0
    ensures r == Err(DefaultLanguageRequired) <==> |config.languages| > 0 && config.defaultLanguage == ""
    ensures r == Err(LanguageParamRequired)
            <==> |config.languages| > 0 && config.defaultLanguage != ""
                 && config.languageStrategy == StrategyQuery && config.languageParam == ""
  {
    if |config.languages| == 0 then Err(LanguagesRequired)
    else if config.defaultLanguage == "" then Err(DefaultLanguageRequired)
    else if config.languageStrategy == StrategyQuery && config.languageParam == "" then Err(LanguageParamRequired)
    else Ok(LangRedirect(config))
  }

  /** `getStrategy`: the strategy a name selects; any other name is an error. */
  function GetStrategy(config: Config): (r: Result<Strategy, string>)
    ensures r.Ok? <==> config.languageStrategy in {StrategyHeader, StrategyPath, StrategyQuery}
    ensures r == Ok(Header) <==> config.languageStrategy == StrategyHeader
    ensures r == Ok(Path) <==> config.languageStrategy == StrategyPath
    ensures r == Ok(Query(config.languageParam)) <==> config.languageStrategy == StrategyQuery
  {
    match config.languageStrategy
    case "header" => Ok(Header)
    case "path" => Ok(Path)
    case "query" => Ok(Query(config.languageParam))
    case _ => Err("invalid LanguageStrategy: " + config.languageStrategy)
  }

  /** The language a header value resolves to under `config`. */
  function PreferredLanguage(config: Config, acceptLanguage: string): string {
    Resolve(Candidates(acceptLanguage), config.languages, config.defaultLanguage)
  }

  /** The matching loop of `getPreferredLanguage`: scan the candidates in
      order and return the first one that is a configured language, else the
      fallback. */
  method Match(candidates: seq<string>, languages: seq<string>, fallback: string) returns (lang: string)
    ensures lang == Resolve(candidates, languages, fallback)
  {
    for i := 0 to |candidates|
      invariant Resolve(candidates, languages, fallback) == Resolve(candidates[i..], languages, fallback)
    {
      var candidate := candidates[i];
      for j := 0 to |languages|
        invariant candidate !in languages[..j]
      {
        if candidate == languages[j] {
          assert candidates[i..][0] == candidate && candidate in languages;
          return candidate;
        }
        assert languages[..j + 1] == languages[..j] + [languages[j]];
      }
      assert languages[..|languages|] == languages;
      assert candidates[i..][1..] == candidates[i + 1..];
    }
    assert candidates[|candidates|..] == [];
    return fallback;
  }

  /** `getPreferredLanguage`: parse the header, then match its entries in
      order against the configured languages. */
  method GetPreferredLanguage(g: LangRedirect, acceptLanguage: string) returns (lang: string)
    ensures lang == PreferredLanguage(g.config, acceptLanguage)
  {
    var languages := ParseAcceptLanguage(acceptLanguage);
    lang := Match(languages, g.config.languages, g.config.defaultLanguage);
  }

  /** Whether a resolved language calls for handling at all: it is not empty,
      and it is not the default language unless that is handled too. */
  predicate Handles(config: Config, lang: string) {
    lang != "" && (lang != config.defaultLanguage || config.defaultLanguageHandling)
  }

  /** The decision procedure of `ServeHTTP` on request values: the outcome and
      the request it leaves behind. */
  function Handle(config: Config, st: RequestState): (Outcome, RequestState) {
    var lang := PreferredLanguage(config, st.acceptLanguage);
    if !Handles(config, lang) then (Forwarded, st)
    else
      match GetStrategy(config)
      case Err(_) => (Failed(StatusInternalServerError), st)
      case Ok(s) =>
        var current := GetLanguage(s, st);
        if current == "" || current != lang then
          var st' := WithLanguage(s, st, lang);
          if config.redirectAfterHandling then (Redirected(StatusFound, st'.path, st'.query), st')
          else (Forwarded, st')
        else (Forwarded, st)
  }

  /** `ServeHTTP`: resolve the language, then skip, keep, or rewrite the request
      in place and redirect or forward it. */
  method ServeHTTP(g: LangRedirect, r: Request) returns (o: Outcome)
    modifies r
    ensures (o, r.State()) == Handle(g.config, old(r.State()))
  {
    var languageByHeader := GetPreferredLanguage(g, r.acceptLanguage);
    if languageByHeader != "" && (languageByHeader != g.config.defaultLanguage || g.config.defaultLanguageHandling) {
      var strategy := GetStrategy(g.config);
      if strategy.Err? {
        return Failed(StatusInternalServerError);
      }
      var languageByRequest := GetLanguage(strategy.value, r.State());
      if languageByRequest == "" || languageByRequest != languageByHeader {
        SetLanguage(strategy.value, r, languageByHeader);
        if g.config.redirectAfterHandling {
          return Redirected(StatusFound, r.path, r.query);
        }
      }
    }
    return Forwarded;
  }

  // Properties of language resolution

  /** The resolved language is a configured language or the default one, and
      it is never empty once `New` accepted the configuration and "" is not a
      configured language. */
  lemma PreferredLanguageRange(config: Config, acceptLanguage: string)
    ensures var lang := PreferredLanguage(config, acceptLanguage);
            lang in config.languages || lang == config.defaultLanguage
    ensures New(config).Ok? && "" !in config.languages
            ==> PreferredLanguage(config, acceptLanguage) != ""
  {
  }

  /** An empty header resolves to the default language, unless "" itself is
      a configured language. */
  lemma EmptyHeaderResolvesToDefault(config: Config)
    requires "" !in config.languages
    ensures PreferredLanguage(config, "") == config.defaultLanguage
  {
    CandidatesOfEmpty();
  }

  /** `New` does not forbid "" as a language (the configuration below is
      accepted); whenever "" is configured, an empty header resolves to "" and
      the request is forwarded untouched. */
  lemma EmptyLanguageAccepted(config: Config, st: RequestState)
    requires st.acceptLanguage == "" && "" in config.languages
    ensures New(Config(["", "en"], "en", true, StrategyHeader, "lang", false)).Ok?
    ensures PreferredLanguage(config, "") == ""
    ensures Handle(config, st) == (Forwarded, st)
  {
    CandidatesOfEmpty();
  }

  // Properties of the decision procedure

  /** Skip: a resolved language that is empty, or the default one while the
      default is not handled, forwards the request unchanged. */
  lemma SkipForwardsUnchanged(config: Config, st: RequestState)
    requires !Handles(config, PreferredLanguage(config, st.acceptLanguage))
    ensures Handle(config, st) == (Forwarded, st)
  {
  }

  /** An unknown strategy name passes `New` but answers every handled request
      with 500, without forwarding and without changing the request. */
  lemma UnknownStrategyFailsLate(config: Config, st: RequestState)
    requires config.languageStrategy !in {StrategyHeader, StrategyPath, StrategyQuery}
    requires |config.languages| > 0 && config.defaultLanguage != ""
    requires Handles(config, PreferredLanguage(config, st.acceptLanguage))
    ensures New(config).Ok?
    ensures Handle(config, st) == (Failed(StatusInternalServerError), st)
  {
  }

  /** With a known strategy name the middleware never answers with an error:
      it forwards or redirects. */
  lemma KnownStrategyNeverFails(config: Config, st: RequestState)
    requires config.languageStrategy in {StrategyHeader, StrategyPath, StrategyQuery}
    ensures Handle(config, st).0.Forwarded? || Handle(config, st).0.Redirected?
  {
  }

  /** No-op: when the strategy already reads the resolved language, the
      request is forwarded unchanged. */
  lemma AlreadyEncodedForwardsUnchanged(config: Config, st: RequestState, s: Strategy)
    requires Handles(config, PreferredLanguage(config, st.acceptLanguage))
    requires GetStrategy(config) == Ok(s)
    requires GetLanguage(s, st) == PreferredLanguage(config, st.acceptLanguage)
    ensures Handle(config, st) == (Forwarded, st)
  {
  }

  /** Rewrite: when the reading differs, the strategy writes the resolved
      language once; then the answer is a 302 to the rewritten URL when
      redirecting is on, and forwarding of the rewritten request otherwise. */
  lemma RewriteThenRedirectOrForward(config: Config, st: RequestState, s: Strategy)
    requires Handles(config, PreferredLanguage(config, st.acceptLanguage))
    requires GetStrategy(config) == Ok(s)
    requires GetLanguage(s, st) != PreferredLanguage(config, st.acceptLanguage)
    ensures var st' := WithLanguage(s, st, PreferredLanguage(config, st.acceptLanguage));
            Handle(config, st)
            == if config.redirectAfterHandling then (Redirected(StatusFound, st'.path, st'.query), st')
               else (Forwarded, st')
  {
  }

  /** With a plain default language the resolved language is a plain tag: it
      is a parsed candidate or the default. */
  lemma ResolvedHeaderIsPlain(config: Config, acceptLanguage: string)
    requires PlainTag(config.defaultLanguage)
    ensures PlainTag(PreferredLanguage(config, acceptLanguage))
  {
    CandidatesArePlain(acceptLanguage);
    ResolvePlain(Candidates(acceptLanguage), config.languages, config.defaultLanguage);
  }

  /** Handling a request a second time changes nothing more: the second pass
      forwards the request as the first pass left it. For the header strategy
      this needs the default language to be a plain tag; for the path strategy
      it needs an absolute path and, when the request is handled, a resolved
      language of two bytes without `/`. */
  lemma HandleIdempotent(config: Config, st: RequestState)
    requires config.languageStrategy in {StrategyHeader, StrategyPath, StrategyQuery}
    requires config.languageStrategy == StrategyHeader ==> PlainTag(config.defaultLanguage)
    requires config.languageStrategy == StrategyPath
             ==> && (st.path == "" || st.path[0] == '/')
                 && var lang := PreferredLanguage(config, st.acceptLanguage);
                    Handles(config, lang) ==> |lang| == 2 && '/' !in lang
    ensures var st' := Handle(config, st).1;
            Handle(config, st') == (Forwarded, st')
  {
    var lang := PreferredLanguage(config, st.acceptLanguage);
    var s := GetStrategy(config).value;
    if Handles(config, lang) && (GetLanguage(s, st) == "" || GetLanguage(s, st) != lang) {
      var st' := WithLanguage(s, st, lang);
      assert Handle(config, st).1 == st';
      if s.Header? {
        // The resolved language is a parsed candidate or the default, so a plain tag.
        ResolvedHeaderIsPlain(config, st.acceptLanguage);
        CandidatesOfPlainTag(lang);
        assert PreferredLanguage(config, st'.acceptLanguage) == lang;
      } else {
        assert st'.acceptLanguage == st.acceptLanguage;
      }
      SetThenGet(s, st, lang);
    }
  }

  /** The header strategy may rewrite twice when the default language is not
      a plain tag: with the default `t;params` and `t` configured, a request
      that resolves to the default gets `t;params` written into its header,
      which the second pass parses to `t` and writes again (for example the
      default `en;q=1` with `en` configured). */
  lemma HeaderNotIdempotentWithParameterisedDefault(config: Config, st: RequestState, t: string, params: string)
    requires config.languageStrategy == StrategyHeader && config.defaultLanguageHandling
    requires PlainTag(t) && t != "" && t in config.languages && ',' !in params
    requires config.defaultLanguage == t + ";" + params
    requires PreferredLanguage(config, st.acceptLanguage) == config.defaultLanguage
    ensures var st' := Handle(config, st).1;
            && st'.acceptLanguage == config.defaultLanguage
            && Handle(config, st').1.acceptLanguage == t
            && t != config.defaultLanguage
  {
    var h := config.defaultLanguage;
    assert GetStrategy(config) == Ok(Header);
    assert PreferredLanguage(config, h) == t by {
      CandidatesOfParameterisedTag(t, params);
    }
    var st' := Handle(config, st).1;
    assert st'.acceptLanguage == h by {
      if st.acceptLanguage != h {
        RewriteThenRedirectOrForward(config, st, Header);
      }
    }
    RewriteThenRedirectOrForward(config, st', Header);
  }

  /** The path strategy never sees a resolved tag of other than two bytes as
      present, whatever the path, so every pass prepends it again: the second
      pass over the rewritten request rewrites it once more (`/about` becomes
      `/fr-CA/about`, then `/fr-CA/fr-CA/about`). */
  lemma PathLongTagRewritesAgain(config: Config, st: RequestState)
    requires config.languageStrategy == StrategyPath
    requires var lang := PreferredLanguage(config, st.acceptLanguage);
             Handles(config, lang) && |lang| != 2
    ensures var lang := PreferredLanguage(config, st.acceptLanguage);
            var st' := Handle(config, st).1;
            && st'.path == PrependLanguage(st.path, lang)
            && Handle(config, st').1.path == PrependLanguage(st'.path, lang)
            && Handle(config, st').1 != st'
  {
    var lang := PreferredLanguage(config, st.acceptLanguage);
    assert GetStrategy(config) == Ok(Path);
    RewriteThenRedirectOrForward(config, st, Path);
    var st' := Handle(config, st).1;
    assert st'.acceptLanguage == st.acceptLanguage;
    RewriteThenRedirectOrForward(config, st', Path);
    assert |Handle(config, st').1.path| > |st'.path|;
  }

  /** The path strategy with redirects on loops too, for a resolved tag of
      other than two bytes: the redirect's target carries the rewritten path,
      which still does not read back the tag, so a client that follows the
      redirect with its own `Accept-Language` (`followUp`) is redirected again,
      to a path with the tag prepended once more. */
  lemma PathRedirectRepeats(config: Config, st: RequestState)
    requires config.languageStrategy == StrategyPath && config.redirectAfterHandling
    requires var lang := PreferredLanguage(config, st.acceptLanguage);
             Handles(config, lang) && |lang| != 2
    ensures var lang := PreferredLanguage(config, st.acceptLanguage);
            var o := Handle(config, st).0;
            var followUp := RequestState(st.acceptLanguage, o.path, o.query);
            && o.Redirected?
            && Handle(config, followUp).0 == Redirected(StatusFound, PrependLanguage(o.path, lang), o.query)
  {
    var lang := PreferredLanguage(config, st.acceptLanguage);
    PathLongTagRewritesAgain(config, st);
    var st' := Handle(config, st).1;
    RewriteThenRedirectOrForward(config, st, Path);
    assert RequestState(st.acceptLanguage, Handle(config, st).0.path, Handle(config, st).0.query) == st';
    RewriteThenRedirectOrForward(config, st', Path);
  }

  /** The header strategy with redirects on loops: the rewritten header is not
      part of the redirect's target, whose path and query are those of the
      request as it came in. A client that follows the redirect and sends its
      own `Accept-Language` again (the model has no client; `followUp` stands
      for that request) therefore repeats the original request and is
      redirected again. */
  lemma HeaderRedirectRepeats(config: Config, st: RequestState)
    requires config.languageStrategy == StrategyHeader
    requires Handle(config, st).0.Redirected?
    ensures var o := Handle(config, st).0;
            var followUp := RequestState(st.acceptLanguage, o.path, o.query);
            followUp == st && Handle(config, followUp).0 == o
  {
  }

  /** Client order wins: a header that lists a supported plain tag first
      resolves to it, whatever follows and whatever the configured order. */
  lemma LeadingSupportedTagWins(config: Config, t: string, rest: string)
    requires PlainTag(t) && t in config.languages
    ensures PreferredLanguage(config, t + "," + rest) == t
  {
    FirstCandidate(t, rest);
    ResolveFirstMatch(Candidates(t + "," + rest), config.languages, config.defaultLanguage, 0);
  }

  /** Example: with `en`, `fr-CA` and `de` configured, the header
      `de,fr-CA` resolves to `de`, the first listed. */
  lemma ResolutionFollowsHeaderOrder()
    ensures PreferredLanguage(Config(["en", "fr-CA", "de"], "en", false, StrategyHeader, "lang", false),
                              "de,fr-CA") == "de"
  {
    assert "de,fr-CA" == "de" + "," + "fr-CA";
    assert PlainTag("de");
    LeadingSupportedTagWins(Config(["en", "fr-CA", "de"], "en", false, StrategyHeader, "lang", false),
                            "de", "fr-CA");
  }
}

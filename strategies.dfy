/** The three ways a request can carry its language: the `Accept-Language`
    header, a leading path segment, or one query parameter. Each strategy
    reads the language a request currently carries and writes a new one into
    the request in place. */
module Strategies {
  import opened GoStrings

  /** A parsed query string, as Go's `url.Values`: each key with its values. */
  type Values = map<string, seq<string>>

  /** The parts of an HTTP request the strategies read and write. */
  datatype RequestState = RequestState(acceptLanguage: string, path: string, query: Values)

  /** The in-flight request; the strategies update its fields in place. */
  class Request {
    var acceptLanguage: string
    var path: string
    var query: Values

    function State(): RequestState
      reads this
    {
      RequestState(acceptLanguage, path, query)
    }
  }

  /** The closed set of strategies; `Query` carries the parameter name. */
  datatype Strategy = Header | Path | Query(param: string)

  /** `url.Values.Get`: the first value stored under `key`, or "" when the key
      is absent or has no value. */
  function QueryGet(q: Values, key: string): (v: string)
    ensures key !in q || q[key] == [] ==> v == ""
    ensures key in q && q[key] != [] ==> v == q[key][0]
  {
    if key in q && |q[key]| > 0 then q[key][0] else ""
  }

  /** `url.Values.Set`: `key` now holds exactly `[v]`; other keys keep their values. */
  function QuerySet(q: Values, key: string, v: string): (q': Values)
    ensures q'.Keys == q.Keys + {key}
    ensures q'[key] == [v]
    ensures forall k :: k in q && k != key ==> q'[k] == q[k]
  {
    q[key := [v]]
  }

  /** The path strategy's reading: the second `/`-separated segment when it is
      exactly two bytes long, else "". */
  function PathLanguage(path: string): (lang: string)
    ensures lang == "" || (|lang| == 2 && '/' !in lang)
  {
    var segments := Split(path, '/');
    SplitPiecesLackSeparator(path, '/');
    if |segments| > 1 && |segments[1]| == 2 then segments[1] else ""
  }

  /** The path strategy's write: `lang` becomes a new first segment. */
  function PrependLanguage(path: string, lang: string): string {
    if path == "/" then "/" + lang else "/" + lang + path
  }

  /** What each strategy reads from a request. The header strategy returns the
      raw header value, not a parsed tag. */
  function GetLanguage(s: Strategy, st: RequestState): string {
    match s
    case Header => st.acceptLanguage
    case Path => PathLanguage(st.path)
    case Query(param) => QueryGet(st.query, param)
  }

  /** The request each strategy's write leaves behind. */
  function WithLanguage(s: Strategy, st: RequestState, lang: string): RequestState {
    match s
    case Header => st.(acceptLanguage := lang)
    case Path => st.(path := PrependLanguage(st.path, lang))
    case Query(param) => st.(query := QuerySet(st.query, param, lang))
  }

  /** The strategies' `SetLanguage`: rewrite the request in place. */
  method SetLanguage(s: Strategy, r: Request, lang: string)
    modifies r
    ensures r.State() == WithLanguage(s, old(r.State()), lang)
  {
    match s
    case Header =>
      r.acceptLanguage := lang;
    case Path =>
      if r.path == "/" {
        r.path := "/" + lang;
      } else {
        r.path := "/" + lang + r.path;
      }
    case Query(param) =>
      var query := r.query;
      query := QuerySet(query, param, lang);
      r.query := query;
  }

  /** `t` starts with a two-byte segment: two bytes other than `/`, then the
      end of `t` or a `/`. */
  predicate StartsWithTwoByteSegment(t: string) {
    2 <= |t| && t[0] != '/' && t[1] != '/' && (|t| == 2 || t[2] == '/')
  }

  /** The piece before the first `/` is two bytes long exactly when `t`
      starts with a two-byte segment. */
  lemma SegmentOfTwo(t: string)
    ensures var seg := BeforeFirst(t, '/');
            (|seg| == 2 <==> StartsWithTwoByteSegment(t))
            && (|seg| == 2 ==> seg == t[..2])
  {
    BeforeFirstLacksSeparator(t, '/');
  }

  /** An independent statement of the path reading, by scanning instead of
      splitting: find the first `/`; the language is the two-byte segment
      right after it, if there is one. */
  lemma PathLanguageByScan(path: string)
    ensures var i := IndexByte(path, '/');
            PathLanguage(path)
            == if 0 <= i && StartsWithTwoByteSegment(path[i + 1..]) then path[i + 1..][..2] else ""
  {
    var i := IndexByte(path, '/');
    if 0 <= i {
      var tail := path[i + 1..];
      var seg := BeforeFirst(tail, '/');
      var segments := Split(path, '/');
      assert segments == [path[..i]] + Split(tail, '/');
      SplitHead(tail, '/');
      assert |segments| > 1 && segments[1] == seg;
      assert PathLanguage(path) == if |seg| == 2 then seg else "";
      SegmentOfTwo(tail);
    } else {
      assert Split(path, '/') == [path];
    }
  }

  /** Path round trip: after prepending `lang` to an absolute (or empty) path,
      the path strategy reads back `lang` when it is two bytes long, and
      nothing otherwise, so longer tags such as `fr-CA` are never seen as
      already present. */
  lemma PathRoundTrip(path: string, lang: string)
    requires path == "" || path[0] == '/'
    requires '/' !in lang
    ensures PathLanguage(PrependLanguage(path, lang)) == if |lang| == 2 then lang else ""
  {
    var rest := if path == "/" then "" else path;
    var p := PrependLanguage(path, lang);
    assert p == "/" + lang + rest;
    assert IndexByte(p, '/') == 0;
    PathLanguageByScan(p);
    var t := p[1..];
    assert t == lang + rest;
    if |lang| == 2 {
      assert t[..2] == lang;
    } else if |lang| < 2 && 2 <= |t| {
      assert t[|lang|] == '/';
    } else if |lang| > 2 {
      assert t[2] == lang[2];
    }
  }

  /** Every strategy reads back what it wrote, provided the path strategy
      writes a two-byte tag without `/` into an absolute (or empty) path. */
  lemma SetThenGet(s: Strategy, st: RequestState, lang: string)
    requires s.Path? ==> (st.path == "" || st.path[0] == '/') && |lang| == 2 && '/' !in lang
    ensures GetLanguage(s, WithLanguage(s, st, lang)) == lang
  {
    if s.Path? {
      PathRoundTrip(st.path, lang);
    }
  }

  /** Each strategy writes its own channel only: the header strategy leaves
      path and query alone, the path strategy header and query, and the query
      strategy the header, the path and every other parameter. */
  lemma WriteTouchesOneChannel(s: Strategy, st: RequestState, lang: string)
    ensures var st' := WithLanguage(s, st, lang);
            && (!s.Header? ==> st'.acceptLanguage == st.acceptLanguage)
            && (!s.Path? ==> st'.path == st.path)
            && (!s.Query? ==> st'.query == st.query)
            && (s.Query? ==> forall k :: k in st.query && k != s.param ==> st'.query[k] == st.query[k])
  {
  }

  /** The heuristic also takes unrelated two-byte first segments for a language. */
  lemma PathHeuristicMisreads()
    ensures PathLanguage("/js/app.js") == "js"
  {
    PathRoundTrip("/app.js", "js");
    assert PrependLanguage("/app.js", "js") == "/js/app.js";
  }

  /** Examples: `/` becomes `/en`, `/about` becomes `/en/about`. */
  lemma PathExamples()
    ensures PrependLanguage("/", "en") == "/en"
    ensures PrependLanguage("/about", "en") == "/en/about"
  {
  }
}

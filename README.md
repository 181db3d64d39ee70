# Language redirect middleware, modelled in Dafny

This project models the core of a Traefik middleware plugin, `lang_redirect.go`. The plugin
works out which language a client wants and makes sure the request it passes on says so.

- **Preferred language.** The plugin reads the `Accept-Language` header. It splits the header
  on `,`, drops everything from the first `;` on in each part (quality values
  included), and trims white space. It then picks the first listed tag that is one of the configured languages, and falls
  back to the default language when none is.
- **Strategies.** Three strategies can carry that language in the request:
  - **header:** the `Accept-Language` value itself;
  - **path:** a leading two-byte path segment;
  - **query:** one named query parameter.
- **Per request**, `ServeHTTP` does one of four things:
  - skips the request: the language is empty, or it is the default and the default is not handled;
  - answers 500 without passing the request on: the request is handled, but the strategy name
    is none of the three known ones;
  - keeps the request as it is: the strategy already reads that language;
  - rewrites the request in place: it then answers with a 302 redirect to the rewritten URL, or
    passes the request on.
- **Construction.** `New` checks the configuration.

The model has four modules, one per file:

- `GoStrings` (`go_strings.dfy`): the parts of Go's `strings` package the plugin calls.
  - `Split` on a one-byte separator, `SplitN(…, 2)[0]` (as `BeforeFirst`) and `TrimSpace`.
  - Each comes with its laws: piece count, no separator inside a piece, split/join round trips, and
    trimming removes only white space.
  - A Go string is a byte sequence. It is modelled as a `string` with one char per byte.
- `AcceptLanguage` (`accept_language.dfy`): `parseAcceptLanguage`, and the matching done by
  `getPreferredLanguage`.
  - The parser is a method with a loop. It is proved against the function `Candidates`.
  - `Resolve` is the matching rule, written as a function.
- `Strategies` (`strategies.dfy`): the three strategies.
  - `Strategy` is a closed datatype `Header | Path | Query(param)`.
  - The request is a class, `Request`, whose header, path and query fields `SetLanguage` updates
    in place. `RequestState` is its value.
  - Reading is `GetLanguage`. Writing is specified by `WithLanguage`.
- `LangRedirect` (`lang_redirect.dfy`): the rest of the core.
  - `New`, `getStrategy` and the `getPreferredLanguage` method.
  - `ServeHTTP` as a module-level method that takes the instance and the `Request` object and
    updates the request in place; it is proved equal to the decision function `Handle`.
  - The properties of the decision procedure: skip, no-op, rewrite-then-redirect-or-forward,
    idempotence, and the redirect loop.

## Behaviour worth knowing

The model follows the code, including these consequences of it:

- **An empty header is one empty entry.** The parser turns an empty `Accept-Language` into `[""]`,
  not an empty list. `strings.Split("", ",")` returns one empty piece. See
  `AcceptLanguage.CandidatesOfEmpty`.
- **`New` does not check the strategy name.** An unknown name is accepted, and every handled
  request then fails with 500. See `LangRedirect.UnknownStrategyFailsLate`. The middleware
  forwards or redirects every request only when the strategy name is one of the three known
  ones. See `LangRedirect.KnownStrategyNeverFails`.
- **The resolved language can be empty.** `New` does not forbid `""` among the languages. With `""`
  configured, an empty header resolves to `""`, not to the default, and the request is passed on
  untouched. See `LangRedirect.EmptyLanguageAccepted`.
- **The header strategy is idempotent when the default language is a plain tag** (no `,` or `;`,
  and no edge white space): with a known strategy name, a second pass then leaves the request
  unchanged. See `LangRedirect.HandleIdempotent`. A plain default is sufficient, not necessary.
  The header is written twice when all of these hold: default handling is on; the default is
  `t;params` with `t` configured; and the request's header resolves to the default, that is, it
  names no configured language. For example, with the default `en;q=1` and `en` configured, a
  request with the header `xx` gets `en;q=1` on the first pass and `en` on the second. See
  `LangRedirect.HeaderNotIdempotentWithParameterisedDefault`.
- **The header strategy with redirects loops.** The redirect target is the URL, which does not
  carry the rewritten header. A client that follows the redirect and sends its own
  `Accept-Language` again therefore repeats the original request, and it is redirected again. See
  `LangRedirect.HeaderRedirectRepeats`.
- **The path heuristic misreads short segments and misses long tags.** Any two-byte first segment
  counts as a language: `/js/app.js` reads as `js`. A tag of any other length, such as `fr-CA`, is
  never read back. A path rewrite with such a tag therefore happens again on every pass. See
  `Strategies.PathHeuristicMisreads`, `Strategies.PathRoundTrip` and
  `LangRedirect.PathLongTagRewritesAgain`. With redirects on, the path strategy loops too: each
  follow-up request is redirected to a path with the tag prepended once more. See
  `LangRedirect.PathRedirectRepeats`.

## Model

| member | source | states |
|---|---|---|
| LangRedirect.New | lang_redirect.go:43-60 | construction fails exactly when the language list is empty, the default language is empty, or the strategy is `query` with an empty parameter name; the errors come in that order, each named exactly by its condition; otherwise the instance keeps the configuration, whatever the strategy name |
| LangRedirect.GetStrategy | lang_redirect.go:115-126 | succeeds exactly for `header`, `path` and `query`, mapping each to its own variant (the query variant carries the configured parameter name); any other name is an error |
| AcceptLanguage.Tag | lang_redirect.go:108-109 | one part cut at its first `;` and trimmed; its properties are stated by AcceptLanguage.TagOfPart and AcceptLanguage.TagDropsParameters |
| AcceptLanguage.Candidates | lang_redirect.go:104-112 | the parser's result as a function of the header; stated by AcceptLanguage.CandidatesByPart, CandidatesArePlain, CandidatesOfEmpty, CandidatesOfOnePart, CandidatesOfPlainTag, CandidatesOfParameterisedTag and FirstCandidate, and ParseAcceptLanguage is proved equal to it |
| AcceptLanguage.ParseAcceptLanguage | lang_redirect.go:104-113 | returns one entry per comma-separated part, one more than the number of commas, in header order; each entry is that part cut at its first `;` and trimmed, so no entry holds `,` or `;` or starts or ends with white space |
| AcceptLanguage.CandidatesByPart | lang_redirect.go:104-112 | a list holding the trimmed tag of each comma-separated part equals the candidate list, has one entry more than there are commas, and holds plain tags only |
| AcceptLanguage.TagOfPart | lang_redirect.go:107-110 | a part without a comma reduces to a plain tag, and a plain tag reduces to itself |
| AcceptLanguage.CandidatesArePlain | lang_redirect.go:104-112 | every parsed entry is a plain tag |
| AcceptLanguage.CandidatesOfEmpty | lang_redirect.go:104-112 | the empty header parses to one empty entry |
| AcceptLanguage.CandidatesOfOnePart | lang_redirect.go:104-112 | a header without a comma parses to exactly one entry, its own tag |
| AcceptLanguage.CandidatesOfPlainTag | lang_redirect.go:104-112 | a plain tag parses to itself alone |
| AcceptLanguage.TagDropsParameters | lang_redirect.go:108-109 | everything from the first `;` on is dropped, quality values included |
| AcceptLanguage.CandidatesOfParameterisedTag | lang_redirect.go:104-112 | `t;params` without a comma parses to `[t]` |
| AcceptLanguage.FirstCandidate | lang_redirect.go:105-110 | a header starting with a plain tag and a comma has that tag as its first entry |
| AcceptLanguage.Resolve | lang_redirect.go:94-101 | the result is a configured language or the fallback; it is a candidate that is configured, or it is the fallback and no candidate is configured |
| AcceptLanguage.ResolvePlain | lang_redirect.go:94-101 | resolving among plain tags with a plain fallback yields a plain tag (a corollary of Resolve's contract) |
| AcceptLanguage.ResolveFirstMatch | lang_redirect.go:94-100 | the result is the first candidate in header order that is configured, whatever the order of the configured list |
| LangRedirect.PreferredLanguage | lang_redirect.go:92-102 | the language a header resolves to; stated by LangRedirect.PreferredLanguageRange, EmptyHeaderResolvesToDefault, LeadingSupportedTagWins and AcceptLanguage.ResolveFirstMatch, and GetPreferredLanguage is proved equal to it |
| LangRedirect.Match | lang_redirect.go:94-101 | the nested scan returns the first candidate found in the configured list, else the fallback |
| LangRedirect.GetPreferredLanguage | lang_redirect.go:92-102 | parsing then scanning yields the language the header resolves to |
| LangRedirect.PreferredLanguageRange | lang_redirect.go:92-102 | the resolved language is configured or the default, and is non-empty for an accepted configuration without `""` among its languages |
| LangRedirect.EmptyHeaderResolvesToDefault | lang_redirect.go:92-112 | an empty header resolves to the default language unless `""` is configured |
| LangRedirect.EmptyLanguageAccepted | lang_redirect.go:43-66 | `New` accepts a configuration listing `""` as a language; whenever `""` is configured, an empty header resolves to `""` and the request is passed on unchanged |
| LangRedirect.Handles | lang_redirect.go:66 | the skip test: a resolved language is handled when it is non-empty and is not the default unless the default is handled; used by LangRedirect.SkipForwardsUnchanged |
| LangRedirect.Handle | lang_redirect.go:63-87 | the decision procedure on request values; stated by LangRedirect.SkipForwardsUnchanged, UnknownStrategyFailsLate, KnownStrategyNeverFails, AlreadyEncodedForwardsUnchanged, RewriteThenRedirectOrForward, HandleIdempotent, PathLongTagRewritesAgain, HeaderRedirectRepeats and PathRedirectRepeats, and ServeHTTP is proved equal to it |
| LangRedirect.ServeHTTP | lang_redirect.go:63-87 | the outcome and the request it leaves behind are those `Handle` prescribes for the request as it was |
| LangRedirect.SkipForwardsUnchanged | lang_redirect.go:66-86 | an empty language, or the default one while the default is not handled, passes the request on unchanged |
| LangRedirect.UnknownStrategyFailsLate | lang_redirect.go:43-69 | an unknown strategy name passes `New` and answers every handled request with 500, leaving it unchanged and not passing it on |
| LangRedirect.KnownStrategyNeverFails | lang_redirect.go:63-87 | with a known strategy name the outcome is always a forward or a redirect |
| LangRedirect.AlreadyEncodedForwardsUnchanged | lang_redirect.go:72-86 | when the strategy already reads the resolved language, the request is passed on unchanged |
| LangRedirect.RewriteThenRedirectOrForward | lang_redirect.go:72-86 | otherwise the strategy writes the language once; the answer is a 302 to the rewritten path and query when redirects are on, and otherwise the rewritten request is passed on |
| LangRedirect.ResolvedHeaderIsPlain | lang_redirect.go:92-112 | with a plain default language the resolved language is a plain tag |
| LangRedirect.HandleIdempotent | lang_redirect.go:63-87 | with a known strategy name, a second pass over the request the first pass left behind passes it on unchanged (header: plain default; path: absolute path and, when handled, a resolved language of two bytes without `/`; query: no further condition) |
| LangRedirect.PathLongTagRewritesAgain | lang_redirect.go:66-81 | under the path strategy, for any path, a handled resolved language of other than two bytes is prepended on the first pass and prepended again on the second, which changes the request once more |
| LangRedirect.HeaderNotIdempotentWithParameterisedDefault | lang_redirect.go:146-152 | with default handling on, the default `t;params` (`t` a non-empty plain tag, `params` without `,`), `t` configured, and a request whose header resolves to the default, the header is written twice: first `t;params`, then `t` |
| LangRedirect.HeaderRedirectRepeats | lang_redirect.go:74-80 | under the header strategy, the follow-up request for a redirect's target, sent with the client's own header, is the original request and gets the same redirect |
| LangRedirect.PathRedirectRepeats | lang_redirect.go:74-80 | under the path strategy with redirects on, for any path, a handled resolved language of other than two bytes makes the follow-up request for the redirect's target, sent with the client's own header, redirect again, to that target with the tag prepended once more |
| LangRedirect.LeadingSupportedTagWins | lang_redirect.go:94-100 | a header whose first entry is a configured plain tag resolves to it, whatever follows |
| LangRedirect.ResolutionFollowsHeaderOrder | lang_redirect.go:92-102 | with `en`, `fr-CA`, `de` configured, `de,fr-CA` resolves to `de` |
| Strategies.QueryGet | lang_redirect.go:170-173 | the first value under the parameter, or "" when the parameter is absent or empty; what the query strategy promises (reading back what it wrote, other parameters untouched) is stated by Strategies.SetThenGet and Strategies.WriteTouchesOneChannel |
| Strategies.QuerySet | lang_redirect.go:175-179 | the parameter then holds exactly the language; every other parameter keeps its values |
| Strategies.GetLanguage | lang_redirect.go:146-173 | the three readers; stated by Strategies.SetThenGet, PathLanguageByScan, PathRoundTrip and PathHeuristicMisreads |
| Strategies.PathLanguage | lang_redirect.go:154-160 | the path strategy reads "" or a two-byte segment without `/` |
| Strategies.PathLanguageByScan | lang_redirect.go:154-160 | what the path strategy reads is the two-byte segment right after the first `/`, or "" |
| Strategies.SegmentOfTwo | lang_redirect.go:155-156 | the piece before the first `/` is two bytes long exactly when the text starts with a two-byte segment |
| Strategies.PathRoundTrip | lang_redirect.go:154-168 | after prepending a tag without `/` to an absolute or empty path, the path strategy reads back the tag if it is two bytes long and "" otherwise |
| Strategies.PathHeuristicMisreads | lang_redirect.go:154-160 | `/js/app.js` reads as the language `js` |
| Strategies.PrependLanguage | lang_redirect.go:162-168 | the path write; stated by Strategies.PathExamples and Strategies.PathRoundTrip |
| Strategies.WithLanguage | lang_redirect.go:150-179 | the three writes on request values; stated by Strategies.SetThenGet and Strategies.WriteTouchesOneChannel, and SetLanguage is proved to perform it in place |
| Strategies.PathExamples | lang_redirect.go:162-168 | `/` becomes `/en` and `/about` becomes `/en/about` |
| Strategies.SetLanguage | lang_redirect.go:150-179 | the request fields after the write are those `WithLanguage` prescribes |
| Strategies.SetThenGet | lang_redirect.go:146-179 | each strategy reads back what it wrote (the path strategy when given a two-byte tag without `/` and an absolute or empty path) |
| Strategies.WriteTouchesOneChannel | lang_redirect.go:150-179 | a write changes only its own channel, and the query write changes no other parameter |
| GoStrings.Split | lang_redirect.go:105 | the result is never empty |
| GoStrings.SplitCount | lang_redirect.go:105 | the number of pieces is one more than the number of separators |
| GoStrings.SplitPiecesLackSeparator | lang_redirect.go:105 | no piece holds the separator |
| GoStrings.SplitJoin | lang_redirect.go:105 | joining the pieces with the separator gives back the input |
| GoStrings.JoinSplit | lang_redirect.go:105 | splitting a join of separator-free pieces gives back the pieces |
| GoStrings.BeforeFirst | lang_redirect.go:108 | the result is a prefix of the input, followed in the input by the separator unless it is all of the input |
| GoStrings.BeforeFirstLacksSeparator | lang_redirect.go:108 | the result holds no separator |
| GoStrings.SplitHead | lang_redirect.go:155 | the first piece of a split is the text before the first separator |
| GoStrings.TrimSpace | lang_redirect.go:109 | the result neither starts nor ends with white space, and text without edge white space is unchanged |
| GoStrings.TrimLeftDropsSpace | lang_redirect.go:109 | only white space is removed at the front |
| GoStrings.TrimRightDropsSpace | lang_redirect.go:109 | only white space is removed at the back |
| GoStrings.TrimSpaceKeeps | lang_redirect.go:109 | trimming introduces no byte that was not in the input |

## Left out

- The HTTP plumbing is not modelled:
  - the `ResponseWriter`;
  - the text of the 500 body written by `http.Error`;
  - the formatting of the `Location` header by `http.Redirect`.
- A redirect is recorded as `Redirected(302, path, query)`. `r.URL.String()` is modelled by the
  rewritten path and query; the scheme, host and fragment are not modelled.
- Passing the request on to `next.ServeHTTP` is recorded as the outcome `Forwarded`. The next
  handler is not modelled.
- The query string is modelled as its parsed form, `url.Values` (a map from key to values). Three
  things are not modelled, because they are encoding details the plugin delegates to `net/url`:
  - parsing `RawQuery`, including percent-decoding and dropping malformed pairs;
  - re-encoding it with `Encode`, which sorts keys and percent-encodes;
  - the resulting reordering of parameters in `RawQuery`.
- Header names are not canonicalised, and a request has exactly one `Accept-Language` value. Go's
  `Header.Get` returns the first of several values; a missing header reads as "".
- Strategies.PathLanguage: the path is the decoded `URL.Path`; `RawPath` is not modelled.
- GoStrings.TrimSpace: trims ASCII white space only. Go also trims Unicode white space (for
  example U+0085 and U+00A0 in UTF-8), which would need UTF-8 decoding of the byte string.
- `CreateConfig` is not modelled: it is a constant record of defaults. The YAML tags are not
  modelled either.
- `New`'s `ctx`, `next` and `name` parameters are not modelled: `New` reads none of them except
  `next`, which it only stores.
- The error message texts of `New` are modelled as the variants of `ConfigError`.
- `getStrategy` returns a freshly allocated strategy object. It is modelled as a value of the
  `Strategy` datatype.
- Concurrent requests sharing one instance are not modelled. The instance is never written after
  `New`, so nothing is lost.

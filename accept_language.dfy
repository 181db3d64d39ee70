/** Reading the `Accept-Language` field (section 12.5.4 of RFC 9110) the way
    the middleware does: split on `,`, drop every `;` parameter (so quality
    values are ignored, not honoured) and trim white space; then pick the
    first listed tag that is a supported language. */
module AcceptLanguage {
  import opened GoStrings

  /** A tag as the parser can produce it: no `,` or `;` inside and no white
      space at either end. */
  predicate PlainTag(t: string) {
    ',' !in t && ';' !in t && NoEdgeSpace(t)
  }

  /** One comma-separated part reduced to its tag: the text before the first
      `;`, trimmed. */
  function Tag(part: string): string {
    TrimSpace(BeforeFirst(part, ';'))
  }

  /** The candidate list of a header value: one tag per comma-separated part. */
  function Candidates(header: string): seq<string> {
    var parts := Split(header, ',');
    seq(|parts|, k requires 0 <= k < |parts| => Tag(parts[k]))
  }

  /** The parser: one entry per comma-separated part of `header`, in order;
      so `""` gives `[""]`, and the list is never empty. */
  method ParseAcceptLanguage(header: string) returns (languages: seq<string>)
    ensures |languages| == Count(header, ',') + 1
    ensures languages == Candidates(header)
    ensures forall k :: 0 <= k < |languages| ==> PlainTag(languages[k])
  {
    var parts := Split(header, ',');
    languages := [];
    for i := 0 to |parts|
      invariant |languages| == i
      invariant forall k :: 0 <= k < i ==> languages[k] == Tag(parts[k])
    {
      var lang := BeforeFirst(parts[i], ';');
      lang := TrimSpace(lang);
      languages := languages + [lang];
    }
    CandidatesByPart(header, languages);
  }

  /** A list holding the tag of each comma-separated part, in order, is the
      candidate list: one entry more than there are commas, each a plain tag. */
  lemma CandidatesByPart(header: string, languages: seq<string>)
    requires |languages| == |Split(header, ',')|
    requires forall k :: 0 <= k < |languages| ==> languages[k] == Tag(Split(header, ',')[k])
    ensures |languages| == Count(header, ',') + 1
    ensures languages == Candidates(header)
    ensures forall k :: 0 <= k < |languages| ==> PlainTag(languages[k])
  {
    SplitCount(header, ',');
    CandidatesArePlain(header);
  }

  /** A part cut out by the comma split reduces to a plain tag, and a plain
      tag is its own tag. */
  lemma TagOfPart(part: string)
    requires ',' !in part
    ensures PlainTag(Tag(part))
    ensures PlainTag(part) ==> Tag(part) == part
  {
    var cut := BeforeFirst(part, ';');
    BeforeFirstLacksSeparator(part, ';');
    TrimSpaceKeeps(cut, ';');
    assert ',' !in cut;
    TrimSpaceKeeps(cut, ',');
    if ';' !in part {
      IndexByteIsFirst(part, ';');
    }
  }

  /** Every candidate of a header is a plain tag. */
  lemma CandidatesArePlain(header: string)
    ensures forall k :: 0 <= k < |Candidates(header)| ==> PlainTag(Candidates(header)[k])
  {
    var parts := Split(header, ',');
    SplitPiecesLackSeparator(header, ',');
    forall k | 0 <= k < |parts|
      ensures PlainTag(Candidates(header)[k])
    {
      TagOfPart(parts[k]);
    }
  }

  /** An empty header is one empty candidate, not an empty list. */
  lemma CandidatesOfEmpty()
    ensures Candidates("") == [""]
  {
    assert Split("", ',') == [""];
    assert BeforeFirst("", ';') == "";
  }

  /** A header without a comma is a single part. */
  lemma CandidatesOfOnePart(part: string)
    requires ',' !in part
    ensures Candidates(part) == [Tag(part)]
  {
    assert Split(part, ',') == [part] by {
      IndexByteIsFirst(part, ',');
    }
    var c := Candidates(part);
    assert |c| == 1 && c[0] == Tag(part);
  }

  /** A plain tag parses to itself alone: this is what makes writing the
      resolved tag back into the header stable. */
  lemma CandidatesOfPlainTag(t: string)
    requires PlainTag(t)
    ensures Candidates(t) == [t]
  {
    CandidatesOfOnePart(t);
    TagOfPart(t);
  }

  /** Parameters after `;`, quality values included, are dropped. */
  lemma TagDropsParameters(t: string, params: string)
    requires ';' !in t && NoEdgeSpace(t)
    ensures Tag(t + ";" + params) == t
  {
    var part := t + ";" + params;
    assert BeforeFirst(part, ';') == t by {
      assert part == t + (";" + params);
      IndexByteAfter(t, ";" + params, ';');
      assert part[..|t|] == t;
    }
  }

  /** A single part with parameters parses to its tag alone. */
  lemma CandidatesOfParameterisedTag(t: string, params: string)
    requires PlainTag(t) && ',' !in params
    ensures Candidates(t + ";" + params) == [t]
  {
    var h := t + ";" + params;
    assert ',' !in h;
    CandidatesOfOnePart(h);
    TagDropsParameters(t, params);
  }

  /** A header that starts with a plain tag and a comma has that tag as its
      first candidate. */
  lemma FirstCandidate(t: string, rest: string)
    requires PlainTag(t)
    ensures Candidates(t + "," + rest)[0] == t
  {
    var h := t + ("," + rest);
    assert t + "," + rest == h;
    IndexByteAfter(t, "," + rest, ',');
    assert h[..|t|] == t;
    assert Split(h, ',')[0] == t;
    TagOfPart(t);
  }

  /** The first candidate, in header order, that is one of `languages`;
      `fallback` when none is. */
  function Resolve(candidates: seq<string>, languages: seq<string>, fallback: string): (r: string)
    ensures r in languages || r == fallback
    ensures (r in candidates && r in languages)
            || (r == fallback && forall k :: 0 <= k < |candidates| ==> candidates[k] !in languages)
  {
    if candidates == [] then fallback
    else if candidates[0] in languages then candidates[0]
    else Resolve(candidates[1..], languages, fallback)
  }

  /** Resolving among plain tags with a plain fallback yields a plain tag: a
      corollary of `Resolve`'s contract, since the result is a candidate or the
      fallback. */
  lemma ResolvePlain(candidates: seq<string>, languages: seq<string>, fallback: string)
    requires PlainTag(fallback)
    requires forall k :: 0 <= k < |candidates| ==> PlainTag(candidates[k])
    ensures PlainTag(Resolve(candidates, languages, fallback))
  {
  }

  /** Client order wins: the result is the first supported candidate, whatever
      the order of `languages`. */
  lemma {:induction false} ResolveFirstMatch(candidates: seq<string>, languages: seq<string>,
                                             fallback: string, k: nat)
    requires k < |candidates| && candidates[k] in languages
    requires forall j :: 0 <= j < k ==> candidates[j] !in languages
    ensures Resolve(candidates, languages, fallback) == candidates[k]
  {
    if k > 0 {
      assert candidates[0] !in languages;
      ResolveFirstMatch(candidates[1..], languages, fallback, k - 1);
    }
  }
}

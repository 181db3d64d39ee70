/** The functions of Go's `strings` package that the middleware relies on.
    A Go string is a sequence of bytes; the model writes it as a `string`
    holding one char per byte, so `|s|` is Go's `len(s)`.
    The functions' own contracts are kept free of quantifiers; the facts that
    quantify over the bytes of a string are lemmas, called where needed. */
module GoStrings {

  /** The ASCII white space that `strings.TrimSpace` removes. */
  predicate IsSpace(ch: char) {
    ch == ' ' || ch == '\t' || ch == '\n' || ch == '\U{B}' || ch == '\U{C}' || ch == '\r'
  }

  /** Neither the first nor the last byte of `s` is white space. */
  predicate NoEdgeSpace(s: string) {
    s == [] || (!IsSpace(s[0]) && !IsSpace(s[|s| - 1]))
  }

  /** `strings.IndexByte`: the index of the first `c` in `s`, or -1. */
  function IndexByte(s: string, c: char): (i: int)
    ensures -1 <= i < |s|
    ensures 0 <= i ==> s[i] == c
  {
    if s == [] then -1
    else if s[0] == c then 0
    else
      var j := IndexByte(s[1..], c);
      if j == -1 then -1 else j + 1
  }

  /** IndexByte finds the first occurrence, and finds one whenever there is one. */
  lemma {:induction false} IndexByteIsFirst(s: string, c: char)
    ensures IndexByte(s, c) == -1 <==> c !in s
    ensures 0 <= IndexByte(s, c) ==> c !in s[..IndexByte(s, c)]
  {
    if s != [] && s[0] != c {
      IndexByteIsFirst(s[1..], c);
      var j := IndexByte(s[1..], c);
      assert s == [s[0]] + s[1..];
      if 0 <= j {
        assert s[..j + 1] == [s[0]] + s[1..][..j];
      }
    }
  }

  /** The first occurrence of `c` in `a + b` when `a` holds none and `b`
      starts with one. */
  lemma {:induction false} IndexByteAfter(a: string, b: string, c: char)
    requires c !in a && b != [] && b[0] == c
    ensures IndexByte(a + b, c) == |a|
  {
    if a != [] {
      assert (a + b)[1..] == a[1..] + b;
      IndexByteAfter(a[1..], b, c);
    }
  }

  /** The number of occurrences of `c` in `s`. */
  function Count(s: string, c: char): (n: nat)
    ensures n <= |s|
  {
    if s == [] then 0
    else (if s[0] == c then 1 else 0) + Count(s[1..], c)
  }

  /** Counting occurrences: none exactly when `c` does not occur, and the
      counts of two halves add up. */
  lemma {:induction false} CountZero(s: string, c: char)
    ensures Count(s, c) == 0 <==> c !in s
  {
    if s != [] {
      CountZero(s[1..], c);
      assert s == [s[0]] + s[1..];
    }
  }

  lemma {:induction false} CountAppend(a: string, b: string, c: char)
    ensures Count(a + b, c) == Count(a, c) + Count(b, c)
  {
    if a != [] {
      assert (a + b)[1..] == a[1..] + b;
      CountAppend(a[1..], b, c);
    } else {
      assert a + b == b;
    }
  }

  /** `strings.Split(s, sep)` for a one-byte separator: the pieces of `s`
      between occurrences of `sep`, in order. */
  function Split(s: string, sep: char): (parts: seq<string>)
    ensures parts != []
    decreases |s|
  {
    var i := IndexByte(s, sep);
    if i < 0 then [s] else [s[..i]] + Split(s[i + 1..], sep)
  }

  /** Split yields one more piece than there are separators. */
  lemma {:induction false} SplitCount(s: string, sep: char)
    ensures |Split(s, sep)| == Count(s, sep) + 1
    decreases |s|
  {
    var i := IndexByte(s, sep);
    IndexByteIsFirst(s, sep);
    if i < 0 {
      CountZero(s, sep);
    } else {
      SplitCount(s[i + 1..], sep);
      CountZero(s[..i], sep);
      assert s == s[..i] + ([s[i]] + s[i + 1..]);
      CountAppend(s[..i], [s[i]] + s[i + 1..], sep);
      CountAppend([s[i]], s[i + 1..], sep);
    }
  }

  /** No piece Split yields holds the separator. */
  lemma {:induction false} SplitPiecesLackSeparator(s: string, sep: char)
    ensures forall k :: 0 <= k < |Split(s, sep)| ==> sep !in Split(s, sep)[k]
    decreases |s|
  {
    var i := IndexByte(s, sep);
    IndexByteIsFirst(s, sep);
    if i >= 0 {
      SplitPiecesLackSeparator(s[i + 1..], sep);
      assert Split(s, sep) == [s[..i]] + Split(s[i + 1..], sep);
    }
  }

  /** `strings.Join(parts, string(sep))`. */
  function Join(parts: seq<string>, sep: char): string {
    if parts == [] then []
    else if |parts| == 1 then parts[0]
    else parts[0] + [sep] + Join(parts[1..], sep)
  }

  /** Split loses nothing: joining the pieces again gives back `s`. */
  lemma {:induction false} SplitJoin(s: string, sep: char)
    ensures Join(Split(s, sep), sep) == s
    decreases |s|
  {
    var i := IndexByte(s, sep);
    if i >= 0 {
      var parts := Split(s, sep);
      var rest := Split(s[i + 1..], sep);
      SplitJoin(s[i + 1..], sep);
      assert parts == [s[..i]] + rest;
      assert parts[1..] == rest;
      assert Join(parts, sep) == s[..i] + [sep] + s[i + 1..];
      assert s == s[..i] + [s[i]] + s[i + 1..];
    }
  }

  /** Split is also a left inverse of Join when no piece holds the separator. */
  lemma {:induction false} JoinSplit(parts: seq<string>, sep: char)
    requires parts != []
    requires forall k :: 0 <= k < |parts| ==> sep !in parts[k]
    ensures Split(Join(parts, sep), sep) == parts
  {
    if |parts| > 1 {
      var rest := parts[1..];
      SplitAfterFirst(parts[0], Join(rest, sep), sep);
      JoinSplit(rest, sep);
      assert parts == [parts[0]] + rest;
    } else {
      IndexByteIsFirst(parts[0], sep);
    }
  }

  /** Splitting a piece without the separator, then the separator, then
      anything: the piece comes first, then the pieces of the rest. */
  lemma SplitAfterFirst(head: string, tail: string, sep: char)
    requires sep !in head
    ensures Split(head + [sep] + tail, sep) == [head] + Split(tail, sep)
  {
    var s := head + [sep] + tail;
    assert s == head + ([sep] + tail);
    IndexByteAfter(head, [sep] + tail, sep);
    assert s[..|head|] == head;
    assert s[|head| + 1..] == tail;
  }

  /** The first piece of `strings.SplitN(s, string(sep), 2)`: the part of
      `s` before its first `sep`, or all of `s` when there is none. */
  function BeforeFirst(s: string, sep: char): (r: string)
    ensures r <= s
    ensures |r| < |s| ==> s[|r|] == sep
  {
    var i := IndexByte(s, sep);
    if i < 0 then s else s[..i]
  }

  /** The piece before the first separator holds no separator. */
  lemma BeforeFirstLacksSeparator(s: string, sep: char)
    ensures sep !in BeforeFirst(s, sep)
  {
    IndexByteIsFirst(s, sep);
  }

  /** The first piece Split yields is the part before the first separator. */
  lemma SplitHead(s: string, sep: char)
    ensures Split(s, sep)[0] == BeforeFirst(s, sep)
  {
  }

  /** The length of the run of white space that `s` starts with. */
  function LeadingSpaces(s: string): (n: nat)
    ensures n <= |s|
    ensures n < |s| ==> !IsSpace(s[n])
  {
    if s != [] && IsSpace(s[0]) then 1 + LeadingSpaces(s[1..]) else 0
  }

  /** `s` with its leading white space removed: a suffix of `s` that does not
      start with white space. */
  function TrimLeft(s: string): (r: string)
    ensures r == [] || !IsSpace(r[0])
  {
    s[LeadingSpaces(s)..]
  }

  /** `s` with its trailing white space removed: a prefix of `s` that does not
      end with white space. */
  function TrimRight(s: string): (r: string)
    ensures r <= s
    ensures r == [] || !IsSpace(r[|r| - 1])
  {
    if s != [] && IsSpace(s[|s| - 1]) then TrimRight(s[..|s| - 1]) else s
  }

  /** `strings.TrimSpace` on ASCII white space. */
  function TrimSpace(s: string): (r: string)
    ensures NoEdgeSpace(r)
    ensures NoEdgeSpace(s) ==> r == s
  {
    TrimRight(TrimLeft(s))
  }

  /** Only white space is trimmed, from either end. */
  lemma {:induction false} TrimLeftDropsSpace(s: string)
    ensures forall k :: 0 <= k < LeadingSpaces(s) ==> IsSpace(s[k])
  {
    if s != [] && IsSpace(s[0]) {
      TrimLeftDropsSpace(s[1..]);
    }
  }

  lemma {:induction false} TrimRightDropsSpace(s: string)
    ensures forall k :: |TrimRight(s)| <= k < |s| ==> IsSpace(s[k])
  {
    if s != [] && IsSpace(s[|s| - 1]) {
      TrimRightDropsSpace(s[..|s| - 1]);
    }
  }

  /** TrimSpace keeps a contiguous run of `s`: every byte it keeps is a byte of `s`. */
  lemma TrimSpaceKeeps(s: string, c: char)
    requires c !in s
    ensures c !in TrimSpace(s)
  {
    var l := TrimLeft(s);
    assert c !in l;
    var r := TrimRight(l);
    assert r == l[..|r|];
  }
}

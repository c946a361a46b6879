/**
 * Path normalisation, shared by `packages/exclusion/src/normalize.ts` and the
 * local copy at the top of `packages/exclusion/src/index.ts`.
 *
 * Both resolve the raw path against `http://localhost`, overwrite the URL's
 * pathname with its `decodeURI`d NFC form, rebuild the query pair by pair with
 * NFC names and values, and overwrite the search with the re-serialised query
 * (or with nothing when it is empty). `normalize.ts` then drops the `/` that
 * resolution put in front of a path that had none; `index.ts` keeps it.
 */
module Normalize {
  import opened Wrappers
  import opened JsStrings
  import opened UrlCodec
  import opened Host

  /** The pairs `params.append` collects: every name and value in NFC, in order. */
  function NfcPairs(h: Host, pairs: seq<Pair>): (r: seq<Pair>)
    ensures |r| == |pairs|
    ensures forall i :: 0 <= i < |pairs| ==> r[i] == (h.nfc(pairs[i].0), h.nfc(pairs[i].1))
  {
    if pairs == [] then [] else [(h.nfc(pairs[0].0), h.nfc(pairs[0].1))] + NfcPairs(h, pairs[1..])
  }

  /** What is assigned to `url.search`: the serialised query behind a `?`, or nothing. */
  function SearchValue(params: seq<Pair>): string {
    var query := Serialize(params);
    if query == [] then [] else "?" + query
  }

  /** The pathname and search the URL object holds once both have been overwritten. */
  function Canonical(h: Host, raw: string): Result<(string, string), NormError> {
    match h.resolve(raw)
    case None => Err(InvalidUrl)
    case Some(url) =>
      match DecodeURI(url.pathname)
      case None => Err(MalformedUri)
      case Some(decoded) =>
        Ok((h.setPathname(url, h.nfc(decoded)), SearchAfterSet(SearchValue(NfcPairs(h, url.searchParams)))))
  }

  /** `normalizePath` of `normalize.ts`: the leading `/` only if the input had one. */
  function NormalizedPath(h: Host, raw: string): Result<string, NormError> {
    match Canonical(h, raw)
    case Err(e) => Err(e)
    case Ok((pathname, search)) => Ok((if StartsWithSlash(raw) then pathname else DropFirst(pathname)) + search)
  }

  /** `normalizePath` of `index.ts`: pathname and search as they stand. */
  function RootedPath(h: Host, raw: string): Result<string, NormError> {
    match Canonical(h, raw)
    case Err(e) => Err(e)
    case Ok((pathname, search)) => Ok(pathname + search)
  }

  // ---------------------------------------------------------------------
  // The imperative steps
  // ---------------------------------------------------------------------

  /** The loop that appends every pair, NFC-normalised, to a fresh `URLSearchParams`. */
  method RebuildParams(h: Host, pairs: seq<Pair>) returns (params: seq<Pair>)
    ensures params == NfcPairs(h, pairs)
  {
    params := [];
    var i := 0;
    while i < |pairs|
      invariant 0 <= i <= |pairs|
      invariant params == NfcPairs(h, pairs[..i])
    {
      var (name, value) := pairs[i];
      params := params + [(h.nfc(name), h.nfc(value))];
      i := i + 1;
    }
    assert pairs[..i] == pairs;
  }

  /** Resolves, then overwrites the pathname and the search of the URL object in turn. */
  method Canonicalize(h: Host, raw: string) returns (r: Result<(string, string), NormError>)
    ensures r == Canonical(h, raw)
  {
    var resolved := h.resolve(raw);
    if resolved.None? {
      return Err(InvalidUrl);
    }
    var url := resolved.value;
    var decoded := DecodeURI(url.pathname);
    if decoded.None? {
      return Err(MalformedUri);
    }
    var pathname := h.setPathname(url, h.nfc(decoded.value));
    var params := RebuildParams(h, url.searchParams);
    var search := SearchAfterSet(SearchValue(params));
    return Ok((pathname, search));
  }

  method NormalizePath(h: Host, raw: string) returns (r: Result<string, NormError>)
    ensures r == NormalizedPath(h, raw)
  {
    var hasStartSlash := |raw| > 0 && raw[0] == '/';
    var c := Canonicalize(h, raw);
    match c
    case Err(e) => r := Err(e);
    case Ok((pathname, search)) =>
      r := Ok((if hasStartSlash then pathname else DropFirst(pathname)) + search);
  }

  method NormalizeRooted(h: Host, raw: string) returns (r: Result<string, NormError>)
    ensures r == RootedPath(h, raw)
  {
    var c := Canonicalize(h, raw);
    match c
    case Err(e) => r := Err(e);
    case Ok((pathname, search)) => r := Ok(pathname + search);
  }

  // ---------------------------------------------------------------------
  // Properties
  // ---------------------------------------------------------------------

  /**
   * The search setter gives back what it was handed: the serialised query
   * behind a `?`, and nothing at all (no lone `?`) when no pair is left.
   */
  lemma SearchIsSerializedQuery(params: seq<Pair>)
    ensures SearchAfterSet(SearchValue(params)) == (if params == [] then [] else "?" + Serialize(params))
  {
    if params != [] {
      SearchOfSerialized(params);
    }
  }

  /** The output of `normalize.ts` starts with `/` when its input does. */
  lemma LeadingSlashKept(h: Host, raw: string)
    requires Lawful(h)
    requires StartsWithSlash(raw) && NormalizedPath(h, raw).Ok?
    ensures StartsWithSlash(NormalizedPath(h, raw).value)
  {
    var url := h.resolve(raw).value;
    assert url.special;
    var decoded := DecodeURI(url.pathname).value;
    var pathname := h.setPathname(url, h.nfc(decoded));
    assert StartsWithSlash(pathname);
    var (p, search) := Canonical(h, raw).value;
    assert p == pathname;
    assert NormalizedPath(h, raw).value == pathname + search;
  }

  /**
   * Without a leading `/` (and without a scheme), `normalize.ts` removes
   * exactly the `/` that resolution put in front of the pathname.
   */
  lemma PrependedSlashRemoved(h: Host, raw: string)
    requires Lawful(h)
    requires !StartsWithSlash(raw) && ':' !in raw && Canonical(h, raw).Ok?
    ensures StartsWithSlash(Canonical(h, raw).value.0)
    ensures NormalizedPath(h, raw) == Ok(Canonical(h, raw).value.0[1..] + Canonical(h, raw).value.1)
  {
    var url := h.resolve(raw).value;
    assert url.special;
    var decoded := DecodeURI(url.pathname).value;
    var pathname := h.setPathname(url, h.nfc(decoded));
    assert StartsWithSlash(pathname);
    var (p, search) := Canonical(h, raw).value;
    assert p == pathname;
  }

  /** The output of `index.ts`'s copy starts with `/` whenever the input has no scheme. */
  lemma RootedStartsWithSlash(h: Host, raw: string)
    requires Lawful(h)
    requires (StartsWithSlash(raw) || ':' !in raw) && RootedPath(h, raw).Ok?
    ensures StartsWithSlash(RootedPath(h, raw).value)
  {
    var url := h.resolve(raw).value;
    assert url.special;
    var decoded := DecodeURI(url.pathname).value;
    var pathname := h.setPathname(url, h.nfc(decoded));
    assert StartsWithSlash(pathname);
    var (p, search) := Canonical(h, raw).value;
    assert p == pathname;
    assert RootedPath(h, raw).value == pathname + search;
  }

  /** The two copies agree except for the leading `/` of an input that had none. */
  lemma CopiesAgree(h: Host, raw: string)
    ensures NormalizedPath(h, raw).Ok? <==> RootedPath(h, raw).Ok?
    ensures StartsWithSlash(raw) ==> NormalizedPath(h, raw) == RootedPath(h, raw)
  {
  }

  /** On ASCII pairs NFC changes nothing. */
  lemma {:induction false} NfcPairsAscii(h: Host, pairs: seq<Pair>)
    requires Lawful(h)
    requires forall i :: 0 <= i < |pairs| ==> IsAscii(pairs[i].0) && IsAscii(pairs[i].1)
    ensures NfcPairs(h, pairs) == pairs
  {
  }

  lemma {:induction false} FormPairsAscii(pieces: seq<string>)
    requires forall i :: 0 <= i < |pieces| ==> IsAscii(pieces[i])
    ensures forall i :: 0 <= i < |FormPairs(pieces)| ==> IsAscii(FormPairs(pieces)[i].0) && IsAscii(FormPairs(pieces)[i].1)
  {
    if pieces != [] {
      FormPairsAscii(pieces[1..]);
    }
  }

  lemma SplitPiecesAscii(q: string, sep: char)
    requires IsAscii(q)
    ensures forall i :: 0 <= i < |Split(q, sep)| ==> IsAscii(Split(q, sep)[i])
    decreases |q|
  {
    var i := IndexOf(q, sep);
    if i < |q| {
      SplitPiecesAscii(q[i + 1..], sep);
    }
  }

  /**
   * A plain reference without `%` in its path normalises to its own path and
   * query, re-serialised: the path is neither decoded nor re-encoded, the pairs
   * keep their order and duplicates, and the fragment is gone.
   */
  lemma PlainCanonical(h: Host, raw: string)
    requires Lawful(h) && PlainReference(raw) && '%' !in PathPart(raw)
    ensures Canonical(h, raw) == Ok((ResolvePlain(raw).pathname,
      if ResolvePlain(raw).searchParams == [] then [] else "?" + Serialize(ResolvePlain(raw).searchParams)))
  {
    var url := ResolvePlain(raw);
    var path := PathPart(raw);
    assert h.resolve(raw) == Some(url);
    assert '%' !in url.pathname;
    DecodeWithoutEscapes(url.pathname);
    assert IsAscii(url.pathname);
    assert h.nfc(url.pathname) == url.pathname;
    PathnameOfPlain(path);
    var query := QueryPart(raw);
    assert IsAscii(query);
    SplitPiecesAscii(query, '&');
    FormPairsAscii(Split(query, '&'));
    NfcPairsAscii(h, url.searchParams);
    SearchIsSerializedQuery(url.searchParams);
  }

  /** The pathname resolution makes of a plain path is one the setter keeps. */
  lemma PathnameOfPlain(path: string)
    requires PlainPath(path)
    ensures PlainPathname(if StartsWithSlash(path) then path else "/" + path)
  {
    if !StartsWithSlash(path) {
      var p := "/" + path;
      assert p[1..] == path;
      SplitAfterSeparator(p, '/');
      assert Split(p, '/') == [[]] + Split(path, '/');
      assert !IsDotSegment([]);
    }
  }

  lemma SplitAfterSeparator(s: string, sep: char)
    requires |s| > 0 && s[0] == sep
    ensures Split(s, sep) == [[]] + Split(s[1..], sep)
  {
    assert IndexOf(s, sep) == 0;
  }

  /** The fragment plays no part: `raw#frag` normalises like `raw`. */
  lemma FragmentIgnored(h: Host, raw: string, frag: string)
    requires Lawful(h) && PlainReference(raw) && '#' !in raw
    ensures NormalizedPath(h, raw + "#" + frag) == NormalizedPath(h, raw)
  {
    var t := raw + "#" + frag;
    FragmentParts(raw, frag);
    SamePartsSameResolution(t, raw);
    SameResolutionSamePath(h, t, raw);
  }

  /** Plain resolution sees a reference only through its path and its query. */
  lemma SamePartsSameResolution(a: string, b: string)
    requires PathPart(a) == PathPart(b) && QueryPart(a) == QueryPart(b)
    ensures PlainReference(a) == PlainReference(b) && ResolvePlain(a) == ResolvePlain(b)
  {
  }

  /** Normalisation sees a reference only through its resolution and its leading `/`. */
  lemma SameResolutionSamePath(h: Host, a: string, b: string)
    requires h.resolve(a) == h.resolve(b) && StartsWithSlash(a) == StartsWithSlash(b)
    ensures NormalizedPath(h, a) == NormalizedPath(h, b)
  {
  }

  lemma FragmentParts(raw: string, frag: string)
    requires '#' !in raw
    ensures PathPart(raw + "#" + frag) == PathPart(raw)
    ensures QueryPart(raw + "#" + frag) == QueryPart(raw)
    ensures StartsWithSlash(raw + "#" + frag) == StartsWithSlash(raw)
  {
    var t := raw + "#" + frag;
    assert t == raw + ("#" + frag);
    IndexOfAppend(raw, "#" + frag, '#');
    assert IndexOf("#" + frag, '#') == 0;
    assert t[..|raw|] == raw;
    assert BeforeHash(t) == raw;
    assert BeforeHash(raw) == raw by {
      assert raw[..|raw|] == raw;
    }
    if raw == [] {
      assert t[0] == '#';
    } else {
      assert t[0] == raw[0];
    }
  }

  // ---------------------------------------------------------------------
  // Worked inputs
  // ---------------------------------------------------------------------

  /** A plain path without query is its own normal form, with or without a leading `/`. */
  lemma PlainPathIsNormal(h: Host, path: string)
    requires Lawful(h) && PlainPath(path) && '%' !in path
    requires !(|path| >= 2 && path[0] == '/' && path[1] == '/')
    ensures NormalizedPath(h, path) == Ok(path)
    ensures RootedPath(h, path) == Ok(if StartsWithSlash(path) then path else "/" + path)
  {
    NoQueryParts(path);
    assert PlainReference(path);
    PlainCanonical(h, path);
    assert ParseQuery([]) == [] by { assert Split([], '&') == [[]]; }
    var url := ResolvePlain(path);
    assert url.searchParams == [];
    var pathname := if StartsWithSlash(path) then path else "/" + path;
    assert url.pathname == pathname;
    assert Canonical(h, path) == Ok((pathname, []));
    assert pathname + [] == pathname;
    if !StartsWithSlash(path) {
      assert DropFirst(pathname) == path;
      assert DropFirst(pathname) + [] == path;
    }
  }

  lemma NoQueryParts(path: string)
    requires '?' !in path && '#' !in path
    ensures PathPart(path) == path && QueryPart(path) == []
  {
    assert IndexOf(path, '#') == |path|;
    assert path[..|path|] == path;
    assert BeforeHash(path) == path;
    assert IndexOf(path, '?') == |path|;
  }

  /** `''` stays `''` in `normalize.ts`, while `index.ts` makes it `/`. */
  lemma EmptyPathExample(h: Host)
    requires Lawful(h)
    ensures NormalizedPath(h, "") == Ok("")
    ensures RootedPath(h, "") == Ok("/")
  {
    assert Split("", '/') == [""];
    assert AsciiLower("") == "";
    assert !IsDotSegment("");
    assert PlainPath("");
    PlainPathIsNormal(h, "");
  }

  /** `foo` stays `foo` in `normalize.ts`: the `/` resolution adds is taken off again. */
  lemma RelativePathExample(h: Host)
    requires Lawful(h)
    ensures NormalizedPath(h, "foo") == Ok("foo")
  {
    var p := "foo";
    assert '/' !in p;
    assert Split(p, '/') == [p];
    assert AsciiLower(p) == p;
    assert !IsDotSegment(p);
    assert forall i :: 0 <= i < |p| ==> PlainPathChar(p[i]);
    assert PlainPath(p);
    PlainPathIsNormal(h, p);
  }

  lemma QueryParts(path: string, query: string)
    requires '?' !in path && '#' !in path && '#' !in query
    ensures PathPart(path + "?" + query) == path && QueryPart(path + "?" + query) == query
  {
    var raw := path + "?" + query;
    assert '#' !in raw by {
      assert forall i :: 0 <= i < |raw| ==> raw[i] == (if i < |path| then path[i] else if i == |path| then '?' else query[i - |path| - 1]);
    }
    assert raw[..|raw|] == raw;
    assert BeforeHash(raw) == raw;
    assert raw == path + ("?" + query);
    IndexOfAppend(path, "?" + query, '?');
    assert raw[..|path|] == path && raw[|path| + 1..] == query;
  }

  /**
   * A plain `/`-path with a plain query normalises to the path followed by the
   * query as the serializer rewrites it, pairs in their original order.
   */
  lemma PlainQueryNormal(h: Host, path: string, query: string)
    requires Lawful(h) && StartsWithSlash(path) && PlainPath(path) && '%' !in path
    requires !(|path| >= 2 && path[1] == '/')
    requires forall i :: 0 <= i < |query| ==> PlainQueryChar(query[i])
    ensures NormalizedPath(h, path + "?" + query)
         == Ok(path + (if ParseQuery(query) == [] then [] else "?" + Serialize(ParseQuery(query))))
  {
    var raw := path + "?" + query;
    assert '?' !in path && '#' !in path by { assert forall i :: 0 <= i < |path| ==> PlainPathChar(path[i]); }
    assert '#' !in query by { assert forall i :: 0 <= i < |query| ==> PlainQueryChar(query[i]); }
    QueryParts(path, query);
    assert PlainReference(raw);
    PlainCanonical(h, raw);
    assert StartsWithSlash(raw);
  }

  /** An empty query leaves no `?` behind. */
  lemma EmptyQueryExample(h: Host)
    requires Lawful(h)
    ensures NormalizedPath(h, "/foo/bar?") == Ok("/foo/bar")
  {
    var path := "/foo/bar";
    FooBarIsPlain();
    PlainQueryNormal(h, path, "");
    assert Split("", '&') == [""];
    assert ParseQuery("") == [];
    assert path + "?" + "" == "/foo/bar?";
    assert path + [] == path;
  }

  /** A path segment the parser copies unchanged. */
  predicate PlainSegment(a: string) {
    '/' !in a && !IsDotSegment(a) && forall i :: 0 <= i < |a| ==> PlainPathChar(a[i])
  }

  lemma PlainOneSegment(a: string)
    requires PlainSegment(a)
    ensures PlainPath(['/'] + a)
  {
    OneSegment(a, '/');
    var p := ['/'] + a;
    assert AsciiLower("") == "";
    forall i | 0 <= i < |p| ensures PlainPathChar(p[i]) {
      if i > 0 {
        assert p[i] == a[i - 1];
      }
    }
  }

  lemma PlainTwoSegments(a: string, b: string)
    requires '/' !in a && '/' !in b && !IsDotSegment(a) && !IsDotSegment(b)
    requires forall i :: 0 <= i < |a| ==> PlainPathChar(a[i])
    requires forall i :: 0 <= i < |b| ==> PlainPathChar(b[i])
    ensures PlainPath(['/'] + a + ['/'] + b)
  {
    var p := ['/'] + a + ['/'] + b;
    assert forall i :: 0 <= i < |Split(p, '/')| ==> !IsDotSegment(Split(p, '/')[i]) by {
      TwoSegments(a, b, '/');
      assert AsciiLower("") == "";
    }
    forall i | 0 <= i < |p| ensures PlainPathChar(p[i]) {
      if i == 0 || i == |a| + 1 {
      } else if i <= |a| {
        assert p[i] == a[i - 1];
      } else {
        assert p[i] == b[i - |a| - 2];
      }
    }
  }

  lemma FooBarIsPlain()
    ensures PlainPath("/foo/bar")
  {
    var a, b := "foo", "bar";
    assert AsciiLower(a) == a && AsciiLower(b) == b;
    PlainTwoSegments(a, b);
    assert ['/'] + a + ['/'] + b == "/foo/bar";
  }

  lemma BareKeyQuery()
    ensures ParseQuery("k") == [("k", "")]
    ensures Serialize(ParseQuery("k")) == "k="
  {
    var k := "k";
    assert Split(k, '&') == [k];
    FormPairBare(k);
    SerializeBareKey();
  }

  /** A piece without `=` is a key with an empty value. */
  lemma FormPairBare(k: string)
    requires '=' !in k
    ensures FormPair(k) == (k, "")
  {
    assert k[..|k|] == k;
  }

  /** A bare key gains an `=`. */
  lemma BareKeyExample(h: Host)
    requires Lawful(h)
    ensures NormalizedPath(h, "/foo/bar?k") == Ok("/foo/bar?k=")
  {
    FooBarIsPlain();
    BareKeyQuery();
    BareKeyNormal(h, "/foo/bar", "k");
    BareKeyText();
  }

  /** A plain path with a query that is one bare key: the key gains an `=`. */
  lemma BareKeyNormal(h: Host, path: string, k: string)
    requires Lawful(h) && StartsWithSlash(path) && PlainPath(path) && '%' !in path
    requires !(|path| >= 2 && path[1] == '/')
    requires forall i :: 0 <= i < |k| ==> PlainQueryChar(k[i])
    requires ParseQuery(k) == [(k, "")] && Serialize([(k, "")]) == k + "="
    ensures NormalizedPath(h, path + "?" + k) == Ok(path + ("?" + (k + "=")))
  {
    PlainQueryNormal(h, path, k);
  }

  lemma BareKeyText()
    ensures "/foo/bar" + "?" + "k" == "/foo/bar?k"
    ensures "/foo/bar" + ("?" + ("k" + "=")) == "/foo/bar?k="
  {
  }

  lemma TwoPairsParse(x: string, y: string)
    requires x != [] && y != [] && '&' !in x && '&' !in y
    ensures ParseQuery(x + ['&'] + y) == [FormPair(x), FormPair(y)]
  {
    SplitAppend(x, y, '&');
    assert Split(y, '&') == [y];
    var pieces := [x, y];
    assert Split(x + ['&'] + y, '&') == pieces;
    assert pieces[1..] == [y] && [y][1..] == [];
    assert FormPairs([y]) == [FormPair(y)] + FormPairs([]);
    assert FormPairs(pieces) == [FormPair(x)] + FormPairs([y]);
  }

  lemma RepeatedKeyQuery()
    ensures ParseQuery("a=1&a=2") == [("a", "1"), ("a", "2")]
  {
    var q := "a=1&a=2";
    var x, y := "a" + ['='] + "1", "a" + ['='] + "2";
    assert q == x + ['&'] + y;
    TwoPairsParse(x, y);
    FormPairAt("a", "1");
    FormPairAt("a", "2");
  }

  /** A piece with an `=` splits at its first one. */
  lemma FormPairAt(k: string, v: string)
    requires '=' !in k
    ensures FormPair(k + ['='] + v) == (k, v)
  {
    var piece := k + ['='] + v;
    assert piece == k + (['='] + v);
    IndexOfAppend(k, ['='] + v, '=');
    assert piece[..|k|] == k && piece[|k| + 1..] == v;
  }

  lemma RepeatedKeySerialized()
    ensures Serialize([("a", "1"), ("a", "2")]) == "a=1&a=2"
  {
    assert FormEncode("a") == "a" && FormEncode("1") == "1" && FormEncode("2") == "2";
    assert [("a", "1"), ("a", "2")][1..] == [("a", "2")];
  }

  lemma RepeatedKeyText()
    ensures "/foo/bar" + "?" + "a=1&a=2" == "/foo/bar?a=1&a=2"
    ensures "/foo/bar" + ("?" + "a=1&a=2") == "/foo/bar?a=1&a=2"
  {
  }

  /** Pairs keep their order and their duplicates. */
  lemma RepeatedKeyExample(h: Host)
    requires Lawful(h)
    ensures NormalizedPath(h, "/foo/bar?a=1&a=2") == Ok("/foo/bar?a=1&a=2")
  {
    FooBarIsPlain();
    var path := "/foo/bar";
    PlainQueryNormal(h, path, "a=1&a=2");
    RepeatedKeyQuery();
    RepeatedKeySerialized();
    RepeatedKeyText();
  }

  /** A plain one-segment path without query resolves to itself with no parameters. */
  lemma OneSegmentResolves(h: Host, a: string)
    requires Lawful(h) && PlainSegment(a)
    ensures h.resolve(['/'] + a) == Some(Url(true, ['/'] + a, []))
  {
    var p := ['/'] + a;
    PlainOneSegment(p[1..]);
    assert p[1..] == a;
    assert '?' !in p && '#' !in p by {
      assert forall i :: 0 <= i < |p| ==> PlainPathChar(p[i]);
    }
    NoQueryParts(p);
    assert PlainReference(p);
    assert Split([], '&') == [[]];
  }

  /** A resolved path without parameters normalises to its decoding when the setter keeps that. */
  lemma DecodedCanonical(h: Host, p: string, d: string)
    requires Lawful(h) && h.resolve(p) == Some(Url(true, p, []))
    requires DecodeURI(p) == Some(d) && IsAscii(d) && PlainPathname(d)
    ensures Canonical(h, p) == Ok((d, []))
  {
    SearchIsSerializedQuery([]);
  }

  /** A lone `%` in the path makes `decodeURI` throw, and the error escapes. */
  lemma MalformedEscapeExample(h: Host)
    requires Lawful(h)
    ensures NormalizedPath(h, "/%") == Err(MalformedUri)
  {
    var a := "%";
    assert AsciiLower(a) == a;
    OneSegmentResolves(h, a);
    assert ['/'] + a == "/%";
    LonePercentThrows();
  }

  lemma PercentSegments()
    ensures PlainSegment("%25") && PlainSegment("%")
  {
    assert AsciiLower("%25") == "%25" && AsciiLower("%") == "%";
  }

  /** `decodeURI` turns `%25` into a lone `%`, which the pathname setter keeps. */
  lemma PercentTwentyFiveExample(h: Host)
    requires Lawful(h)
    ensures NormalizedPath(h, "/%25") == Ok("/%")
  {
    var a, e := "%25", "%";
    var p, d := ['/'] + a, ['/'] + e;
    PercentSegments();
    OneSegmentResolves(h, a);
    PlainOneSegment(e);
    assert DecodeURI(p) == Some(d) && IsAscii(d) by {
      assert p == "/%25" && d == "/%";
      DecodeNotIdempotent();
    }
    DecodedCanonical(h, p, d);
    assert d + [] == d;
    assert p == "/%25" && d == "/%";
  }

  /** Normalisation is not idempotent: `/%25` gives `/%`, which then throws. */
  lemma NotIdempotentExample(h: Host)
    requires Lawful(h)
    ensures NormalizedPath(h, "/%25") == Ok("/%")
    ensures NormalizedPath(h, "/%") == Err(MalformedUri)
  {
    PercentTwentyFiveExample(h);
    MalformedEscapeExample(h);
  }
}

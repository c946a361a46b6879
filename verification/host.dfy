/**
 * The platform services the robots.txt engine and the bot call but do not
 * implement: WHATWG URL parsing and its `pathname` setter, Unicode NFC,
 * `String.prototype.toLowerCase`, micromatch's glob test and the validity
 * check `new URL(s)` makes.
 *
 * They are passed around as a `Host` value of functions. What the model relies
 * on about them is collected in `Lawful`, every law a consequence of the
 * standard the service follows; `LawfulHostExists` shows the laws can all hold
 * at once. On a plain fragment of references (printable ASCII, no dot segments,
 * no characters the URL parser rewrites) resolution is given outright by
 * `ResolvePlain`, so concrete inputs can be followed through.
 */
module Host {
  import opened Wrappers
  import opened JsStrings
  import opened UrlCodec

  /** What the model reads of a URL object. */
  datatype Url = Url(special: bool, pathname: string, searchParams: seq<Pair>)

  /** The errors path normalisation lets escape: a TypeError from `new URL` and a URIError from `decodeURI`. */
  datatype NormError = InvalidUrl | MalformedUri

  datatype Host = Host(
    /** `new URL(raw, 'http://localhost')`; `None` when it throws. */
    resolve: string -> Option<Url>,
    /** `url.pathname = s` followed by reading `url.pathname`. */
    setPathname: (Url, string) -> string,
    /** `s.normalize('NFC')`. */
    nfc: string -> string,
    /** `s.toLowerCase()`. */
    lower: string -> string,
    /** `micromatch.isMatch(path, pattern, options)` with the options the engine passes. */
    glob: (string, string) -> bool,
    /** `new URL(s)` does not throw. */
    validUrl: string -> bool)

  // ---------------------------------------------------------------------
  // The plain fragment of references
  // ---------------------------------------------------------------------

  /** Printable ASCII the path parser copies unchanged (and that cannot start a scheme). */
  predicate PlainPathChar(c: char) {
    '!' <= c <= '~' && c !in {'"', '#', '<', '>', '?', '`', '{', '}', '^', '\\', ':'}
  }

  /** Printable ASCII the query parser and the form-urlencoded parser leave as they are. */
  predicate PlainQueryChar(c: char) {
    '!' <= c <= '~' && c !in {'"', '#', '<', '>', '\'', '%', '+'}
  }

  /** `.` and `..` in any of their spellings, which the path parser removes. */
  predicate IsDotSegment(seg: string) {
    AsciiLower(seg) in {".", "..", "%2e", ".%2e", "%2e.", "%2e%2e"}
  }

  predicate PlainPath(p: string) {
    (forall i :: 0 <= i < |p| ==> PlainPathChar(p[i]))
    && (forall i :: 0 <= i < |Split(p, '/')| ==> !IsDotSegment(Split(p, '/')[i]))
  }

  /** A pathname the setter of a special URL keeps as it is. */
  predicate PlainPathname(p: string) {
    StartsWithSlash(p) && PlainPath(p)
  }

  /** The text before the first `#`. */
  function BeforeHash(raw: string): string {
    raw[..IndexOf(raw, '#')]
  }

  function PathPart(raw: string): string {
    var b := BeforeHash(raw);
    b[..IndexOf(b, '?')]
  }

  function QueryPart(raw: string): string {
    var b := BeforeHash(raw);
    var q := IndexOf(b, '?');
    if q < |b| then b[q + 1..] else []
  }

  predicate PlainReference(raw: string) {
    var path := PathPart(raw);
    var query := QueryPart(raw);
    PlainPath(path)
    && !(|path| >= 2 && path[0] == '/' && path[1] == '/')
    && forall i :: 0 <= i < |query| ==> PlainQueryChar(query[i])
  }

  /** One `name=value` piece of a query; without `=` the value is empty. */
  function FormPair(piece: string): Pair {
    var i := IndexOf(piece, '=');
    (piece[..i], if i < |piece| then piece[i + 1..] else [])
  }

  function FormPairs(pieces: seq<string>): (pairs: seq<Pair>)
    ensures |pairs| <= |pieces|
  {
    if pieces == [] then []
    else if pieces[0] == [] then FormPairs(pieces[1..])
    else [FormPair(pieces[0])] + FormPairs(pieces[1..])
  }

  /**
   * The application/x-www-form-urlencoded parser (WHATWG URL, section 5.1) on
   * a query without `%` and `+`, where it only splits: on `&`, skipping empty
   * pieces, then at the first `=`.
   */
  function ParseQuery(q: string): seq<Pair> {
    FormPairs(Split(q, '&'))
  }

  /** Resolution of a plain reference against `http://localhost/`. */
  function ResolvePlain(raw: string): (url: Url)
    ensures url.special && StartsWithSlash(url.pathname)
  {
    var path := PathPart(raw);
    Url(true, if StartsWithSlash(path) then path else "/" + path, ParseQuery(QueryPart(raw)))
  }

  // ---------------------------------------------------------------------
  // The laws
  // ---------------------------------------------------------------------

  ghost predicate Lawful(h: Host) {
    // A reference with no scheme resolves against the `http:` base, so to a special URL.
    (forall raw :: (StartsWithSlash(raw) || ':' !in raw) && h.resolve(raw).Some? ==> h.resolve(raw).value.special)
    // On plain references the parser only splits (WHATWG URL, section 4.4).
    && (forall raw {:trigger PlainReference(raw)} :: PlainReference(raw) ==> h.resolve(raw) == Some(ResolvePlain(raw)))
    // The pathname of a special URL always starts with `/`, and a plain one is kept.
    && (forall u: Url, s: string :: u.special ==> StartsWithSlash(h.setPathname(u, s)))
    && (forall u: Url, s: string {:trigger PlainPathname(s), h.setPathname(u, s)} :: u.special && PlainPathname(s) ==> h.setPathname(u, s) == s)
    // NFC leaves ASCII alone and cannot merge a leading `/` with what follows.
    && (forall s {:trigger IsAscii(s), h.nfc(s)} :: IsAscii(s) ==> h.nfc(s) == s)
    && (forall s :: StartsWithSlash(s) ==> StartsWithSlash(h.nfc(s)))
    // Lower-casing maps only `A`-`Z` within ASCII, and a lower-cased string stays as it is.
    && (forall s {:trigger IsAscii(s), h.lower(s)} :: IsAscii(s) ==> h.lower(s) == AsciiLower(s))
    && (forall s :: h.lower(h.lower(s)) == h.lower(s))
  }

  lemma AsciiLowerIdempotent(s: string)
    ensures AsciiLower(AsciiLower(s)) == AsciiLower(s)
  {
  }

  /** The laws are consistent: a host obeying all of them exists. */
  lemma LawfulHostExists() returns (h: Host)
    ensures Lawful(h)
  {
    h := Host(
      raw => Some(if PlainReference(raw) then ResolvePlain(raw) else Url(true, "/", [])),
      (u: Url, s: string) => if StartsWithSlash(s) then s else "/" + s,
      s => s,
      s => AsciiLower(s),
      (p: string, g: string) => false,
      s => true);
    assert forall raw :: h.resolve(raw).Some? && h.resolve(raw).value.special;
    assert forall raw :: PlainReference(raw) ==> h.resolve(raw) == Some(ResolvePlain(raw));
    forall u: Url, s: string
      ensures StartsWithSlash(h.setPathname(u, s))
      ensures PlainPathname(s) ==> h.setPathname(u, s) == s
    {
    }
    assert forall s :: h.nfc(s) == s;
    forall s
      ensures IsAscii(s) ==> h.lower(s) == AsciiLower(s)
      ensures h.lower(h.lower(s)) == h.lower(s)
    {
      AsciiLowerIdempotent(s);
    }
  }
}

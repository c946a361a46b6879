/**
 * The directive pattern matcher of `packages/exclusion/src/match.ts`.
 *
 * A robots.txt path pattern is turned into the text of a regular expression:
 * `^`, then the pattern with every regular-expression metacharacter escaped and
 * every `*` replaced by a lazy run of characters other than newline, then `$`
 * when the pattern is strict. The regular expression carries only the `u` flag.
 *
 * The model keeps the text (`PrematchSource`), reads it back into a small
 * regular-expression syntax tree (`Compile`), which checks that the escaping
 * leaves exactly one literal per pattern character, and gives that tree the
 * meaning `RegExp.prototype.test` gives it (`Test`).
 */
module Match {
  import opened Wrappers
  import opened JsStrings

  /** The characters `escapeRegularExpression` prefixes with a backslash. */
  const Special: set<char> := {'.', '+', '?', '^', '$', '{', '}', '(', ')', '|', '[', ']', '\\'}

  /** The text each `*` becomes: any run of characters but newline, matched lazily. */
  const LazyRun: string := "[^\\n]*?"

  function EscapeChar(c: char): string {
    if c in Special then ['\\', c] else if c == '*' then LazyRun else [c]
  }

  /** `escapeRegularExpression`: both `replace` passes, one pattern character at a time. */
  function EscapeRegularExpression(p: string): string {
    if p == [] then [] else EscapeChar(p[0]) + EscapeRegularExpression(p[1..])
  }

  /** The source text of the regular expression `prematch` builds. */
  function PrematchSource(p: string, strictEOL: bool): (src: string)
    ensures |src| >= 1 && src[0] == '^'
    ensures strictEOL ==> src[|src| - 1] == '$'
  {
    "^" + EscapeRegularExpression(p) + (if strictEOL then "$" else "")
  }

  // ---------------------------------------------------------------------
  // The regular expressions `prematch` can build
  // ---------------------------------------------------------------------

  datatype Atom = Lit(c: char) | Lazy

  /** A regular expression anchored at the start, optionally also at the end. */
  datatype Regex = Regex(atoms: seq<Atom>, anchoredEnd: bool)

  function Cons(a: Atom, r: Option<Regex>): Option<Regex> {
    match r
    case None => None
    case Some(re) => Some(Regex([a] + re.atoms, re.anchoredEnd))
  }

  /**
   * Reads regular-expression text after the leading `^`: `\x` is the literal
   * `x`, the lazy run is `Lazy`, a final `$` anchors the end, and any other
   * character that is not a metacharacter is itself. Anything else (an
   * unescaped metacharacter, a dangling backslash) is outside what `prematch`
   * produces and gives `None`.
   */
  function ParseAtoms(src: string): Option<Regex>
    decreases |src|
  {
    if src == [] then Some(Regex([], false))
    else if src == "$" then Some(Regex([], true))
    else if src[0] == '\\' then
      if |src| >= 2 then Cons(Lit(src[1]), ParseAtoms(src[2..])) else None
    else if |src| >= |LazyRun| && src[..|LazyRun|] == LazyRun then
      Cons(Lazy, ParseAtoms(src[|LazyRun|..]))
    else if src[0] in Special || src[0] == '*' then None
    else Cons(Lit(src[0]), ParseAtoms(src[1..]))
  }

  function Compile(src: string): Option<Regex> {
    if src != [] && src[0] == '^' then ParseAtoms(src[1..]) else None
  }

  /** The atom each pattern character stands for. */
  function AtomOf(c: char): Atom {
    if c == '*' then Lazy else Lit(c)
  }

  function Atoms(p: string): (atoms: seq<Atom>)
    ensures |atoms| == |p|
    ensures forall i :: 0 <= i < |p| ==> atoms[i] == AtomOf(p[i])
  {
    if p == [] then [] else [AtomOf(p[0])] + Atoms(p[1..])
  }

  /** `prematch`: the regular expression its source text denotes. */
  function Prematch(p: string, strictEOL: bool): Option<Regex> {
    Compile(PrematchSource(p, strictEOL))
  }

  /**
   * The escaping is exact: the text `prematch` builds always reads back as one
   * literal per pattern character (a metacharacter included), one lazy run per
   * `*`, and an end anchor exactly when `isStrictEOL` is set.
   */
  lemma PrematchCompiles(p: string, strictEOL: bool)
    ensures Prematch(p, strictEOL) == Some(Regex(Atoms(p), strictEOL))
  {
    var tail := if strictEOL then "$" else "";
    var src := PrematchSource(p, strictEOL);
    assert src[1..] == EscapeRegularExpression(p) + tail;
    EscapedParses(p, tail);
  }

  lemma {:induction false} EscapedParses(p: string, tail: string)
    requires tail == "" || tail == "$"
    ensures ParseAtoms(EscapeRegularExpression(p) + tail) == Some(Regex(Atoms(p), tail == "$"))
  {
    if p != [] {
      var rest := EscapeRegularExpression(p[1..]) + tail;
      EscapedParses(p[1..], tail);
      assert EscapeRegularExpression(p) + tail == EscapeChar(p[0]) + rest;
      EscapeCharParses(p[0], rest);
      assert [AtomOf(p[0])] + Atoms(p[1..]) == Atoms(p);
    }
  }

  lemma EscapeCharParses(c: char, rest: string)
    ensures ParseAtoms(EscapeChar(c) + rest) == Cons(AtomOf(c), ParseAtoms(rest))
  {
    var src := EscapeChar(c) + rest;
    if c in Special {
      assert src[0] == '\\' && src[1] == c && src[2..] == rest;
    } else if c == '*' {
      assert src[..|LazyRun|] == LazyRun && src[|LazyRun|..] == rest;
    } else {
      assert src[0] == c && src[1..] == rest;
      assert src != "$";
    }
  }

  // ---------------------------------------------------------------------
  // Meaning of `RegExp.prototype.test`
  // ---------------------------------------------------------------------

  /**
   * Whether `atoms` match a prefix of `s` (all of `s` when `anchoredEnd`).
   * The order in which a lazy run tries its lengths changes which match is
   * found first, not whether one exists, so `test` only needs existence.
   */
  function MatchAtoms(atoms: seq<Atom>, s: string, anchoredEnd: bool): bool
    decreases |atoms|, |s|
  {
    if atoms == [] then !anchoredEnd || s == []
    else match atoms[0]
      case Lit(c) => s != [] && s[0] == c && MatchAtoms(atoms[1..], s[1..], anchoredEnd)
      case Lazy =>
        MatchAtoms(atoms[1..], s, anchoredEnd)
        || (s != [] && s[0] != '\n' && MatchAtoms(atoms, s[1..], anchoredEnd))
  }

  /** `match(prematch, path)`: the `^` anchor means only matches starting at index 0 count. */
  function Test(re: Regex, path: string): bool {
    MatchAtoms(re.atoms, path, re.anchoredEnd)
  }

  /** `match(prematch(pattern, { isStrictEOL }), path)`. */
  predicate Matches(pattern: string, path: string, strictEOL: bool) {
    Test(Regex(Atoms(pattern), strictEOL), path)
  }

  // ---------------------------------------------------------------------
  // Properties
  // ---------------------------------------------------------------------

  /** A lazy run matches any newline-free run of characters, the empty one included. */
  lemma {:induction false} LazyMatches(rest: seq<Atom>, s: string, e: bool)
    ensures MatchAtoms([Lazy] + rest, s, e)
        <==> exists k :: 0 <= k <= |s| && '\n' !in s[..k] && MatchAtoms(rest, s[k..], e)
    decreases |s|
  {
    var atoms := [Lazy] + rest;
    assert atoms[1..] == rest;
    if s == [] {
      assert s[..0] == [] && s[0..] == s;
    } else {
      LazyMatches(rest, s[1..], e);
      if MatchAtoms(atoms, s, e) {
        if MatchAtoms(rest, s, e) {
          assert s[..0] == [] && s[0..] == s;
        } else {
          var k :| 0 <= k <= |s[1..]| && '\n' !in s[1..][..k] && MatchAtoms(rest, s[1..][k..], e);
          assert s[..k + 1] == [s[0]] + s[1..][..k];
          assert s[k + 1..] == s[1..][k..];
        }
      } else {
        forall k | 0 <= k <= |s| && '\n' !in s[..k]
          ensures !MatchAtoms(rest, s[k..], e)
        {
          if k > 0 {
            assert s[0] == s[..k][0];
            assert s[1..][..k - 1] == s[1..k];
            assert forall c :: c in s[1..k] ==> c in s[..k];
            assert s[1..][k - 1..] == s[k..];
          } else {
            assert s[0..] == s;
          }
        }
      }
    }
  }

  /** The text before the first `*` must be a prefix of the path: matches start at index 0. */
  lemma PrefixBeforeStar(p: string, path: string, strictEOL: bool)
    requires Matches(p, path, strictEOL)
    ensures p[..IndexOf(p, '*')] <= path
  {
    var n := IndexOf(p, '*');
    var atoms := Atoms(p);
    forall i | 0 <= i < n
      ensures atoms[i] == Lit(p[i])
    {
      assert p[i] == p[..n][i];
    }
    LiteralsArePrefix(atoms, path, strictEOL, n);
  }

  lemma {:induction false} LiteralsArePrefix(atoms: seq<Atom>, s: string, e: bool, n: nat)
    requires n <= |atoms| && forall i :: 0 <= i < n ==> atoms[i].Lit?
    requires MatchAtoms(atoms, s, e)
    ensures n <= |s| && forall i :: 0 <= i < n ==> s[i] == atoms[i].c
    decreases n
  {
    if n > 0 {
      LiteralsArePrefix(atoms[1..], s[1..], e, n - 1);
    }
  }

  /** Without `isStrictEOL`, a pattern without `*` matches exactly the paths it is a prefix of. */
  lemma {:induction false} StarFreeLoose(p: string, path: string)
    requires '*' !in p
    ensures Matches(p, path, false) <==> p <= path
  {
    if p != [] {
      assert Atoms(p)[1..] == Atoms(p[1..]);
      assert '*' !in p[1..] by { assert forall c :: c in p[1..] ==> c in p; }
      if path != [] {
        StarFreeLoose(p[1..], path[1..]);
        assert p <= path <==> p[0] == path[0] && p[1..] <= path[1..];
      }
    }
  }

  /** With `isStrictEOL`, a pattern without `*` matches exactly the path equal to it. */
  lemma {:induction false} StarFreeStrict(p: string, path: string)
    requires '*' !in p
    ensures Matches(p, path, true) <==> p == path
  {
    if p != [] {
      assert Atoms(p)[1..] == Atoms(p[1..]);
      assert '*' !in p[1..] by { assert forall c :: c in p[1..] ==> c in p; }
      if path != [] {
        StarFreeStrict(p[1..], path[1..]);
        assert p == path <==> p[0] == path[0] && p[1..] == path[1..];
      }
    }
  }

  /** A strict match is also a loose one. */
  lemma {:induction false} StrictImpliesLoose(atoms: seq<Atom>, s: string)
    requires MatchAtoms(atoms, s, true)
    ensures MatchAtoms(atoms, s, false)
    decreases |atoms|, |s|
  {
    if atoms != [] {
      match atoms[0]
      case Lit(c) => StrictImpliesLoose(atoms[1..], s[1..]);
      case Lazy =>
        if MatchAtoms(atoms[1..], s, true) {
          StrictImpliesLoose(atoms[1..], s);
        } else {
          StrictImpliesLoose(atoms, s[1..]);
        }
    }
  }

  /** A loose match survives appending characters to the path. */
  lemma {:induction false} LooseMatchExtends(atoms: seq<Atom>, s: string, t: string)
    requires MatchAtoms(atoms, s, false)
    ensures MatchAtoms(atoms, s + t, false)
    decreases |atoms|, |s|
  {
    if atoms != [] {
      match atoms[0]
      case Lit(c) =>
        LooseMatchExtends(atoms[1..], s[1..], t);
        assert (s + t)[1..] == s[1..] + t;
      case Lazy =>
        if MatchAtoms(atoms[1..], s, false) {
          LooseMatchExtends(atoms[1..], s, t);
        } else {
          LooseMatchExtends(atoms, s[1..], t);
          assert (s + t)[1..] == s[1..] + t;
        }
    }
  }

  /** The empty pattern matches every path, and with `isStrictEOL` only the empty one. */
  lemma EmptyPattern(path: string)
    ensures Matches("", path, false)
    ensures Matches("", path, true) <==> path == []
  {
  }

  // A star may match nothing, but the pattern /foo/STAR/bar still needs both of its slashes.
  lemma StarNeedsBothSlashes()
    ensures !Matches("/foo/*/bar", "/foo/bar", false)
  {
    StarThenMissingLiteral("/foo/*/bar", "/foo/bar", 5, '/');
  }

  /**
   * After a shared star-free prefix, a `*` followed by a literal the rest of
   * the path lacks cannot match: the lazy run never reaches that literal.
   */
  lemma StarThenMissingLiteral(p: string, s: string, n: nat, c: char)
    requires n + 1 < |p| && n <= |s| && p[..n] == s[..n] && '*' !in p[..n]
    requires p[n] == '*' && p[n + 1] == c && c != '*' && c !in s[n..]
    ensures !Matches(p, s, false)
  {
    SharedLiteralPrefix(p, s, n);
    var rest := Atoms(p[n + 1..]);
    assert Atoms(p[n..]) == [Lazy] + rest by {
      assert p[n..][0] == '*' && p[n..][1..] == p[n + 1..];
    }
    assert rest[0] == Lit(c);
    LazyNeedsLiteral(rest, s[n..], false);
  }

  /** A star-free prefix the pattern and the path share is consumed literal by literal. */
  lemma SharedLiteralPrefix(p: string, s: string, n: nat)
    requires n <= |p| && n <= |s| && p[..n] == s[..n] && '*' !in p[..n]
    ensures Matches(p, s, false) == MatchAtoms(Atoms(p[n..]), s[n..], false)
  {
    var atoms := Atoms(p);
    forall i | 0 <= i < n
      ensures atoms[i] == Lit(s[i])
    {
      assert p[i] == p[..n][i] && s[i] == s[..n][i];
    }
    SkipLiterals(atoms, s, n);
    assert p == p[..n] + p[n..];
    AtomsAppend(p[..n], p[n..]);
  }

  /** A lazy run followed by a literal cannot match text that lacks that literal. */
  lemma {:induction false} LazyNeedsLiteral(rest: seq<Atom>, s: string, e: bool)
    requires rest != [] && rest[0].Lit? && rest[0].c !in s
    ensures !MatchAtoms([Lazy] + rest, s, e)
    decreases |s|
  {
    assert ([Lazy] + rest)[1..] == rest;
    if s != [] {
      assert rest[0].c !in s[1..] by {
        assert forall x :: x in s[1..] ==> x in s;
      }
      LazyNeedsLiteral(rest, s[1..], e);
    }
  }

  lemma AtomsAppend(p: string, q: string)
    ensures Atoms(p + q) == Atoms(p) + Atoms(q)
  {
    var a, b := Atoms(p + q), Atoms(p) + Atoms(q);
    forall i | 0 <= i < |a|
      ensures a[i] == b[i]
    {
      if i < |p| {
        assert (p + q)[i] == p[i];
      } else {
        assert (p + q)[i] == q[i - |p|];
      }
    }
  }

  /** A `*` between two star-free parts matches any newline-free run between them. */
  lemma StarMatchesRun(pre: string, run: string, post: string)
    requires '*' !in pre && '*' !in post && '\n' !in run
    ensures Matches(pre + "*" + post, pre + run + post, false)
  {
    AtomsAppend(pre + "*", post);
    AtomsAppend(pre, "*");
    assert Atoms("*") == [Lazy];
    assert Atoms(pre + "*" + post) == Atoms(pre) + [Lazy] + Atoms(post);
    StarFreeLoose(post, post);
    LiteralsThenRun(pre, run, Atoms(post), post);
  }

  lemma {:induction false} LiteralsThenRun(pre: string, run: string, rest: seq<Atom>, tail: string)
    requires '*' !in pre && '\n' !in run
    requires MatchAtoms(rest, tail, false)
    ensures MatchAtoms(Atoms(pre) + [Lazy] + rest, pre + run + tail, false)
  {
    if pre == [] {
      assert Atoms(pre) + [Lazy] + rest == [Lazy] + rest;
      assert pre + run + tail == run + tail;
      LazyRunMatches(run, rest, tail);
    } else {
      assert '*' !in pre[1..] by { assert forall c :: c in pre[1..] ==> c in pre; }
      LiteralsThenRun(pre[1..], run, rest, tail);
      assert (Atoms(pre) + [Lazy] + rest)[1..] == Atoms(pre[1..]) + [Lazy] + rest;
      assert (pre + run + tail)[1..] == pre[1..] + run + tail;
    }
  }

  lemma {:induction false} LazyRunMatches(run: string, rest: seq<Atom>, tail: string)
    requires '\n' !in run
    requires MatchAtoms(rest, tail, false)
    ensures MatchAtoms([Lazy] + rest, run + tail, false)
  {
    assert ([Lazy] + rest)[1..] == rest;
    if run == [] {
      assert run + tail == tail;
    } else {
      assert '\n' !in run[1..] by { assert forall c :: c in run[1..] ==> c in run; }
      LazyRunMatches(run[1..], rest, tail);
      assert (run + tail)[1..] == run[1..] + tail;
    }
  }

  lemma StarMatchesSegment()
    ensures Matches("/foo/*/bar", "/foo/x/bar", false)
  {
    StarMatchesRun("/foo/", "x", "/bar");
    assert "/foo/" + "*" + "/bar" == "/foo/*/bar";
    assert "/foo/" + "x" + "/bar" == "/foo/x/bar";
  }

  /** `*` never crosses a newline, and a trailing `*` may match nothing even when strict. */
  lemma StarStopsAtNewline()
    ensures !Matches("/a*b", "/a\nb", false)
    ensures Matches("/a*", "/a", true)
  {
    var ab := [Lit('/'), Lit('a'), Lazy, Lit('b')];
    var s := "/a\nb";
    assert Atoms("/a*b") == ab;
    assert !MatchAtoms(ab[2..], s[2..], false) by {
      assert ab[2..] == [Lazy, Lit('b')] && s[2..] == "\nb";
      assert [Lazy, Lit('b')][1..] == [Lit('b')];
    }
    SkipLiterals(ab, s, 2);
    assert Matches("/a*", "/a", true) by {
      assert Atoms("/a*") == [Lit('/'), Lit('a'), Lazy];
    }
  }

  /** Matching a run of literal atoms consumes the same characters of the path. */
  lemma {:induction false} SkipLiterals(atoms: seq<Atom>, s: string, n: nat)
    requires n <= |atoms| && n <= |s|
    requires forall i :: 0 <= i < n ==> atoms[i] == Lit(s[i])
    ensures MatchAtoms(atoms, s, false) == MatchAtoms(atoms[n..], s[n..], false)
    decreases n
  {
    if n > 0 {
      SkipLiterals(atoms[1..], s[1..], n - 1);
      assert atoms[1..][n - 1..] == atoms[n..];
      assert s[1..][n - 1..] == s[n..];
    }
  }

  /** Metacharacters are literals, a `$` inside the pattern included, and letters keep their case. */
  lemma LiteralExamples()
    ensures !Matches("/a.b", "/axb", false) && Matches("/a.b", "/a.b", true)
    ensures Matches("/a$", "/a$", true) && !Matches("/a$", "/a", false)
    ensures !Matches("/A", "/a", false)
  {
  }
}

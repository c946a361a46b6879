/**
 * The robots.txt engine of `packages/exclusion/src/index.ts`: the
 * `RobotsTxtLine` constructor and its three tests, the `RobotsTxt`
 * constructor that turns the text into a list of recognised directives, and
 * `isPathAllowed`, which walks that list with a user-agent flag and returns
 * the first verdict.
 *
 * A line's `previous` and `next` are its neighbours in `lines`, so they are
 * index adjacency here and no pointers are kept.
 */
module Exclusion {
  import opened Wrappers
  import opened JsStrings
  import opened Host
  import opened Normalize

  // ---------------------------------------------------------------------
  // Lines
  // ---------------------------------------------------------------------

  /** The four directives the engine keeps. */
  datatype Key = UserAgent | Allow | Disallow | CrawlDelay

  function KeyName(k: Key): string {
    match k
    case UserAgent => "user-agent"
    case Allow => "allow"
    case Disallow => "disallow"
    case CrawlDelay => "crawl-delay"
  }

  /** The directive a lower-cased key names, if it is one of the four. */
  function KeyOf(name: string): (k: Option<Key>)
    ensures k.Some? <==> name in {"user-agent", "allow", "disallow", "crawl-delay"}
    ensures k.Some? ==> KeyName(k.value) == name
  {
    if name == "user-agent" then Some(UserAgent)
    else if name == "allow" then Some(Allow)
    else if name == "disallow" then Some(Disallow)
    else if name == "crawl-delay" then Some(CrawlDelay)
    else None
  }

  lemma KeyOfName(k: Key)
    ensures KeyOf(KeyName(k)) == Some(k)
  {
  }

  predicate IsRule(k: Key) {
    k == Allow || k == Disallow
  }

  /**
   * A `RobotsTxtLine` once its constructor has run. `delay` is `None` where
   * the object leaves it undefined, and `strictEOL` is `false` where it does.
   */
  datatype Line = Line(key: Key, value: string, delay: Option<int>, strictEOL: bool)

  /** The crawl delay, in milliseconds, a `crawl-delay` value gives. */
  function DelayOf(value: string): Option<int> {
    match ParseInt(value)
    case None => None
    case Some(n) => Some(n * 1000)
  }

  /** The value without one trailing `$`, and whether there was one. */
  function StripStrictEOL(value: string): (r: (string, bool))
    ensures r.1 <==> value != [] && value[|value| - 1] == '$'
    ensures value == r.0 + (if r.1 then "$" else [])
  {
    if value != [] && value[|value| - 1] == '$' then (value[..|value| - 1], true) else (value, false)
  }

  /** The line the constructor builds, or the error the local `normalizePath` throws. */
  function LineOf(h: Host, key: Key, value: string): Result<Line, NormError> {
    var delay := if key == CrawlDelay then DelayOf(value) else None;
    if IsRule(key) then
      var (stripped, strict) := StripStrictEOL(value);
      match RootedPath(h, stripped)
      case Err(e) => Err(e)
      case Ok(normal) => Ok(Line(key, normal, delay, strict))
    else Ok(Line(key, value, delay, false))
  }

  /** The `RobotsTxtLine` constructor, overwriting the fields of the new line in turn. */
  method NewLine(h: Host, key: Key, value: string) returns (r: Result<Line, NormError>)
    ensures r == LineOf(h, key, value)
  {
    var line := Line(key, value, None, false);
    if key == CrawlDelay {
      var delay := ParseInt(value);
      line := line.(delay := if delay.None? then None else Some(delay.value * 1000));
    }
    if key == Allow || key == Disallow {
      var v := line.value;
      if |v| > 0 && v[|v| - 1] == '$' {
        line := line.(value := v[..|v| - 1], strictEOL := true);
      }
      var normal := NormalizeRooted(h, line.value);
      if normal.Err? {
        return Err(normal.error);
      }
      line := line.(value := normal.value);
    }
    return Ok(line);
  }

  /** `isAdditionalUserAgent` of `lines[i]`, whose `previous` is `lines[i - 1]`. */
  predicate IsAdditionalUserAgent(lines: seq<Line>, i: nat)
    requires i < |lines|
  {
    lines[i].key == UserAgent && i > 0 && lines[i - 1].key == UserAgent
  }

  /** `isOwnUserAgent(self)`. */
  predicate IsOwnUserAgent(h: Host, line: Line, self: string) {
    line.key == UserAgent
    && (h.lower(self) == h.lower(line.value) || ContainsIgnoringCase(line.value, "netscrape") || line.value == "*")
  }

  /** `isPathAllowedByLine(path)`: `Some` verdict on a match, `None` for `undefined`. */
  function PathVerdict(h: Host, line: Line, path: string): (v: Result<Option<bool>, NormError>)
    ensures !IsRule(line.key) ==> v == Ok(Some(false))
    ensures IsRule(line.key) ==> (v.Ok? <==> RootedPath(h, path).Ok?)
    ensures IsRule(line.key) && v.Ok? ==>
      (v.value.Some? <==> h.glob(RootedPath(h, path).value, line.value + "*"))
    ensures IsRule(line.key) && v.Ok? && v.value.Some? ==> v.value.value == (line.key == Allow)
  {
    if !IsRule(line.key) then Ok(Some(false))
    else
      match RootedPath(h, path)
      case Err(e) => Err(e)
      case Ok(normal) => if h.glob(normal, line.value + "*") then Ok(Some(line.key == Allow)) else Ok(None)
  }

  // ---------------------------------------------------------------------
  // The text of a robots.txt
  // ---------------------------------------------------------------------

  /**
   * The first `replace`: a CR right before an LF is removed, and so is each
   * `#` with everything after it up to (not including) the next LF.
   */
  function StripComments(s: string): (r: string)
    ensures '#' !in r
    decreases |s|
  {
    if s == [] then []
    else if s[0] == '\r' && |s| > 1 && s[1] == '\n' then StripComments(s[1..])
    else if s[0] == '#' then StripComments(s[IndexOf(s, '\n')..])
    else [s[0]] + StripComments(s[1..])
  }

  /** The second `replace`: every CR left becomes an LF. */
  function CrToLf(s: string): (r: string)
    ensures |r| == |s| && '\r' !in r
    ensures forall i :: 0 <= i < |s| ==> r[i] == (if s[i] == '\r' then '\n' else s[i])
  {
    if s == [] then [] else [if s[0] == '\r' then '\n' else s[0]] + CrToLf(s[1..])
  }

  /** The lines the constructor loops over. */
  function RawLines(text: string): (lines: seq<string>)
    ensures |lines| >= 1
    ensures forall i :: 0 <= i < |lines| ==> '#' !in lines[i] && '\r' !in lines[i] && '\n' !in lines[i]
  {
    var t := CrToLf(StripComments(text));
    assert '#' !in t;
    SplitExcludes(t, '\n', '#');
    SplitExcludes(t, '\n', '\r');
    Split(t, '\n')
  }

  /** The trimmed text before the first `:`, and the trimmed text between the first and the second `:` (`''` without a `:`). */
  function Fields(raw: string): (kv: (string, string))
    ensures ':' !in kv.0 && ':' !in kv.1
  {
    var parts := SplitTwo(raw, ':');
    var key := parts[0];
    TrimExcludes(key, ':');
    if |parts| == 2 then
      TrimExcludes(parts[1], ':');
      (Trim(key), Trim(parts[1]))
    else (Trim(key), "")
  }

  /** The directive a raw line holds: `None` when its key is empty or is not one of the four. */
  function Directive(h: Host, raw: string): Option<(Key, string)> {
    var (key, value) := Fields(raw);
    if key == [] then None
    else
      match KeyOf(h.lower(key))
      case None => None
      case Some(k) => Some((k, value))
  }

  /** What one raw line adds to `lines`: nothing, the line its constructor builds, or the error it throws. */
  function Added(h: Host, raw: string): Result<seq<Line>, NormError> {
    match Directive(h, raw)
    case None => Ok([])
    case Some((k, v)) =>
      match LineOf(h, k, v)
      case Err(e) => Err(e)
      case Ok(line) => Ok([line])
  }

  /** The constructor's loop: the contributions of `raws` in order, or the first error. */
  function Collect(add: string -> Result<seq<Line>, NormError>, raws: seq<string>): Result<seq<Line>, NormError> {
    if raws == [] then Ok([])
    else
      match Collect(add, raws[..|raws| - 1])
      case Err(e) => Err(e)
      case Ok(lines) =>
        match add(raws[|raws| - 1])
        case Err(e) => Err(e)
        case Ok(more) => Ok(lines + more)
  }

  /** `Added` for one host, as the step function of `Collect`. */
  function AddedBy(h: Host): string -> Result<seq<Line>, NormError> {
    raw => Added(h, raw)
  }

  /** The lines the constructor has pushed once it has read `raws`, or the first error a line throws. */
  function ParsedLines(h: Host, raws: seq<string>): Result<seq<Line>, NormError> {
    Collect(AddedBy(h), raws)
  }

  /** A parsed robots.txt: its text and its recognised lines in file order. */
  datatype RobotsTxt = RobotsTxt(text: string, lines: seq<Line>)

  function RobotsOf(h: Host, text: string): Result<RobotsTxt, NormError> {
    match ParsedLines(h, RawLines(text))
    case Err(e) => Err(e)
    case Ok(lines) => Ok(RobotsTxt(text, lines))
  }

  /** Once a line has thrown, the constructor throws that error. */
  lemma {:induction false} ErrorPersists(add: string -> Result<seq<Line>, NormError>, raws: seq<string>, i: nat, e: NormError)
    requires i <= |raws| && Collect(add, raws[..i]) == Err(e)
    ensures Collect(add, raws) == Err(e)
    decreases |raws| - i
  {
    if i < |raws| {
      assert raws[..i + 1] == raws[..i] + [raws[i]];
      CollectSnoc(add, raws[..i], raws[i]);
      ErrorPersists(add, raws, i + 1, e);
    } else {
      assert raws[..i] == raws;
    }
  }

  /** One pass of the constructor's loop body: split the line, skip it or build its `RobotsTxtLine`. */
  method ReadLine(h: Host, raw: string) returns (r: Result<seq<Line>, NormError>)
    ensures r == Added(h, raw)
  {
    var (key, value) := Fields(raw);
    if key == [] {
      return Ok([]);
    }
    var k := KeyOf(h.lower(key));
    if k.None? {
      return Ok([]);
    }
    var line := NewLine(h, k.value, value);
    if line.Err? {
      return Err(line.error);
    }
    return Ok([line.value]);
  }

  /** The `RobotsTxt` constructor: split the text into lines, then push one line per recognised directive. */
  method Parse(h: Host, text: string) returns (r: Result<RobotsTxt, NormError>)
    ensures r == RobotsOf(h, text)
  {
    var raws := Split(CrToLf(StripComments(text)), '\n');
    assert raws == RawLines(text);
    var lines := ReadLines(h, raws);
    match lines
    case Err(e) => r := Err(e);
    case Ok(ls) => r := Ok(RobotsTxt(text, ls));
  }

  /** The constructor's loop over the raw lines. */
  method ReadLines(h: Host, raws: seq<string>) returns (r: Result<seq<Line>, NormError>)
    ensures r == ParsedLines(h, raws)
  {
    var lines: seq<Line> := [];
    var i := 0;
    while i < |raws|
      invariant 0 <= i <= |raws|
      invariant ParsedLines(h, raws[..i]) == Ok(lines)
    {
      ParsedLinesStep(h, raws, i);
      var more := ReadLine(h, raws[i]);
      if more.Err? {
        ErrorPersists(AddedBy(h), raws, i + 1, more.error);
        return Err(more.error);
      }
      lines := lines + more.value;
      i := i + 1;
    }
    assert raws[..i] == raws;
    return Ok(lines);
  }

  /** One more raw line read by the constructor's loop. */
  lemma ParsedLinesStep(h: Host, raws: seq<string>, i: nat)
    requires i < |raws| && ParsedLines(h, raws[..i]).Ok?
    ensures ParsedLines(h, raws[..i + 1]) == match Added(h, raws[i])
      case Err(e) => Err(e)
      case Ok(more) => Ok(ParsedLines(h, raws[..i]).value + more)
  {
    assert raws[..i + 1] == raws[..i] + [raws[i]];
    CollectSnoc(AddedBy(h), raws[..i], raws[i]);
  }

  // ---------------------------------------------------------------------
  // Evaluation
  // ---------------------------------------------------------------------

  /** The `ownUserAgent` flag once the loop has passed the first `n` lines. */
  function UaFlag(h: Host, lines: seq<Line>, n: nat, agent: string): bool
    requires n <= |lines|
  {
    if n == 0 then false
    else if lines[n - 1].key != UserAgent then UaFlag(h, lines, n - 1, agent)
    else if IsAdditionalUserAgent(lines, n - 1) then UaFlag(h, lines, n - 1, agent) || IsOwnUserAgent(h, lines[n - 1], agent)
    else IsOwnUserAgent(h, lines[n - 1], agent)
  }

  /** Whether the loop asks line `i` for a verdict: a rule reached while the flag is set. */
  predicate Applies(h: Host, lines: seq<Line>, i: nat, agent: string)
    requires i < |lines|
  {
    IsRule(lines[i].key) && UaFlag(h, lines, i, agent)
  }

  /** What `isPathAllowed` returns once the loop has reached line `i`. */
  function EvalFrom(h: Host, lines: seq<Line>, path: string, agent: string, i: nat): Result<bool, NormError>
    requires i <= |lines|
    decreases |lines| - i
  {
    if i == |lines| then Ok(true)
    else if Applies(h, lines, i, agent) then
      match PathVerdict(h, lines[i], path)
      case Err(e) => Err(e)
      case Ok(Some(b)) => Ok(b)
      case Ok(None) => EvalFrom(h, lines, path, agent, i + 1)
    else EvalFrom(h, lines, path, agent, i + 1)
  }

  function Evaluate(h: Host, robots: RobotsTxt, path: string, agent: string): Result<bool, NormError> {
    EvalFrom(h, robots.lines, path, agent, 0)
  }

  /** `isPathAllowed`: the loop with its `ownUserAgent` flag and its early return. */
  method IsPathAllowed(h: Host, robots: RobotsTxt, path: string, userAgent: string) returns (r: Result<bool, NormError>)
    ensures r == Evaluate(h, robots, path, userAgent)
  {
    var lines := robots.lines;
    var own := false;
    var i := 0;
    while i < |lines|
      invariant 0 <= i <= |lines|
      invariant own == UaFlag(h, lines, i, userAgent)
      invariant Evaluate(h, robots, path, userAgent) == EvalFrom(h, lines, path, userAgent, i)
    {
      var line := lines[i];
      FlagStep(h, lines, i, userAgent);
      if line.key == UserAgent {
        own := if IsAdditionalUserAgent(lines, i) then own || IsOwnUserAgent(h, line, userAgent)
               else IsOwnUserAgent(h, line, userAgent);
      } else if (line.key == Allow || line.key == Disallow) && own {
        var status := PathVerdict(h, line, path);
        if status.Err? {
          return Err(status.error);
        }
        if status.value.Some? {
          return Ok(status.value.value);
        }
      }
      i := i + 1;
    }
    return Ok(true);
  }

  /** How reading line `i` moves the `ownUserAgent` flag. */
  lemma FlagStep(h: Host, lines: seq<Line>, i: nat, agent: string)
    requires i < |lines|
    ensures lines[i].key != UserAgent ==> UaFlag(h, lines, i + 1, agent) == UaFlag(h, lines, i, agent)
    ensures lines[i].key == UserAgent && IsAdditionalUserAgent(lines, i) ==>
      UaFlag(h, lines, i + 1, agent) == (UaFlag(h, lines, i, agent) || IsOwnUserAgent(h, lines[i], agent))
    ensures lines[i].key == UserAgent && !IsAdditionalUserAgent(lines, i) ==>
      UaFlag(h, lines, i + 1, agent) == IsOwnUserAgent(h, lines[i], agent)
  {
  }

  // ---------------------------------------------------------------------
  // Groups of user-agent lines
  // ---------------------------------------------------------------------

  /** A user-agent line that starts a group: the flag is reset there. */
  predicate GroupStart(lines: seq<Line>, k: nat)
    requires k < |lines|
  {
    lines[k].key == UserAgent && !IsAdditionalUserAgent(lines, k)
  }

  /** Line `j` is a user-agent line of the group in force once `n` lines have been read. */
  predicate InCurrentGroup(lines: seq<Line>, j: nat, n: nat)
    requires j < n <= |lines|
  {
    lines[j].key == UserAgent && forall k :: j < k < n ==> !GroupStart(lines, k)
  }

  /**
   * The flag is set exactly when some user-agent line of the current group
   * (the last run of consecutive user-agent lines) names the agent
   * (RFC 9309, section 2.2.1).
   */
  lemma {:induction false} GroupCharacterization(h: Host, lines: seq<Line>, n: nat, agent: string)
    requires n <= |lines|
    ensures UaFlag(h, lines, n, agent)
        <==> exists j :: 0 <= j < n && InCurrentGroup(lines, j, n) && IsOwnUserAgent(h, lines[j], agent)
  {
    if n > 0 {
      GroupCharacterization(h, lines, n - 1, agent);
      var last := n - 1;
      if GroupStart(lines, last) {
        forall j | 0 <= j < last
          ensures !InCurrentGroup(lines, j, n)
        {
          assert j < last < n && GroupStart(lines, last);
        }
        if IsOwnUserAgent(h, lines[last], agent) {
          assert InCurrentGroup(lines, last, n);
        }
      } else {
        forall j | 0 <= j < last
          ensures InCurrentGroup(lines, j, n) <==> InCurrentGroup(lines, j, last)
        {
        }
        if UaFlag(h, lines, n, agent) && !UaFlag(h, lines, last, agent) {
          assert IsOwnUserAgent(h, lines[last], agent);
          assert InCurrentGroup(lines, last, n);
        }
      }
    }
  }

  /** The first line is never an additional user agent, and a rule never changes the flag. */
  lemma FlagOnlyFromUserAgentLines(h: Host, lines: seq<Line>, n: nat, agent: string)
    requires 0 < n <= |lines| && lines[n - 1].key != UserAgent
    ensures !IsAdditionalUserAgent(lines, 0)
    ensures UaFlag(h, lines, n, agent) == UaFlag(h, lines, n - 1, agent)
  {
  }

  // ---------------------------------------------------------------------
  // First match wins
  // ---------------------------------------------------------------------

  /** No line between `i` and `m` that the loop consults gives a verdict or throws. */
  predicate NoVerdictBetween(h: Host, lines: seq<Line>, path: string, agent: string, i: nat, m: nat)
    requires i <= m <= |lines|
  {
    forall j :: i <= j < m && Applies(h, lines, j, agent) ==> PathVerdict(h, lines[j], path) == Ok(None)
  }

  lemma {:induction false} FirstVerdictFrom(h: Host, lines: seq<Line>, path: string, agent: string, i: nat, m: nat)
    requires i <= m < |lines| && Applies(h, lines, m, agent)
    requires PathVerdict(h, lines[m], path).Ok? && PathVerdict(h, lines[m], path).value.Some?
    requires NoVerdictBetween(h, lines, path, agent, i, m)
    ensures EvalFrom(h, lines, path, agent, i) == Ok(lines[m].key == Allow)
    decreases m - i
  {
    if i < m {
      NoVerdictSplit(h, lines, path, agent, i, m);
      SkipSilentLine(h, lines, path, agent, i);
      FirstVerdictFrom(h, lines, path, agent, i + 1, m);
    } else {
      VerdictAt(h, lines, path, agent, m);
    }
  }

  lemma NoVerdictSplit(h: Host, lines: seq<Line>, path: string, agent: string, i: nat, m: nat)
    requires i < m <= |lines| && NoVerdictBetween(h, lines, path, agent, i, m)
    ensures NoVerdictBetween(h, lines, path, agent, i, i + 1) && NoVerdictBetween(h, lines, path, agent, i + 1, m)
  {
  }

  /** A line the loop does not ask, or that gives no verdict, passes control to the next. */
  lemma SkipSilentLine(h: Host, lines: seq<Line>, path: string, agent: string, i: nat)
    requires i < |lines| && NoVerdictBetween(h, lines, path, agent, i, i + 1)
    ensures EvalFrom(h, lines, path, agent, i) == EvalFrom(h, lines, path, agent, i + 1)
  {
    assert !Applies(h, lines, i, agent) || PathVerdict(h, lines[i], path) == Ok(None);
  }

  /** A consulted line that gives a verdict ends the loop with it. */
  lemma VerdictAt(h: Host, lines: seq<Line>, path: string, agent: string, m: nat)
    requires m < |lines| && Applies(h, lines, m, agent)
    requires PathVerdict(h, lines[m], path).Ok? && PathVerdict(h, lines[m], path).value.Some?
    ensures EvalFrom(h, lines, path, agent, m) == Ok(lines[m].key == Allow)
  {
  }

  /**
   * The verdict is that of the first applicable allow/disallow line that
   * matches: an allow line gives `true`, a disallow line `false`, whatever
   * comes after it.
   */
  lemma FirstMatchWins(h: Host, robots: RobotsTxt, path: string, agent: string, m: nat)
    requires m < |robots.lines| && Applies(h, robots.lines, m, agent)
    requires PathVerdict(h, robots.lines[m], path).Ok? && PathVerdict(h, robots.lines[m], path).value.Some?
    requires NoVerdictBetween(h, robots.lines, path, agent, 0, m)
    ensures Evaluate(h, robots, path, agent) == Ok(robots.lines[m].key == Allow)
  {
    FirstVerdictFrom(h, robots.lines, path, agent, 0, m);
  }

  lemma {:induction false} NoVerdictFrom(h: Host, lines: seq<Line>, path: string, agent: string, i: nat)
    requires i <= |lines| && NoVerdictBetween(h, lines, path, agent, i, |lines|)
    ensures EvalFrom(h, lines, path, agent, i) == Ok(true)
    decreases |lines| - i
  {
    if i < |lines| {
      NoVerdictFrom(h, lines, path, agent, i + 1);
    }
  }

  /** When no consulted line matches, the path is allowed. */
  lemma DefaultAllow(h: Host, robots: RobotsTxt, path: string, agent: string)
    requires NoVerdictBetween(h, robots.lines, path, agent, 0, |robots.lines|)
    ensures Evaluate(h, robots, path, agent) == Ok(true)
  {
    NoVerdictFrom(h, robots.lines, path, agent, 0);
  }

  lemma {:induction false} BlockedFrom(h: Host, lines: seq<Line>, path: string, agent: string, i: nat)
    requires i <= |lines| && EvalFrom(h, lines, path, agent, i) == Ok(false)
    ensures exists m :: (i <= m < |lines| && Applies(h, lines, m, agent) && lines[m].key == Disallow
      && PathVerdict(h, lines[m], path) == Ok(Some(false)) && NoVerdictBetween(h, lines, path, agent, i, m))
    decreases |lines| - i
  {
    if Applies(h, lines, i, agent) && PathVerdict(h, lines[i], path) != Ok(None) {
      assert lines[i].key == Disallow && PathVerdict(h, lines[i], path) == Ok(Some(false));
      assert NoVerdictBetween(h, lines, path, agent, i, i);
    } else {
      BlockedFrom(h, lines, path, agent, i + 1);
      var m :| i + 1 <= m < |lines| && Applies(h, lines, m, agent) && lines[m].key == Disallow
        && PathVerdict(h, lines[m], path) == Ok(Some(false)) && NoVerdictBetween(h, lines, path, agent, i + 1, m);
      assert NoVerdictBetween(h, lines, path, agent, i, m);
    }
  }

  /**
   * Conversely, a path is refused only by a disallow line that the loop
   * consults and that matches, before which no consulted line matched.
   */
  lemma BlockedOnlyByDisallow(h: Host, robots: RobotsTxt, path: string, agent: string)
    requires Evaluate(h, robots, path, agent) == Ok(false)
    ensures exists m :: (0 <= m < |robots.lines| && Applies(h, robots.lines, m, agent)
      && robots.lines[m].key == Disallow && PathVerdict(h, robots.lines[m], path) == Ok(Some(false))
      && NoVerdictBetween(h, robots.lines, path, agent, 0, m))
  {
    BlockedFrom(h, robots.lines, path, agent, 0);
  }

  /** Lines with their `strictEOL` flags replaced. */
  function WithStrictEOL(lines: seq<Line>, flags: seq<bool>): (r: seq<Line>)
    requires |flags| == |lines|
    ensures |r| == |lines|
    ensures forall i :: 0 <= i < |lines| ==> r[i] == lines[i].(strictEOL := flags[i])
  {
    if lines == [] then [] else [lines[0].(strictEOL := flags[0])] + WithStrictEOL(lines[1..], flags[1..])
  }

  lemma {:induction false} FlagIgnoresStrictEOL(h: Host, lines: seq<Line>, flags: seq<bool>, n: nat, agent: string)
    requires |flags| == |lines| && n <= |lines|
    ensures UaFlag(h, WithStrictEOL(lines, flags), n, agent) == UaFlag(h, lines, n, agent)
  {
    if n > 0 {
      FlagIgnoresStrictEOL(h, lines, flags, n - 1, agent);
    }
  }

  lemma {:induction false} EvalIgnoresStrictEOL(h: Host, lines: seq<Line>, flags: seq<bool>, path: string, agent: string, i: nat)
    requires |flags| == |lines| && i <= |lines|
    ensures EvalFrom(h, WithStrictEOL(lines, flags), path, agent, i) == EvalFrom(h, lines, path, agent, i)
    decreases |lines| - i
  {
    if i < |lines| {
      var r := WithStrictEOL(lines, flags);
      FlagIgnoresStrictEOL(h, lines, flags, i, agent);
      assert r[i].key == lines[i].key && r[i].value == lines[i].value;
      assert Applies(h, r, i, agent) == Applies(h, lines, i, agent);
      assert PathVerdict(h, r[i], path) == PathVerdict(h, lines[i], path);
      EvalIgnoresStrictEOL(h, lines, flags, path, agent, i + 1);
    }
  }

  /** `strictEOL` is never consulted: changing any line's flag changes no verdict. */
  lemma StrictEOLNeverConsulted(h: Host, robots: RobotsTxt, flags: seq<bool>, path: string, agent: string)
    requires |flags| == |robots.lines|
    ensures Evaluate(h, robots.(lines := WithStrictEOL(robots.lines, flags)), path, agent)
         == Evaluate(h, robots, path, agent)
  {
    EvalIgnoresStrictEOL(h, robots.lines, flags, path, agent, 0);
  }

  // ---------------------------------------------------------------------
  // The parser
  // ---------------------------------------------------------------------

  lemma CollectSnoc(add: string -> Result<seq<Line>, NormError>, raws: seq<string>, raw: string)
    ensures Collect(add, raws).Err? ==> Collect(add, raws + [raw]) == Collect(add, raws)
    ensures Collect(add, raws).Ok? && add(raw).Err? ==> Collect(add, raws + [raw]) == Err(add(raw).error)
    ensures Collect(add, raws).Ok? && add(raw).Ok? ==> Collect(add, raws + [raw]) == Ok(Collect(add, raws).value + add(raw).value)
  {
    var r := raws + [raw];
    assert r[..|r| - 1] == raws && r[|r| - 1] == raw;
  }

  lemma LastSplit<T>(a: seq<T>, b: seq<T>)
    requires b != []
    ensures a + b == (a + b[..|b| - 1]) + [b[|b| - 1]] && b == b[..|b| - 1] + [b[|b| - 1]]
  {
  }

  lemma {:induction false} CollectAppend(add: string -> Result<seq<Line>, NormError>, a: seq<string>, b: seq<string>)
    requires Collect(add, a).Ok?
    ensures Collect(add, b).Ok? ==> Collect(add, a + b) == Ok(Collect(add, a).value + Collect(add, b).value)
    ensures Collect(add, b).Err? ==> Collect(add, a + b) == Collect(add, b)
    decreases |b|
  {
    if b == [] {
      assert a + b == a;
      assert Collect(add, a).value + [] == Collect(add, a).value;
    } else {
      var b' := b[..|b| - 1];
      var last := b[|b| - 1];
      CollectAppend(add, a, b');
      LastSplit(a, b);
      CollectSnoc(add, a + b', last);
      CollectSnoc(add, b', last);
      if Collect(add, b').Err? {
        assert Collect(add, a + b') == Collect(add, b');
      } else if add(last).Err? {
        assert Collect(add, a + b').Ok?;
      } else {
        var x, y, z := Collect(add, a).value, Collect(add, b').value, add(last).value;
        assert Collect(add, a + b') == Ok(x + y);
        assert (x + y) + z == x + (y + z);
      }
    }
  }

  /** Reading more raw lines only appends to the lines already pushed, in file order. */
  lemma ParsedLinesAppend(h: Host, a: seq<string>, b: seq<string>)
    requires ParsedLines(h, a).Ok?
    ensures ParsedLines(h, b).Ok? ==> ParsedLines(h, a + b) == Ok(ParsedLines(h, a).value + ParsedLines(h, b).value)
    ensures ParsedLines(h, b).Err? ==> ParsedLines(h, a + b) == ParsedLines(h, b)
  {
    CollectAppend(AddedBy(h), a, b);
  }

  /** What every line the parser keeps looks like. */
  ghost predicate WellFormed(h: Host, line: Line) {
    (line.key != CrawlDelay ==> line.delay == None)
    && (!IsRule(line.key) ==> ':' !in line.value && !line.strictEOL)
    && (Lawful(h) && IsRule(line.key) ==> StartsWithSlash(line.value))
  }

  lemma LineWellFormed(h: Host, key: Key, value: string)
    requires ':' !in value && LineOf(h, key, value).Ok?
    ensures WellFormed(h, LineOf(h, key, value).value)
  {
    if Lawful(h) && IsRule(key) {
      var (stripped, strict) := StripStrictEOL(value);
      assert ':' !in stripped by {
        assert forall x :: x in stripped ==> x in value;
      }
      RootedStartsWithSlash(h, stripped);
    }
  }

  /**
   * Only directives reach `lines`: a delay only on crawl-delay lines,
   * user-agent and crawl-delay values without `:`, and (for a lawful host)
   * allow/disallow values that start with `/`.
   */
  lemma {:induction false} ParsedLinesWellFormed(h: Host, raws: seq<string>)
    requires ParsedLines(h, raws).Ok?
    ensures forall i :: 0 <= i < |ParsedLines(h, raws).value| ==> WellFormed(h, ParsedLines(h, raws).value[i])
  {
    if raws != [] {
      ParsedLinesWellFormed(h, raws[..|raws| - 1]);
      match Directive(h, raws[|raws| - 1])
      case None =>
      case Some((k, v)) =>
        LineWellFormed(h, k, v);
    }
  }

  /** A raw line whose key is empty or unknown is dropped. */
  lemma UnknownKeyDropped(h: Host, raws: seq<string>, raw: string)
    requires Fields(raw).0 == [] || KeyOf(h.lower(Fields(raw).0)).None?
    ensures ParsedLines(h, raws + [raw]) == ParsedLines(h, raws)
  {
    CollectSnoc(AddedBy(h), raws, raw);
    if ParsedLines(h, raws).Ok? {
      assert ParsedLines(h, raws).value + [] == ParsedLines(h, raws).value;
    }
  }

  /** A recognised raw line adds exactly the line its constructor builds, with the lower-cased key. */
  lemma KnownKeyKept(h: Host, raws: seq<string>, raw: string, k: Key)
    requires ParsedLines(h, raws).Ok? && Fields(raw).0 != [] && h.lower(Fields(raw).0) == KeyName(k)
    ensures ParsedLines(h, raws + [raw]) == (match LineOf(h, k, Fields(raw).1)
      case Err(e) => Err(e)
      case Ok(line) => Ok(ParsedLines(h, raws).value + [line]))
  {
    CollectSnoc(AddedBy(h), raws, raw);
    KeyOfName(k);
  }

  // ---------------------------------------------------------------------
  // Comments and line ends
  // ---------------------------------------------------------------------

  /** Text without `#` and without LF comes through the first `replace` unchanged. */
  lemma {:induction false} NoCommentUnchanged(s: string)
    requires '#' !in s && '\n' !in s
    ensures StripComments(s) == s
    decreases |s|
  {
    if s != [] {
      assert '#' !in s[1..] && '\n' !in s[1..] by { assert forall x :: x in s[1..] ==> x in s; }
      NoCommentUnchanged(s[1..]);
    }
  }

  lemma {:induction false} StripCommentsAppend(a: string, b: string)
    requires '#' !in a && '\r' !in a
    ensures StripComments(a + b) == a + StripComments(b)
    decreases |a|
  {
    if a == [] {
      assert a + b == b;
    } else {
      assert (a + b)[1..] == a[1..] + b;
      assert '#' !in a[1..] && '\r' !in a[1..] by { assert forall x :: x in a[1..] ==> x in a; }
      StripCommentsAppend(a[1..], b);
    }
  }

  /** A comment runs up to the next LF, and everything in it, a bare CR included, is removed. */
  lemma CommentRunsToLineFeed(comment: string, rest: string)
    requires '\n' !in comment && (rest == [] || rest[0] == '\n')
    ensures StripComments("#" + comment + rest) == StripComments(rest)
  {
    var s := "#" + comment + rest;
    var n := 1 + |comment|;
    assert IndexOf(s, '\n') == n && s[n..] == rest by {
      assert s == (['#'] + comment) + rest;
      IndexOfAppend(['#'] + comment, rest, '\n');
    }
    assert s[0] == '#';
  }

  lemma CrToLfAppend(a: string, b: string)
    ensures CrToLf(a + b) == CrToLf(a) + CrToLf(b)
  {
  }

  /** A bare CR ends a line. */
  lemma BareCrEndsLine(pre: string, after: string)
    requires '#' !in pre && '\r' !in pre && '\n' !in pre
    requires '#' !in after && '\r' !in after && '\n' !in after
    ensures RawLines(pre + "\r" + after) == [pre, after]
  {
    var s := pre + "\r" + after;
    assert '#' !in s && '\n' !in s;
    NoCommentUnchanged(s);
    CrToLfAppend(pre + "\r", after);
    CrToLfAppend(pre, "\r");
    assert CrToLf(pre) == pre && CrToLf(after) == after;
    assert CrToLf(s) == pre + ['\n'] + after;
    SplitAppend(pre, after, '\n');
  }

  /**
   * Comments go before CRs become LFs, so a comment swallows a bare CR and
   * the text after it: what would have been the next line is lost.
   */
  lemma CommentSwallowsBareCr(pre: string, comment: string, after: string)
    requires '#' !in pre && '\r' !in pre && '\n' !in pre
    requires '\n' !in comment && '\n' !in after
    ensures RawLines(pre + "#" + comment + "\r" + after) == [pre]
  {
    var c := comment + "\r" + after;
    assert '\n' !in c;
    assert pre + "#" + comment + "\r" + after == pre + ("#" + c + []);
    StripCommentsAppend(pre, "#" + c + []);
    CommentRunsToLineFeed(c, []);
    assert pre + [] == pre;
    assert StripComments(pre + "#" + comment + "\r" + after) == pre;
    assert CrToLf(pre) == pre;
    assert Split(pre, '\n') == [pre];
  }

  /** The CR of a CRLF is dropped, so CRLF ends a line once, not twice. */
  lemma CrLfEndsLineOnce(pre: string, rest: string)
    requires '#' !in pre && '\r' !in pre && '\n' !in pre
    ensures RawLines(pre + "\r\n" + rest) == [pre] + RawLines(rest)
  {
    var s := pre + "\r\n" + rest;
    var crlf := "\r\n" + rest;
    assert s == pre + crlf;
    StripCommentsAppend(pre, crlf);
    assert crlf[1..] == "\n" + rest;
    StripCommentsAppend("\n", rest);
    var t := StripComments(rest);
    assert StripComments(crlf) == StripComments("\n" + rest) == "\n" + t;
    assert StripComments(s) == (pre + ['\n']) + t;
    CrToLfAppend(pre + ['\n'], t);
    CrToLfAppend(pre, ['\n']);
    assert CrToLf(pre) == pre;
    assert CrToLf(['\n']) == ['\n'];
    SplitAppend(pre, CrToLf(t), '\n');
  }

  // ---------------------------------------------------------------------
  // Single lines
  // ---------------------------------------------------------------------

  /** A crawl delay `parseInt` reads as `v` becomes `v * 1000` ms, and the value is kept as written. */
  lemma CrawlDelayOf(h: Host, value: string, v: int)
    requires ParseInt(value) == Some(v)
    ensures LineOf(h, CrawlDelay, value) == Ok(Line(CrawlDelay, value, Some(v * 1000), false))
  {
  }

  /** Only crawl-delay lines carry a delay. */
  lemma OnlyCrawlDelayHasDelay(h: Host, key: Key, value: string)
    requires key != CrawlDelay && LineOf(h, key, value).Ok?
    ensures LineOf(h, key, value).value.delay == None
  {
  }

  /** A crawl delay of `n` seconds, whatever non-digit text follows, is `n * 1000` ms; only crawl-delay lines get one. */
  lemma CrawlDelayInMilliseconds(h: Host, key: Key, n: int, rest: string)
    requires rest == [] || !IsDigit(rest[0])
    ensures key == CrawlDelay ==>
      LineOf(h, key, IntToString(n) + rest) == Ok(Line(CrawlDelay, IntToString(n) + rest, Some(n * 1000), false))
    ensures LineOf(h, key, IntToString(n) + rest).Ok? && key != CrawlDelay ==>
      LineOf(h, key, IntToString(n) + rest).value.delay == None
  {
    var value := IntToString(n) + rest;
    if key == CrawlDelay {
      assert ParseInt(value) == Some(n) by {
        ParseIntOfDecimal(n, rest);
      }
      CrawlDelayOf(h, value, n);
    } else if LineOf(h, key, value).Ok? {
      OnlyCrawlDelayHasDelay(h, key, value);
    }
  }

  /** A crawl delay that `parseInt` cannot read is left undefined. */
  lemma NonNumericDelay(h: Host, value: string)
    requires ParseInt(value) == None
    ensures LineOf(h, CrawlDelay, value) == Ok(Line(CrawlDelay, value, None, false))
  {
  }

  lemma CrawlDelayFiveSeconds(h: Host)
    ensures LineOf(h, CrawlDelay, "5") == Ok(Line(CrawlDelay, "5", Some(5000), false))
  {
    assert ParseInt("5") == Some(5) by {
      ParseIntOfFive();
    }
    CrawlDelayOf(h, "5", 5);
  }

  /**
   * An allow/disallow value loses one trailing `$`, which sets `strictEOL`;
   * what is left goes through the local `normalizePath`.
   */
  lemma RuleValue(h: Host, key: Key, value: string)
    requires IsRule(key)
    ensures LineOf(h, key, value).Ok? <==> RootedPath(h, StripStrictEOL(value).0).Ok?
    ensures LineOf(h, key, value).Ok? ==>
      LineOf(h, key, value).value == Line(key, RootedPath(h, StripStrictEOL(value).0).value, None, value != [] && value[|value| - 1] == '$')
  {
  }

  /** Only one `$` is taken off: `/a$$` is normalised as `/a$`. */
  lemma OnlyOneDollarStripped(h: Host, key: Key, value: string)
    requires IsRule(key)
    ensures LineOf(h, key, value + "$$").Ok? ==>
      RootedPath(h, value + "$").Ok? && LineOf(h, key, value + "$$").value.value == RootedPath(h, value + "$").value
  {
    var v := value + "$$";
    assert v[..|v| - 1] == value + "$";
    assert StripStrictEOL(v).0 == value + "$";
  }

  /** An empty allow/disallow value becomes `/`, the root. */
  lemma EmptyRuleIsRoot(h: Host, key: Key)
    requires Lawful(h) && IsRule(key)
    ensures LineOf(h, key, "") == Ok(Line(key, "/", None, false))
  {
    EmptyPathExample(h);
  }

  /** A one-segment rule is stored as written; a trailing `$` only sets `strictEOL`. */
  lemma OneSegmentRule(h: Host, key: Key, a: string)
    requires Lawful(h) && IsRule(key) && PlainSegment(a) && '%' !in a && (a == [] || a[|a| - 1] != '$')
    ensures LineOf(h, key, ['/'] + a + ['$']) == Ok(Line(key, ['/'] + a, None, true))
    ensures LineOf(h, key, ['/'] + a) == Ok(Line(key, ['/'] + a, None, false))
  {
    PlainOneSegment(a);
    var p := ['/'] + a;
    assert '%' !in p;
    PlainPathIsNormal(h, p);
    var v := p + ['$'];
    assert v[..|v| - 1] == p;
    assert StripStrictEOL(v) == (p, true);
    assert StripStrictEOL(p) == (p, false);
  }

  /** A non-empty word of lower-case ASCII letters. */
  predicate LowerWord(a: string) {
    a != [] && forall i :: 0 <= i < |a| ==> 'a' <= a[i] <= 'z'
  }

  /** A word of lower-case letters is a plain segment. */
  lemma {:induction false} LowerWordIsPlain(a: string)
    requires LowerWord(a)
    ensures PlainSegment(a) && '%' !in a
  {
    assert AsciiLower(a) == a;
    assert '.' !in a && '%' !in a;
    assert a != "." && a != ".." && a != "%2e" && a != ".%2e" && a != "%2e." && a != "%2e%2e" by {
      assert "."[0] == '.' && ".."[0] == '.' && "%2e"[0] == '%' && ".%2e"[0] == '.' && "%2e."[0] == '%' && "%2e%2e"[0] == '%';
    }
  }

  /** `/exactly$` is stored as `/exactly` with `strictEOL` set; `/kinda` leaves the flag unset. */
  lemma StrictEOLExample(h: Host)
    requires Lawful(h)
    ensures LineOf(h, Allow, "/exactly$") == Ok(Line(Allow, "/exactly", None, true))
    ensures LineOf(h, Allow, "/kinda") == Ok(Line(Allow, "/kinda", None, false))
  {
    ExactlyKindaText();
    WordRule(h, "exactly");
    WordRule(h, "kinda");
  }

  /** A one-word rule, with and without a trailing `$`. */
  lemma WordRule(h: Host, a: string)
    requires Lawful(h) && LowerWord(a)
    ensures LineOf(h, Allow, ['/'] + a + ['$']) == Ok(Line(Allow, ['/'] + a, None, true))
    ensures LineOf(h, Allow, ['/'] + a) == Ok(Line(Allow, ['/'] + a, None, false))
  {
    LowerWordIsPlain(a);
    OneSegmentRule(h, Allow, a);
  }

  lemma ExactlyKindaText()
    ensures LowerWord("exactly") && LowerWord("kinda")
    ensures "/exactly$" == ['/'] + "exactly" + ['$'] && "/exactly" == ['/'] + "exactly"
    ensures "/kinda" == ['/'] + "kinda"
  {
  }

  // ---------------------------------------------------------------------
  // Whole files and user agents
  // ---------------------------------------------------------------------

  lemma EmptyTextHasOneBlankLine()
    ensures RawLines("") == [""]
    ensures Fields("") == ("", "")
  {
    assert StripComments("") == "" && CrToLf("") == "";
    assert SplitTwo("", ':') == [""];
    assert Trim("") == "";
  }

  /** An empty file has no lines and allows every path. */
  lemma EmptyFileAllows(h: Host, path: string, agent: string)
    ensures RobotsOf(h, "") == Ok(RobotsTxt("", []))
    ensures Evaluate(h, RobotsTxt("", []), path, agent) == Ok(true)
  {
    EmptyTextHasOneBlankLine();
    assert Directive(h, "") == None;
    assert Added(h, "") == Ok([]);
    var add := AddedBy(h);
    var none: seq<string> := [];
    var nothing: seq<Line> := [];
    assert Collect(add, none) == Ok(nothing);
    assert add("") == Ok(nothing);
    CollectSnoc(add, none, "");
    assert none + [""] == [""] && nothing + nothing == nothing;
    assert ParsedLines(h, [""]) == Collect(add, [""]) == Ok(nothing);
  }

  lemma TestNames()
    ensures IsAscii("Test_1") && IsAscii("Test_2") && IsAscii("test_1")
    ensures AsciiLower("Test_1") == "test_1" && AsciiLower("test_1") == "test_1"
    ensures AsciiLower("Test_2") != AsciiLower("Test_1")
  {
    TestNamesAscii();
    TestOneFolds();
    TestTwoDiffers();
  }

  lemma TestNamesAscii()
    ensures IsAscii("Test_1") && IsAscii("Test_2") && IsAscii("test_1")
  {
  }

  lemma TestOneFolds()
    ensures AsciiLower("Test_1") == "test_1" && AsciiLower("test_1") == "test_1"
  {
  }

  lemma TestTwoDiffers()
    ensures AsciiLower("Test_2") != AsciiLower("Test_1")
  {
    assert AsciiLower("Test_1")[5] != AsciiLower("Test_2")[5];
  }

  /** A value shorter than `netscrape` cannot mention it. */
  lemma ShortValueLacksNetscrape(value: string)
    requires |value| < |"netscrape"|
    ensures !ContainsIgnoringCase(value, "netscrape")
  {
  }

  /** The cases of the user-agent test: another name, `*` and the agent's own name in another case. */
  lemma OwnUserAgentExamples(h: Host)
    requires Lawful(h)
    ensures !IsOwnUserAgent(h, Line(CrawlDelay, "5", Some(5000), false), "Test_1")
    ensures !IsOwnUserAgent(h, Line(UserAgent, "Test_2", None, false), "Test_1")
    ensures IsOwnUserAgent(h, Line(UserAgent, "*", None, false), "Test_1")
    ensures IsOwnUserAgent(h, Line(UserAgent, "Test_1", None, false), "test_1")
  {
    TestNames();
    ShortValueLacksNetscrape("Test_2");
    assert "Test_2" != "*" by {
      assert "Test_2"[0] != "*"[0];
    }
    OtherNameNotOwn(h, "Test_2", "Test_1");
    SameFoldIsOwn(h, "Test_1", "test_1");
  }

  /** An ASCII name that folds to the agent's own name designates it. */
  lemma SameFoldIsOwn(h: Host, value: string, self: string)
    requires Lawful(h) && IsAscii(value) && IsAscii(self) && AsciiLower(value) == AsciiLower(self)
    ensures IsOwnUserAgent(h, Line(UserAgent, value, None, false), self)
  {
  }

  /** An ASCII name that folds to something else, is not `*` and does not mention netscrape designates another agent. */
  lemma OtherNameNotOwn(h: Host, value: string, self: string)
    requires Lawful(h) && IsAscii(value) && IsAscii(self) && AsciiLower(value) != AsciiLower(self)
    requires value != "*" && !ContainsIgnoringCase(value, "netscrape")
    ensures !IsOwnUserAgent(h, Line(UserAgent, value, None, false), self)
  {
  }

  /** Any user-agent value that mentions netscrape, in any case, applies to every agent. */
  lemma NetscrapeGroupAppliesToAll(h: Host, value: string, agent: string, i: int)
    requires OccursAt(value, "netscrape", i)
    ensures IsOwnUserAgent(h, Line(UserAgent, value, None, false), agent)
  {
  }
}

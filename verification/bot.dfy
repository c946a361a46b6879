/**
 * The politeness logic of the `Bot` class in `packages/bot/src/index.ts`:
 * validation of the options, the user-agent string, the per-origin delay,
 * the robots.txt cache refresh and the decision `makeRequest` takes before
 * it fetches anything.
 *
 * Time is a number of milliseconds passed in by the caller; the outcome of
 * fetching `<origin>/robots.txt` is passed in as the body it returned, or
 * `None` when the fetch threw. Instead of sleeping, `MakeRequest` returns the
 * time it would wait.
 */
module Politeness {
  import opened Wrappers
  import opened JsStrings
  import opened Host
  import opened Exclusion

  // ---------------------------------------------------------------------
  // Options and their validation
  // ---------------------------------------------------------------------

  /** The options a bot is built from; `None` is an option left undefined. */
  datatype BotOptions = BotOptions(
    name: string,
    version: string,
    minimumRequestDelay: Option<int>,
    policyURL: Option<string>,
    hideLibraryAgent: bool,
    userAgent: Option<string>)

  /** The errors the constructor throws, in the order it checks for them. */
  datatype ConfigError = NameMissing | NameCharacters | VersionFormat | InvalidPolicyUrl

  function Message(e: ConfigError): string {
    match e
    case NameMissing => "Bot name must be a string"
    case NameCharacters => "Bot name must only contain a-zA-Z_-"
    case VersionFormat => "Version must be a string formatted as #, #.#, or #.#.#"
    case InvalidPolicyUrl => "Invalid policy URL"
  }

  predicate IsNameChar(c: char) {
    'a' <= c <= 'z' || 'A' <= c <= 'Z' || c == '_' || c == '-'
  }

  /** `/^[a-zA-Z_-]+$/`. */
  predicate NameMatches(name: string) {
    name != [] && forall i :: 0 <= i < |name| ==> IsNameChar(name[i])
  }

  /**
   * `\d+(\.\d+){0,groups}$` matched from the start of `s`. A run of digits
   * is never followed by another digit, so the greedy run is the only one
   * that can succeed.
   */
  function VersionFrom(s: string, groups: nat): bool
    decreases |s|
  {
    var n := DigitRun(s);
    n > 0 && (n == |s| || (groups > 0 && s[n] == '.' && VersionFrom(s[n + 1..], groups - 1)))
  }

  /** `/^\d+(\.\d+){0,2}$/`. */
  predicate VersionMatches(version: string) {
    VersionFrom(version, 2)
  }

  /** At most `groups + 1` pieces between dots, each a non-empty run of digits. */
  predicate DottedNumber(s: string, groups: nat) {
    var parts := Split(s, '.');
    |parts| <= groups + 1 && forall i :: 0 <= i < |parts| ==> parts[i] != [] && AllDigits(parts[i])
  }

  lemma DigitsHaveNoDot(d: string)
    requires AllDigits(d)
    ensures '.' !in d
  {
    assert forall i :: 0 <= i < |d| ==> IsDigit(d[i]);
  }

  /** A run of digits only. */
  lemma VersionOfDigits(s: string, groups: nat)
    requires AllDigits(s)
    ensures VersionFrom(s, groups) <==> DottedNumber(s, groups)
  {
    assert s + [] == s;
    DigitRunOfDigits(s, []);
    DigitsHaveNoDot(s);
    assert Split(s, '.') == [s];
    assert VersionFrom(s, groups) <==> s != [];
    if s == [] {
      assert Split(s, '.')[0] == [];
    } else {
      assert DottedNumber(s, groups);
    }
  }

  /** Digits, a dot, and the rest. */
  lemma DottedParts(d: string, rest: string)
    requires AllDigits(d)
    ensures Split(d + ['.'] + rest, '.') == [d] + Split(rest, '.')
  {
    DigitsHaveNoDot(d);
    SplitAppend(d, rest, '.');
  }

  /** Digits, a dot, and the rest: the rest must be a dotted number of one group fewer. */
  lemma DottedNumberCons(d: string, rest: string, groups: nat)
    requires AllDigits(d)
    ensures DottedNumber(d + ['.'] + rest, groups) <==> d != [] && groups > 0 && DottedNumber(rest, groups - 1)
  {
    var parts := Split(d + ['.'] + rest, '.');
    var tail := Split(rest, '.');
    assert parts == [d] + tail by {
      DottedParts(d, rest);
    }
    if DottedNumber(d + ['.'] + rest, groups) {
      assert parts[0] == d;
      forall i | 0 <= i < |tail|
        ensures tail[i] != [] && AllDigits(tail[i])
      {
        assert tail[i] == parts[i + 1];
      }
    }
    if d != [] && groups > 0 && DottedNumber(rest, groups - 1) {
      forall i | 0 <= i < |parts|
        ensures parts[i] != [] && AllDigits(parts[i])
      {
        if i > 0 {
          assert parts[i] == tail[i - 1];
        }
      }
    }
  }

  /** The pattern after a run of digits and a dot. */
  lemma VersionFromCons(d: string, rest: string, groups: nat)
    requires AllDigits(d)
    ensures VersionFrom(d + ['.'] + rest, groups) <==> d != [] && groups > 0 && VersionFrom(rest, groups - 1)
  {
    var s := d + ['.'] + rest;
    assert s == d + (['.'] + rest);
    DigitRunOfDigits(d, ['.'] + rest);
    assert s[|d|] == '.' && s[|d| + 1..] == rest;
  }

  /** Digits followed by a character that is neither a digit nor a dot. */
  lemma NotDottedAfterStray(s: string, n: nat, groups: nat)
    requires n < |s| && AllDigits(s[..n]) && !IsDigit(s[n]) && s[n] != '.'
    ensures !DottedNumber(s, groups)
  {
    DigitsHaveNoDot(s[..n]);
    assert '.' !in s[..n + 1] by { assert s[..n + 1] == s[..n] + [s[n]]; }
    IndexOfAppend(s[..n + 1], s[n + 1..], '.');
    assert s[..n + 1] + s[n + 1..] == s;
    var first := s[..IndexOf(s, '.')];
    assert Split(s, '.')[0] == first;
    assert first[n] == s[n];
  }

  /** The version pattern accepts exactly the dotted numbers of one to `groups + 1` pieces. */
  lemma {:induction false} VersionFromIsDotted(s: string, groups: nat)
    ensures VersionFrom(s, groups) <==> DottedNumber(s, groups)
    decreases |s|
  {
    var n := DigitRun(s);
    if n == |s| {
      assert s[..n] == s;
      VersionOfDigits(s, groups);
    } else if s[n] == '.' {
      var rest := s[n + 1..];
      assert s == s[..n] + ['.'] + rest;
      if groups > 0 {
        VersionFromIsDotted(rest, groups - 1);
      }
      VersionFromCons(s[..n], rest, groups);
      DottedNumberCons(s[..n], rest, groups);
    } else {
      NotDottedAfterStray(s, n, groups);
    }
  }

  /** The version check in words: one to three dot-separated runs of digits. */
  lemma VersionIsDottedNumber(version: string)
    ensures VersionMatches(version) <==> DottedNumber(version, 2)
  {
    VersionFromIsDotted(version, 2);
  }

  /**
   * The constructor's checks in order: a name at all, its characters, the
   * version, and a policy URL that is given, non-empty and not parseable.
   */
  function ConfigCheck(h: Host, options: BotOptions): Option<ConfigError> {
    if options.name == [] then Some(NameMissing)
    else if !NameMatches(options.name) then Some(NameCharacters)
    else if options.version == [] || !VersionMatches(options.version) then Some(VersionFormat)
    else if options.policyURL.Some? && options.policyURL.value != [] && !h.validUrl(options.policyURL.value) then Some(InvalidPolicyUrl)
    else None
  }

  /** Construction succeeds exactly when the name, the version and the policy URL are acceptable. */
  lemma ConfigAccepted(h: Host, options: BotOptions)
    ensures ConfigCheck(h, options).None? <==>
      NameMatches(options.name) && DottedNumber(options.version, 2)
      && (options.policyURL.Some? && options.policyURL.value != [] ==> h.validUrl(options.policyURL.value))
  {
    VersionIsDottedNumber(options.version);
  }

  /** A bad name is reported whatever the version and the policy URL are. */
  lemma NameCheckedFirst(h: Host, options: BotOptions)
    requires !NameMatches(options.name)
    ensures ConfigCheck(h, options) == Some(if options.name == [] then NameMissing else NameCharacters)
  {
  }

  lemma VersionExamples()
    ensures VersionMatches("1") && VersionMatches("1.2") && VersionMatches("10.2.33")
    ensures !VersionMatches("") && !VersionMatches("1.") && !VersionMatches("1.2.3.4") && !VersionMatches("v1")
  {
    VersionsAccepted();
    VersionsRejected();
    FourGroupsRejected();
  }

  lemma VersionsAccepted()
    ensures VersionMatches("1") && VersionMatches("1.2") && VersionMatches("10.2.33")
  {
    assert VersionFrom("1", 2);
    TwoGroupsAccepted();
    ThreeGroupsAccepted();
  }

  lemma TwoGroupsAccepted()
    ensures VersionMatches("1.2")
  {
    VersionFromCons("1", "2", 2);
    assert "1" + ['.'] + "2" == "1.2";
  }

  lemma ThreeGroupsAccepted()
    ensures VersionMatches("10.2.33")
  {
    assert VersionFrom("2.33", 1) by {
      assert VersionFrom("33", 0);
      VersionFromCons("2", "33", 1);
      assert "2" + ['.'] + "33" == "2.33";
    }
    VersionFromCons("10", "2.33", 2);
    assert "10" + ['.'] + "2.33" == "10.2.33";
  }

  lemma VersionsRejected()
    ensures !VersionMatches("") && !VersionMatches("1.") && !VersionMatches("v1")
  {
  }

  lemma FourGroupsRejected()
    ensures !VersionMatches("1.2.3.4")
  {
    assert DigitRun("1.2.3.4") == 1 && "1.2.3.4"[2..] == "2.3.4";
    assert DigitRun("2.3.4") == 1 && "2.3.4"[2..] == "3.4";
    assert DigitRun("3.4") == 1;
  }

  // ---------------------------------------------------------------------
  // The user-agent string
  // ---------------------------------------------------------------------

  const DefaultPolicyUrl: string := "https://bit.ly/engine-source"
  const LibraryAgent: string := " NetScrape/0.1"

  /** `options.userAgent`, else `name/version (+policy)` with the library agent unless it is hidden. */
  function UserAgentOf(options: BotOptions): string {
    match options.userAgent
    case Some(ua) => ua
    case None =>
      options.name + "/" + options.version + " (+" + options.policyURL.GetOr(DefaultPolicyUrl) + ")"
      + if options.hideLibraryAgent then "" else LibraryAgent
  }

  /** A given user agent is used as it is; otherwise the product token before the first `/` is the bot's name. */
  lemma UserAgentNamesBot(options: BotOptions)
    requires NameMatches(options.name)
    ensures options.userAgent.Some? ==> UserAgentOf(options) == options.userAgent.value
    ensures options.userAgent.None? ==>
      var ua := UserAgentOf(options);
      IndexOf(ua, '/') == |options.name| && ua[..|options.name|] == options.name
  {
    if options.userAgent.None? {
      var ua := UserAgentOf(options);
      var rest := ua[|options.name|..];
      assert ua == options.name + rest;
      assert '/' !in options.name by {
        assert forall i :: 0 <= i < |options.name| ==> IsNameChar(options.name[i]);
      }
      IndexOfAppend(options.name, rest, '/');
    }
  }

  /** Without a given user agent, the string ends in `)` exactly when the library agent is hidden, and in ` NetScrape/0.1` otherwise. */
  lemma LibraryAgentShown(options: BotOptions)
    requires options.userAgent.None?
    ensures var ua := UserAgentOf(options);
      (options.hideLibraryAgent <==> ua[|ua| - 1] == ')')
      && (!options.hideLibraryAgent ==> ua[|ua| - |LibraryAgent|..] == LibraryAgent)
  {
    var head := options.name + "/" + options.version + " (+" + options.policyURL.GetOr(DefaultPolicyUrl) + ")";
    assert head[|head| - 1] == ')';
    assert LibraryAgent[|LibraryAgent| - 1] == '1';
    if !options.hideLibraryAgent {
      var ua := head + LibraryAgent;
      assert ua[|ua| - |LibraryAgent|..] == LibraryAgent;
    }
  }

  // ---------------------------------------------------------------------
  // Delay and waiting
  // ---------------------------------------------------------------------

  /** `minimumRequestDelay ?? 1000`. */
  function MinimumDelay(options: BotOptions): int {
    options.minimumRequestDelay.GetOr(1000)
  }

  /**
   * `getDelay`: the stored delay of the origin when it exceeds the minimum
   * (a missing one counting as 0), else the minimum. With a negative minimum
   * and nothing stored it reads the missing entry: `None` stands for that
   * `undefined`.
   */
  function GetDelay(minimum: int, requestDelay: map<string, int>, origin: string): (d: Option<int>)
    ensures d.Some? ==> d.value >= minimum
    ensures origin in requestDelay ==> d == Some(if requestDelay[origin] > minimum then requestDelay[origin] else minimum)
  {
    var stored := if origin in requestDelay then requestDelay[origin] else 0;
    if stored > minimum then (if origin in requestDelay then Some(requestDelay[origin]) else None)
    else Some(minimum)
  }

  /** Nothing is ever stored, so the delay is the minimum, or undefined when the minimum is negative. */
  lemma DelayIsMinimum(minimum: int, origin: string)
    ensures GetDelay(minimum, map[], origin) == if minimum >= 0 then Some(minimum) else None
  {
  }

  /** Waits longer than this are refused. */
  const MaxWait: int := 10000

  datatype Pause = Go(wait: int) | TooLong(wait: int)

  /**
   * The wait before a request: `delay - (now - last)` when the origin has a
   * last request time and that is positive. An undefined delay makes the
   * difference `NaN`, which is not positive.
   */
  function PauseFor(delay: Option<int>, last: Option<int>, now: int): (p: Pause)
    ensures p.Go? ==> 0 <= p.wait <= MaxWait
    ensures p.TooLong? ==> p.wait > MaxWait
  {
    if delay.Some? && last.Some? && delay.value - (now - last.value) > 0 then
      var wait := delay.value - (now - last.value);
      if wait <= MaxWait then Go(wait) else TooLong(wait)
    else Go(0)
  }

  /** An origin never requested before is fetched at once, whatever the delay. */
  lemma FirstRequestDoesNotWait(delay: Option<int>, now: int)
    ensures PauseFor(delay, None, now) == Go(0)
  {
  }

  /** A request waits just long enough to start `delay` after the last one; it is refused only when that takes more than `MaxWait`. */
  lemma WaitKeepsDelay(delay: int, last: int, now: int)
    ensures PauseFor(Some(delay), Some(last), now).TooLong? <==> delay - (now - last) > MaxWait
    ensures PauseFor(Some(delay), Some(last), now).Go? ==>
      var w := PauseFor(Some(delay), Some(last), now).wait;
      now + w - last >= delay && (w > 0 ==> now + w - last == delay)
  {
  }

  // ---------------------------------------------------------------------
  // The request decision
  // ---------------------------------------------------------------------

  /** Why `makeRequest` throws before fetching. */
  datatype Rejection =
    | NoRobotsTxt             // no robots.txt was ever stored for the origin
    | PathError(e: NormError) // normalising a path in `isPathAllowed` threw
    | Blocked                 // 'Request blocked by robots.txt'
    | WaitTooLong             // 'Wait time too long'

  datatype Decision = Proceed(wait: int) | Reject(why: Rejection)

  /** What `makeRequest` decides, given the stored robots.txt, the delay, the last request time and the clock. */
  function Decide(h: Host, robots: Option<RobotsTxt>, path: string, agent: string,
                  delay: Option<int>, last: Option<int>, now: int): Decision
  {
    match robots
    case None => Reject(NoRobotsTxt)
    case Some(r) =>
      match Evaluate(h, r, path, agent)
      case Err(e) => Reject(PathError(e))
      case Ok(allowed) =>
        if !allowed then Reject(Blocked)
        else
          match PauseFor(delay, last, now)
          case TooLong(_) => Reject(WaitTooLong)
          case Go(w) => Proceed(w)
  }

  /** A request proceeds only when robots.txt allows the path, and then after the wait the delay asks for. */
  lemma ProceedsOnlyIfAllowed(h: Host, robots: Option<RobotsTxt>, path: string, agent: string,
                              delay: Option<int>, last: Option<int>, now: int)
    ensures Decide(h, robots, path, agent, delay, last, now).Proceed? <==>
      robots.Some? && Evaluate(h, robots.value, path, agent) == Ok(true) && PauseFor(delay, last, now).Go?
    ensures Decide(h, robots, path, agent, delay, last, now).Proceed? ==>
      Decide(h, robots, path, agent, delay, last, now).wait == PauseFor(delay, last, now).wait
  {
  }

  /** A disallowed path is refused before any wait is considered. */
  lemma BlockedBeforeWait(h: Host, robots: RobotsTxt, path: string, agent: string,
                          delay: Option<int>, last: Option<int>, now: int)
    requires Evaluate(h, robots, path, agent) == Ok(false)
    ensures Decide(h, Some(robots), path, agent, delay, last, now) == Reject(Blocked)
  {
  }

  /** Two dispatches to one origin are at least the delay apart. */
  lemma DispatchesSpaced(h: Host, robots: Option<RobotsTxt>, path: string, agent: string,
                         delay: int, last: int, now: int)
    requires Decide(h, robots, path, agent, Some(delay), Some(last), now).Proceed?
    ensures (now + Decide(h, robots, path, agent, Some(delay), Some(last), now).wait) - last >= delay
  {
    WaitKeepsDelay(delay, last, now);
  }

  // ---------------------------------------------------------------------
  // The robots.txt cache
  // ---------------------------------------------------------------------

  /** How long a fetched robots.txt is recorded to stay fresh: one day in milliseconds. */
  const RobotsTxtLifetime: int := 24 * 60 * 60 * 1000

  /** The cache after a fetch: replaced for `origin` when the body was fetched and parses, untouched otherwise. */
  function Refreshed(h: Host, cache: map<string, RobotsTxt>, origin: string, fetched: Option<string>): (c: map<string, RobotsTxt>)
    ensures forall o :: o != origin ==> (o in c <==> o in cache)
    ensures forall o :: o != origin && o in c ==> c[o] == cache[o]
    ensures fetched.Some? && RobotsOf(h, fetched.value).Ok? ==> origin in c && c[origin] == RobotsOf(h, fetched.value).value
    ensures !(fetched.Some? && RobotsOf(h, fetched.value).Ok?) ==> c == cache
  {
    match fetched
    case None => cache
    case Some(text) =>
      match RobotsOf(h, text)
      case Ok(robots) => cache[origin := robots]
      case Err(_) => cache
  }

  /** The expiry times after a fetch: set one day ahead whenever the body was fetched, even if it does not parse. */
  function Expiry(expires: map<string, int>, origin: string, fetched: Option<string>, now: int): (e: map<string, int>)
    ensures fetched.Some? ==> origin in e && e[origin] == now + RobotsTxtLifetime
    ensures forall o :: o != origin ==> (o in e <==> o in expires)
    ensures forall o :: o != origin && o in e ==> e[o] == expires[o]
    ensures fetched.None? ==> e == expires
  {
    if fetched.Some? then expires[origin := now + RobotsTxtLifetime] else expires
  }

  /** Whenever a robots.txt is stored, so is an expiry time. */
  lemma RefreshKeepsExpiryCover(h: Host, cache: map<string, RobotsTxt>, expires: map<string, int>,
                                origin: string, fetched: Option<string>, now: int)
    requires cache.Keys <= expires.Keys
    ensures Refreshed(h, cache, origin, fetched).Keys <= Expiry(expires, origin, fetched, now).Keys
  {
  }

  // ---------------------------------------------------------------------
  // The bot
  // ---------------------------------------------------------------------

  class Bot {
    const options: BotOptions
    const botName: string
    const userAgent: string
    var robotsTxt: map<string, RobotsTxt>
    var robotsTxtExpires: map<string, int>
    var requestDelay: map<string, int>
    var requestTime: map<string, int>

    /** The name and user agent come from the options, no delay is ever stored and every stored robots.txt has an expiry. */
    ghost predicate Valid()
      reads this
    {
      botName == options.name && userAgent == UserAgentOf(options)
      && requestDelay == map[]
      && robotsTxt.Keys <= robotsTxtExpires.Keys
    }

    /** The constructor once the options have passed validation. */
    constructor (h: Host, options: BotOptions)
      requires ConfigCheck(h, options).None?
      ensures Valid() && this.options == options
      ensures robotsTxt == map[] && robotsTxtExpires == map[] && requestTime == map[]
    {
      this.options := options;
      botName := options.name;
      userAgent := UserAgentOf(options);
      robotsTxt := map[];
      robotsTxtExpires := map[];
      requestDelay := map[];
      requestTime := map[];
    }

    /** `new Bot(options)`: the first failed check is thrown, otherwise a fresh bot. */
    static method Create(h: Host, options: BotOptions) returns (r: Result<Bot, ConfigError>)
      ensures r.Err? <==> ConfigCheck(h, options).Some?
      ensures r.Err? ==> r.error == ConfigCheck(h, options).value
      ensures r.Ok? ==> fresh(r.value) && r.value.Valid() && r.value.options == options
      ensures r.Ok? ==> r.value.robotsTxt == map[] && r.value.robotsTxtExpires == map[]
      ensures r.Ok? ==> r.value.requestDelay == map[] && r.value.requestTime == map[]
    {
      var check := ConfigCheck(h, options);
      if check.Some? {
        return Err(check.value);
      }
      var bot := new Bot(h, options);
      return Ok(bot);
    }

    /** `fetchRobotsTxt`: `fetched` is the body, or `None` when the fetch threw (the error is only logged). */
    method FetchRobotsTxt(h: Host, origin: string, fetched: Option<string>, now: int)
      requires Valid()
      modifies this
      ensures Valid()
      ensures robotsTxtExpires == Expiry(old(robotsTxtExpires), origin, fetched, now)
      ensures robotsTxt == Refreshed(h, old(robotsTxt), origin, fetched)
      ensures requestTime == old(requestTime) && requestDelay == old(requestDelay)
    {
      if fetched.Some? {
        robotsTxtExpires := robotsTxtExpires[origin := now + RobotsTxtLifetime];
        var parsed := Parse(h, fetched.value);
        if parsed.Ok? {
          robotsTxt := robotsTxt[origin := parsed.value];
        }
      }
    }

    /** The optional lookup `requestTime[origin]`. */
    function LastRequest(origin: string): Option<int>
      reads this
    {
      if origin in requestTime then Some(requestTime[origin]) else None
    }

    /** The optional lookup `robotsTxt[origin]`. */
    function StoredRobots(origin: string): Option<RobotsTxt>
      reads this
    {
      if origin in robotsTxt then Some(robotsTxt[origin]) else None
    }

    /** What `makeRequest` does once robots.txt has been refreshed: decide, and stamp the time of a request that leaves. */
    method Dispatch(h: Host, origin: string, path: string, now: int) returns (d: Decision)
      requires Valid()
      modifies this
      ensures Valid()
      ensures robotsTxt == old(robotsTxt) && robotsTxtExpires == old(robotsTxtExpires)
      ensures d == Decide(h, StoredRobots(origin), path, options.name,
                          GetDelay(MinimumDelay(options), map[], origin), old(LastRequest(origin)), now)
      ensures requestTime == if d.Proceed? then old(requestTime)[origin := now + d.wait] else old(requestTime)
    {
      if origin !in robotsTxt {
        return Reject(NoRobotsTxt);
      }
      var allowed := IsPathAllowed(h, robotsTxt[origin], path, botName);
      if allowed.Err? {
        return Reject(PathError(allowed.error));
      }
      if !allowed.value {
        return Reject(Blocked);
      }
      var delay := GetDelay(MinimumDelay(options), requestDelay, origin);
      var pause := PauseFor(delay, LastRequest(origin), now);
      if pause.TooLong? {
        return Reject(WaitTooLong);
      }
      requestTime := requestTime[origin := now + pause.wait];
      d := Proceed(pause.wait);
    }

    /**
     * `makeRequest` up to the fetch of the target: refresh the origin's
     * robots.txt (fetched at `fetchedAt`), ask it about `path` for the bot's
     * name, then wait or refuse against the delay, and stamp the time the
     * request leaves.
     */
    method MakeRequest(h: Host, origin: string, path: string, fetched: Option<string>, fetchedAt: int, now: int)
      returns (d: Decision)
      requires Valid()
      modifies this
      ensures Valid()
      ensures robotsTxtExpires == Expiry(old(robotsTxtExpires), origin, fetched, fetchedAt)
      ensures robotsTxt == Refreshed(h, old(robotsTxt), origin, fetched)
      ensures d == Decide(h, StoredRobots(origin), path, options.name,
                          GetDelay(MinimumDelay(options), map[], origin), old(LastRequest(origin)), now)
      ensures requestTime == if d.Proceed? then old(requestTime)[origin := now + d.wait] else old(requestTime)
    {
      FetchRobotsTxt(h, origin, fetched, fetchedAt);
      d := Dispatch(h, origin, path, now);
    }
  }
}

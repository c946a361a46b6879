/**
 * The few JavaScript string operations the core relies on, stated over
 * `seq<char>`: `trim`, `split` with a one-character separator, ASCII case
 * mapping and a case-insensitive substring test.
 */
module JsStrings {
  import opened Wrappers

  /** WhiteSpace and LineTerminator code points of ECMA-262 (what `trim` and `parseInt` skip). */
  predicate IsJsWhitespace(c: char) {
    c == '\t' || c == '\n' || c == '\U{000B}' || c == '\U{000C}' || c == '\r' || c == ' '
    || c == '\U{00A0}' || c == '\U{1680}' || ('\U{2000}' <= c <= '\U{200A}')
    || c == '\U{2028}' || c == '\U{2029}' || c == '\U{202F}' || c == '\U{205F}'
    || c == '\U{3000}' || c == '\U{FEFF}'
  }

  function TrimStart(s: string): (r: string)
    ensures |r| <= |s| && r == s[|s| - |r|..]
    ensures r == [] || !IsJsWhitespace(r[0])
    ensures forall i :: 0 <= i < |s| - |r| ==> IsJsWhitespace(s[i])
  {
    if s != [] && IsJsWhitespace(s[0]) then TrimStart(s[1..]) else s
  }

  function TrimEnd(s: string): (r: string)
    ensures |r| <= |s| && r == s[..|r|]
    ensures r == [] || !IsJsWhitespace(r[|r| - 1])
    ensures forall i :: |r| <= i < |s| ==> IsJsWhitespace(s[i])
  {
    if s != [] && IsJsWhitespace(s[|s| - 1]) then TrimEnd(s[..|s| - 1]) else s
  }

  /** `String.prototype.trim`. */
  function Trim(s: string): string {
    TrimEnd(TrimStart(s))
  }

  lemma TrimIsInfix(s: string)
    ensures exists i, j :: 0 <= i <= j <= |s| && Trim(s) == s[i..j]
  {
    var t := TrimStart(s);
    var u := TrimEnd(t);
    assert u == s[|s| - |t|..][..|u|] == s[|s| - |t|..|s| - |t| + |u|];
  }

  /** Index of the first `c` in `s`, or `|s|` when there is none. */
  function IndexOf(s: string, c: char): (i: nat)
    ensures i <= |s|
    ensures i < |s| ==> s[i] == c
    ensures c !in s[..i]
    ensures i == |s| <==> c !in s
  {
    if s == [] then 0 else if s[0] == c then 0 else 1 + IndexOf(s[1..], c)
  }

  /** `s.split(sep)` for a one-character separator. */
  function Split(s: string, sep: char): (parts: seq<string>)
    ensures |parts| >= 1
    ensures forall i :: 0 <= i < |parts| ==> sep !in parts[i]
    ensures sep !in s ==> parts == [s]
    decreases |s|
  {
    var i := IndexOf(s, sep);
    if i == |s| then [s] else [s[..i]] + Split(s[i + 1..], sep)
  }

  lemma {:induction false} IndexOfAppend(a: string, b: string, c: char)
    requires c !in a
    ensures IndexOf(a + b, c) == |a| + IndexOf(b, c)
  {
    if a == [] {
      assert a + b == b;
    } else {
      assert (a + b)[1..] == a[1..] + b;
      assert c !in a[1..] by { assert forall x :: x in a[1..] ==> x in a; }
      IndexOfAppend(a[1..], b, c);
    }
  }

  /** Splitting at a first separator. */
  lemma SplitAppend(a: string, b: string, sep: char)
    requires sep !in a
    ensures Split(a + [sep] + b, sep) == [a] + Split(b, sep)
  {
    var s := a + [sep] + b;
    assert s == a + ([sep] + b);
    IndexOfAppend(a, [sep] + b, sep);
    assert s[..|a|] == a && s[|a| + 1..] == b;
  }

  lemma OneSegment(a: string, sep: char)
    requires sep !in a
    ensures Split([sep] + a, sep) == ["", a]
  {
    assert [sep] + a == [] + [sep] + a;
    SplitAppend([], a, sep);
  }

  lemma TwoSegments(a: string, b: string, sep: char)
    requires sep !in a && sep !in b
    ensures Split([sep] + a + [sep] + b, sep) == ["", a, b]
  {
    SplitAppend(a, b, sep);
    assert [sep] + a + [sep] + b == [] + [sep] + (a + [sep] + b);
    SplitAppend([], a + [sep] + b, sep);
  }

  /** A character absent from `s` is absent from every piece of it. */
  lemma {:induction false} SplitExcludes(s: string, sep: char, c: char)
    requires c !in s
    ensures forall i :: 0 <= i < |Split(s, sep)| ==> c !in Split(s, sep)[i]
    decreases |s|
  {
    var i := IndexOf(s, sep);
    if i < |s| {
      assert c !in s[i + 1..] by { assert forall x :: x in s[i + 1..] ==> x in s; }
      assert c !in s[..i] by { assert forall x :: x in s[..i] ==> x in s; }
      SplitExcludes(s[i + 1..], sep, c);
    }
  }

  /** Trimming never brings in a character. */
  lemma TrimExcludes(s: string, c: char)
    requires c !in s
    ensures c !in Trim(s)
  {
    TrimIsInfix(s);
    var i, j :| 0 <= i <= j <= |s| && Trim(s) == s[i..j];
    assert forall x :: x in s[i..j] ==> x in s;
  }

  /** `parts.join(sep)`, the inverse of `Split`. */
  function Join(parts: seq<string>, sep: char): string
    requires |parts| >= 1
  {
    if |parts| == 1 then parts[0] else parts[0] + [sep] + Join(parts[1..], sep)
  }

  lemma {:induction false} JoinSplit(s: string, sep: char)
    ensures Join(Split(s, sep), sep) == s
    decreases |s|
  {
    var i := IndexOf(s, sep);
    if i < |s| {
      var rest := Split(s[i + 1..], sep);
      JoinSplit(s[i + 1..], sep);
      assert Split(s, sep) == [s[..i]] + rest;
      assert ([s[..i]] + rest)[1..] == rest;
      calc {
        Join(Split(s, sep), sep);
        s[..i] + [sep] + Join(rest, sep);
        s[..i] + [sep] + s[i + 1..];
        s;
      }
    }
  }

  /** `raw.split(sep, 2)`: the text before the first separator, and the text between the first and the second one. */
  function SplitTwo(s: string, sep: char): (parts: seq<string>)
    ensures 1 <= |parts| <= 2
    ensures sep in s <==> |parts| == 2
    ensures parts[0] == s[..IndexOf(s, sep)]
    ensures |parts| == 2 ==> parts[1] == Split(s, sep)[1]
  {
    var all := Split(s, sep);
    if |all| <= 2 then all else all[..2]
  }

  predicate StartsWithSlash(s: string) {
    |s| > 0 && s[0] == '/'
  }

  /** `s.substring(1)` (the empty string stays empty). */
  function DropFirst(s: string): (r: string)
    ensures s != [] ==> s == [s[0]] + r
    ensures s == [] ==> r == []
  {
    if s == [] then s else s[1..]
  }

  predicate IsAsciiChar(c: char) {
    c < '\U{0080}'
  }

  predicate IsAscii(s: string) {
    forall i :: 0 <= i < |s| ==> IsAsciiChar(s[i])
  }

  function AsciiLowerChar(c: char): (d: char)
    ensures 'A' <= c <= 'Z' ==> d as int == c as int + 32
    ensures !('A' <= c <= 'Z') ==> d == c
  {
    if 'A' <= c <= 'Z' then (c as int + 32) as char else c
  }

  /** `toLowerCase` restricted to ASCII, where it only maps `A`-`Z`. */
  function AsciiLower(s: string): (r: string)
    ensures |r| == |s|
    ensures forall i :: 0 <= i < |s| ==> r[i] == AsciiLowerChar(s[i])
  {
    if s == [] then [] else [AsciiLowerChar(s[0])] + AsciiLower(s[1..])
  }

  /** Whether `needle` occurs at index `i` of `s` when ASCII letters are compared case-insensitively. */
  predicate OccursAt(s: string, needle: string, i: int) {
    0 <= i && i + |needle| <= |s| && AsciiLower(s[i..i + |needle|]) == AsciiLower(needle)
  }

  function ContainsFrom(s: string, needle: string, k: nat): (b: bool)
    ensures b <==> exists i :: k <= i && OccursAt(s, needle, i)
    decreases |s| - k
  {
    if k + |needle| > |s| then false
    else OccursAt(s, needle, k) || ContainsFrom(s, needle, k + 1)
  }

  /** Whether `s` contains `needle` when ASCII letters are compared case-insensitively (a regular expression with the `i` flag). */
  function ContainsIgnoringCase(s: string, needle: string): (b: bool)
    ensures b <==> exists i :: OccursAt(s, needle, i)
  {
    ContainsFrom(s, needle, 0)
  }

  // ---------------------------------------------------------------------
  // parseInt with radix 10
  // ---------------------------------------------------------------------

  predicate IsDigit(c: char) {
    '0' <= c <= '9'
  }

  predicate AllDigits(s: string) {
    forall i :: 0 <= i < |s| ==> IsDigit(s[i])
  }

  /** Length of the run of ASCII digits that `s` starts with. */
  function DigitRun(s: string): (n: nat)
    ensures n <= |s| && AllDigits(s[..n])
    ensures n < |s| ==> !IsDigit(s[n])
  {
    if s != [] && IsDigit(s[0]) then
      var n := 1 + DigitRun(s[1..]);
      assert s[..n] == [s[0]] + s[1..][..n - 1];
      n
    else 0
  }

  function DigitValue(c: char): nat
    requires IsDigit(c)
  {
    c as int - '0' as int
  }

  /** The number a string of decimal digits denotes, most significant digit first. */
  function DigitsValue(d: string): nat
    requires AllDigits(d)
  {
    if d == [] then 0 else DigitsValue(d[..|d| - 1]) * 10 + DigitValue(d[|d| - 1])
  }

  /**
   * `parseInt(s, 10)` (ECMA-262, section 19.2.5) on the integers it can
   * return: leading white space is skipped, one sign is accepted, and the
   * longest run of digits that follows is read; with no digit the result is
   * `NaN`, here `None`.
   */
  function ParseInt(s: string): Option<int> {
    ParseSigned(TrimStart(s))
  }

  /** `parseInt` once the leading white space is gone: an optional sign, then the digits. */
  function ParseSigned(t: string): Option<int> {
    if t != [] && t[0] == '-' then
      match ParseDigits(t[1..])
      case None => None
      case Some(v) => Some(-(v as int))
    else if t != [] && t[0] == '+' then ParseDigits(t[1..])
    else ParseDigits(t)
  }

  /** The value of the run of digits `body` starts with; `None` (NaN) when there is none. */
  function ParseDigits(body: string): Option<nat> {
    var n := DigitRun(body);
    if n == 0 then None else Some(DigitsValue(body[..n]))
  }

  /** The decimal digits of `n`, without leading zeros. */
  function Decimal(n: nat): (d: string)
    ensures d != [] && AllDigits(d)
  {
    if n < 10 then [('0' as int + n) as char] else Decimal(n / 10) + [('0' as int + n % 10) as char]
  }

  /** The decimal spelling of an integer, with a `-` in front of a negative one. */
  function IntToString(n: int): string {
    if n < 0 then "-" + Decimal(-n) else Decimal(n)
  }

  lemma {:induction false} DecimalValue(n: nat)
    ensures DigitsValue(Decimal(n)) == n
  {
    if n >= 10 {
      var d := Decimal(n);
      assert d[..|d| - 1] == Decimal(n / 10);
      DecimalValue(n / 10);
    }
  }

  lemma DigitRunOfDigits(d: string, rest: string)
    requires AllDigits(d) && (rest == [] || !IsDigit(rest[0]))
    ensures DigitRun(d + rest) == |d|
    decreases |d|
  {
    if d != [] {
      assert (d + rest)[1..] == d[1..] + rest;
      DigitRunOfDigits(d[1..], rest);
    } else {
      assert d + rest == rest;
    }
  }

  /** Text that starts with no white space is not trimmed. */
  lemma ParseIntUntrimmed(t: string)
    requires t == [] || !IsJsWhitespace(t[0])
    ensures ParseInt(t) == ParseSigned(t)
  {
    assert TrimStart(t) == t;
  }

  /** Unsigned digits: `parseInt` reads them up to the first non-digit. */
  lemma ParseIntOfDigits(d: string, rest: string)
    requires d != [] && AllDigits(d) && (rest == [] || !IsDigit(rest[0]))
    ensures ParseInt(d + rest) == Some(DigitsValue(d) as int)
  {
    var t := d + rest;
    assert t[0] == d[0] && IsDigit(t[0]);
    ParseIntUntrimmed(t);
    ParseDigitsOf(d, rest);
  }

  /** A `-` and digits: the negated value of the digits. */
  lemma ParseIntOfNegative(d: string, rest: string)
    requires d != [] && AllDigits(d) && (rest == [] || !IsDigit(rest[0]))
    ensures ParseInt(['-'] + (d + rest)) == Some(-(DigitsValue(d) as int))
  {
    var body := d + rest;
    var t := ['-'] + body;
    assert t[0] == '-' && t[1..] == body;
    ParseIntUntrimmed(t);
    ParseDigitsOf(d, rest);
  }

  lemma ParseDigitsOf(d: string, rest: string)
    requires d != [] && AllDigits(d) && (rest == [] || !IsDigit(rest[0]))
    ensures ParseDigits(d + rest) == Some(DigitsValue(d))
  {
    DigitRunOfDigits(d, rest);
    assert (d + rest)[..|d|] == d;
  }

  /** `parseInt` reads back the decimal spelling of every integer, whatever non-digit text follows it. */
  lemma ParseIntOfDecimal(n: int, rest: string)
    requires rest == [] || !IsDigit(rest[0])
    ensures ParseInt(IntToString(n) + rest) == Some(n)
  {
    if n < 0 {
      NegativeSpelling(-n, rest);
    } else {
      DecimalValue(n);
      ParseIntOfDigits(Decimal(n), rest);
    }
  }

  lemma NegativeSpelling(m: nat, rest: string)
    requires m > 0 && (rest == [] || !IsDigit(rest[0]))
    ensures ParseInt(IntToString(-(m as int)) + rest) == Some(-(m as int))
  {
    var d := Decimal(m);
    assert IntToString(-(m as int)) + rest == ['-'] + (d + rest) by {
      assert IntToString(-(m as int)) == "-" + d;
    }
    DecimalValue(m);
    ParseIntOfNegative(d, rest);
  }

  lemma ParseIntOfFive()
    ensures ParseInt("5") == Some(5)
  {
    ParseIntOfDigits("5", []);
    assert "5" + [] == "5";
    assert DigitsValue("5") == 5;
  }

  /** The sign is read, and reading stops at the first non-digit. */
  lemma ParseIntOfSignedPrefix()
    ensures ParseInt("-12s") == Some(-12)
  {
    ParseIntOfNegative("12", "s");
    assert "12"[..1] == "1";
    assert DigitsValue("12") == 12;
    assert ['-'] + ("12" + "s") == "-12s";
  }

  /** Without a digit after the optional white space and sign, the result is `NaN`. */
  lemma ParseIntWithoutDigits(s: string)
    requires s == [] || (!IsJsWhitespace(s[0]) && !IsDigit(s[0]) && s[0] != '-' && s[0] != '+')
    ensures ParseInt(s) == None
  {
    assert TrimStart(s) == s;
  }
}

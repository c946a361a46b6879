/**
 * The text codecs that the normalisers call and that are fully specified by
 * standards, so they are modelled concretely here:
 *  - UTF-8 encoding of one code point and its decoding;
 *  - `decodeURI` (ECMA-262, the abstract operation Decode with the reserved set ";/?:@&=+$,#");
 *  - the application/x-www-form-urlencoded serializer behind `URLSearchParams.toString()`
 *    (WHATWG URL Standard, section 5.2);
 *  - the `search` setter and getter of a URL object (WHATWG URL Standard, section 6.1).
 */
module UrlCodec {
  import opened Wrappers
  import opened JsStrings

  type Byte = b: int | 0 <= b < 256

  // ---------------------------------------------------------------------
  // UTF-8
  // ---------------------------------------------------------------------

  /** The UTF-8 encoding of one code point (Dafny characters are Unicode scalar values). */
  function Utf8(c: char): (bs: seq<Byte>)
    ensures 1 <= |bs| <= 4
    ensures |bs| == 1 <==> c as int < 0x80
    ensures |bs| == 1 ==> bs[0] == c as int
    ensures forall i :: 1 <= i < |bs| ==> 0x80 <= bs[i] < 0xC0
  {
    var cp := c as int;
    if cp < 0x80 then [cp]
    else if cp < 0x800 then [0xC0 + cp / 64, 0x80 + cp % 64]
    else if cp < 0x10000 then [0xE0 + cp / 4096, 0x80 + (cp / 64) % 64, 0x80 + cp % 64]
    else [0xF0 + cp / 262144, 0x80 + (cp / 4096) % 64, 0x80 + (cp / 64) % 64, 0x80 + cp % 64]
  }

  /** The number of leading one bits of a byte (5 stands for "five or more"). */
  function LeadingOnes(b: Byte): (n: nat)
    ensures n <= 5
  {
    if b < 0x80 then 0 else if b < 0xC0 then 1 else if b < 0xE0 then 2
    else if b < 0xF0 then 3 else if b < 0xF8 then 4 else 5
  }

  predicate IsContinuation(b: Byte) {
    0x80 <= b < 0xC0
  }

  /** The code point a multi-byte sequence spells, before any well-formedness check. */
  function CodePoint(octets: seq<Byte>): int
    requires 2 <= |octets| <= 4
  {
    var b0: int, b1: int := octets[0], octets[1];
    if |octets| == 2 then (b0 - 0xC0) * 64 + (b1 - 0x80)
    else
      var b2: int := octets[2];
      if |octets| == 3 then ((b0 - 0xE0) * 64 + (b1 - 0x80)) * 64 + (b2 - 0x80)
      else
        var b3: int := octets[3];
        (((b0 - 0xF0) * 64 + (b1 - 0x80)) * 64 + (b2 - 0x80)) * 64 + (b3 - 0x80)
  }

  /**
   * Decodes a multi-byte UTF-8 sequence. `None` when the octets are not a
   * well-formed encoding of a code point: a bad continuation byte, an overlong
   * form, a surrogate or a value above U+10FFFF.
   */
  function Utf8Decode(octets: seq<Byte>): (r: Option<char>)
    requires 2 <= |octets| <= 4 && LeadingOnes(octets[0]) == |octets|
    ensures r.Some? ==> Utf8(r.value) == octets
  {
    if exists i :: 1 <= i < |octets| && !IsContinuation(octets[i]) then None
    else
      var n := |octets|;
      var cp := CodePoint(octets);
      if n == 2 && cp < 0x80 then None
      else if n == 3 && (cp < 0x800 || (0xD800 <= cp < 0xE000)) then None
      else if n == 4 && (cp < 0x10000 || cp >= 0x110000) then None
      else
        assert 0 <= cp < 0x110000 by { CodePointRange(octets); }
        var c := cp as char;
        assert Utf8(c) == octets by { Utf8Inverse(octets, c); }
        Some(c)
  }

  lemma CodePointRange(octets: seq<Byte>)
    requires 2 <= |octets| <= 4 && LeadingOnes(octets[0]) == |octets|
    requires forall i :: 1 <= i < |octets| ==> IsContinuation(octets[i])
    ensures 0 <= CodePoint(octets)
    ensures |octets| == 2 ==> CodePoint(octets) < 0x800
    ensures |octets| == 3 ==> CodePoint(octets) < 0x10000
    ensures |octets| == 4 ==> CodePoint(octets) < 0x200000
  {
  }

  lemma DivMod64(q: int, r: int)
    requires 0 <= r < 64
    ensures (q * 64 + r) / 64 == q && (q * 64 + r) % 64 == r
  {
  }

  lemma Utf8Inverse(octets: seq<Byte>, c: char)
    requires 2 <= |octets| <= 4 && LeadingOnes(octets[0]) == |octets|
    requires forall i :: 1 <= i < |octets| ==> IsContinuation(octets[i])
    requires c as int == CodePoint(octets)
    requires |octets| == 2 ==> c as int >= 0x80
    requires |octets| == 3 ==> c as int >= 0x800
    requires |octets| == 4 ==> c as int >= 0x10000
    ensures Utf8(c) == octets
  {
    if |octets| == 2 {
      Utf8InverseTwo(octets, c);
    } else if |octets| == 3 {
      Utf8InverseThree(octets, c);
    } else {
      Utf8InverseFour(octets, c);
    }
  }

  lemma Utf8InverseTwo(octets: seq<Byte>, c: char)
    requires |octets| == 2 && LeadingOnes(octets[0]) == 2 && IsContinuation(octets[1])
    requires c as int == CodePoint(octets) && c as int >= 0x80
    ensures Utf8(c) == octets
  {
    var b0: int, b1: int := octets[0], octets[1];
    DivMod64(b0 - 0xC0, b1 - 0x80);
  }

  lemma Utf8InverseThree(octets: seq<Byte>, c: char)
    requires |octets| == 3 && LeadingOnes(octets[0]) == 3 && IsContinuation(octets[1]) && IsContinuation(octets[2])
    requires c as int == CodePoint(octets) && c as int >= 0x800
    ensures Utf8(c) == octets
  {
    var cp := c as int;
    var b0: int, b1: int, b2: int := octets[0], octets[1], octets[2];
    var hi := (b0 - 0xE0) * 64 + (b1 - 0x80);
    DivMod64(hi, b2 - 0x80);
    DivMod64(b0 - 0xE0, b1 - 0x80);
    assert cp / 64 == hi;
    DivNested(cp);
  }

  lemma Utf8InverseFour(octets: seq<Byte>, c: char)
    requires |octets| == 4 && LeadingOnes(octets[0]) == 4
    requires IsContinuation(octets[1]) && IsContinuation(octets[2]) && IsContinuation(octets[3])
    requires c as int == CodePoint(octets) && c as int >= 0x10000
    ensures Utf8(c) == octets
  {
    var cp := c as int;
    var b0: int, b1: int, b2: int, b3: int := octets[0], octets[1], octets[2], octets[3];
    var mid := (b0 - 0xF0) * 64 + (b1 - 0x80);
    var hi := mid * 64 + (b2 - 0x80);
    DivMod64(hi, b3 - 0x80);
    DivMod64(mid, b2 - 0x80);
    DivMod64(b0 - 0xF0, b1 - 0x80);
    DivNested(cp);
  }

  lemma Div4096(q: int, r: int)
    requires 0 <= r < 4096
    ensures (q * 4096 + r) / 4096 == q
  {
  }

  /** Dividing by 4096 or by 262144 is dividing by 64 two or three times. */
  lemma DivNested(a: int)
    requires a >= 0
    ensures a / 4096 == (a / 64) / 64
    ensures a / 262144 == (a / 4096) / 64
  {
    var q, r := a / 64, a % 64;
    var q2, r2 := q / 64, q % 64;
    assert a == q2 * 4096 + (r2 * 64 + r);
    Div4096(q2, r2 * 64 + r);
    var q3, r3 := a / 4096, a % 4096;
    var q4, r4 := q3 / 64, q3 % 64;
    assert a == q4 * 262144 + (r4 * 4096 + r3);
  }

  /** Decoding undoes encoding: every code point of two or more bytes comes back. */
  lemma Utf8RoundTrip(c: char)
    requires c as int >= 0x80
    ensures 2 <= |Utf8(c)| <= 4 && LeadingOnes(Utf8(c)[0]) == |Utf8(c)|
    ensures Utf8Decode(Utf8(c)) == Some(c)
  {
    var cp := c as int;
    var bs := Utf8(c);
    if cp < 0x800 {
      assert cp == (cp / 64) * 64 + cp % 64;
    } else if cp < 0x10000 {
      DivNested(cp);
      assert cp / 64 == (cp / 4096) * 64 + (cp / 64) % 64;
      assert cp == (cp / 64) * 64 + cp % 64;
    } else {
      DivNested(cp);
      assert cp / 4096 == (cp / 262144) * 64 + (cp / 4096) % 64;
      assert cp / 64 == (cp / 4096) * 64 + (cp / 64) % 64;
      assert cp == (cp / 64) * 64 + cp % 64;
    }
  }

  // ---------------------------------------------------------------------
  // Percent-encoding
  // ---------------------------------------------------------------------

  const HexDigits: string := "0123456789ABCDEF"

  /** `%XY` with upper-case hexadecimal digits. */
  function PercentEncodeByte(b: Byte): (s: string)
    ensures |s| == 3 && s[0] == '%'
  {
    ['%', HexDigits[b / 16], HexDigits[b % 16]]
  }

  function PercentEncodeBytes(bs: seq<Byte>): (s: string)
    ensures |s| == 3 * |bs|
  {
    if bs == [] then [] else PercentEncodeByte(bs[0]) + PercentEncodeBytes(bs[1..])
  }

  function HexValue(c: char): Option<nat> {
    if '0' <= c <= '9' then Some(c as int - '0' as int)
    else if 'A' <= c <= 'F' then Some(c as int - 'A' as int + 10)
    else if 'a' <= c <= 'f' then Some(c as int - 'a' as int + 10)
    else None
  }

  /** ParseHexOctet: the byte spelled by `s[k]` and `s[k + 1]`, if both are hexadecimal digits. */
  function HexOctetAt(s: string, k: nat): (r: Option<Byte>)
    requires k + 2 <= |s|
  {
    match (HexValue(s[k]), HexValue(s[k + 1]))
    case (Some(hi), Some(lo)) => assert hi < 16 && lo < 16; Some(hi * 16 + lo)
    case _ => None
  }

  lemma HexOctetOfEncoding(b: Byte)
    ensures HexOctetAt(PercentEncodeByte(b), 1) == Some(b)
  {
    var s := PercentEncodeByte(b);
    assert HexValue(s[1]) == Some(b / 16);
    assert HexValue(s[2]) == Some(b % 16);
  }

  // ---------------------------------------------------------------------
  // decodeURI
  // ---------------------------------------------------------------------

  /** The characters whose escapes `decodeURI` leaves in place. */
  const Reserved: set<char> := {';', '/', '?', ':', '@', '&', '=', '+', '$', ',', '#'}

  /**
   * The escapes `%XY` of `n` continuation bytes at the start of `s`, or `None`
   * when one of them is not `%` followed by two hexadecimal digits.
   */
  function Continuations(s: string, n: nat): (r: Option<seq<Byte>>)
    requires 3 * n <= |s|
    ensures r.Some? ==> |r.value| == n
  {
    if n == 0 then Some([])
    else if s[0] != '%' then None
    else match HexOctetAt(s, 1)
      case None => None
      case Some(b) =>
        match Continuations(s[3..], n - 1)
        case None => None
        case Some(rest) => Some([b] + rest)
  }

  /** `decodeURI(s)` (ECMA-262, the abstract operation Decode); `None` stands for the URIError it throws. */
  function DecodeURI(s: string): (r: Option<string>)
    ensures r.Some? && s != [] && s[0] != '%' ==> r.value != [] && r.value[0] == s[0]
    decreases |s|
  {
    if s == [] then Some([])
    else if s[0] != '%' then
      match DecodeURI(s[1..])
      case None => None
      case Some(rest) => Some([s[0]] + rest)
    else if |s| < 3 then None
    else match HexOctetAt(s, 1)
      case None => None
      case Some(b) =>
        if b < 0x80 then
          var piece := if (b as char) in Reserved then s[..3] else [b as char];
          match DecodeURI(s[3..])
          case None => None
          case Some(rest) => Some(piece + rest)
        else
          var n := LeadingOnes(b);
          if n == 1 || n > 4 || 3 * n > |s| then None
          else match Continuations(s[3..], n - 1)
            case None => None
            case Some(tail) =>
              match Utf8Decode([b] + tail)
              case None => None
              case Some(c) =>
                match DecodeURI(s[3 * n..])
                case None => None
                case Some(rest) => Some([c] + rest)
  }

  /** Text without `%` passes through `decodeURI` unchanged. */
  lemma {:induction false} DecodeWithoutEscapes(s: string)
    requires '%' !in s
    ensures DecodeURI(s) == Some(s)
  {
    if s != [] {
      assert '%' !in s[1..];
      DecodeWithoutEscapes(s[1..]);
      assert s == [s[0]] + s[1..];
    }
  }

  /** A `%` that is not followed by two hexadecimal digits makes `decodeURI` throw. */
  lemma LonePercentThrows()
    ensures DecodeURI("/%") == None
    ensures DecodeURI("/%zz") == None
    ensures DecodeURI("/%C3") == None
  {
    assert DecodeURI("%") == None;
    assert "/%"[1..] == "%";
    assert HexValue('z') == None;
    assert DecodeURI("%zz") == None;
    assert "/%zz"[1..] == "%zz";
    assert HexOctetAt("%C3", 1) == Some(0xC3);
    assert LeadingOnes(0xC3) == 2;
    assert DecodeURI("%C3") == None;
    assert "/%C3"[1..] == "%C3";
  }

  /** `decodeURI` is not idempotent: `/%25` decodes to `/%`, which then throws. */
  lemma DecodeNotIdempotent()
    ensures DecodeURI("/%25") == Some("/%")
    ensures DecodeURI("/%") == None
  {
    var t := "%25";
    assert HexValue(t[1]) == Some(2) && HexValue(t[2]) == Some(5);
    assert HexOctetAt(t, 1) == Some(0x25);
    assert (0x25 as char) == '%' && '%' !in Reserved;
    assert t[0] == '%' && |t| == 3;
    assert t[3..] == [] && DecodeURI(t[3..]) == Some([]);
    assert DecodeURI(t) == Some(['%'] + []);
    assert ['%'] + [] == "%";
    var u := "/%25";
    assert u[0] == '/' && u[1..] == t;
    assert DecodeURI(u[1..]) == Some("%");
    assert DecodeURI("/%25") == Some(['/'] + "%");
    assert ['/'] + "%" == "/%";
    LonePercentThrows();
  }

  /** `PercentEncodeBytes(Utf8(c))` decodes back to `c` when `c` is not reserved. */
  lemma DecodeEscapedChar(c: char, rest: string)
    requires c !in Reserved
    ensures DecodeURI(PercentEncodeBytes(Utf8(c)) + rest)
         == match DecodeURI(rest) case None => None case Some(r) => Some([c] + r)
  {
    var bs := Utf8(c);
    var e := PercentEncodeBytes(bs);
    var s := e + rest;
    if |bs| == 1 {
      HexOctetOfEncoding(bs[0]);
      assert s[..3] == PercentEncodeByte(bs[0]);
      assert HexOctetAt(s, 1) == Some(bs[0]);
      assert (bs[0] as char) == c;
      assert s[3..] == rest;
    } else {
      DecodeEscapedMultiByte(c, rest);
    }
  }

  lemma DecodeEscapedMultiByte(c: char, rest: string)
    requires c as int >= 0x80
    ensures DecodeURI(PercentEncodeBytes(Utf8(c)) + rest)
         == match DecodeURI(rest) case None => None case Some(r) => Some([c] + r)
  {
    Utf8RoundTrip(c);
    DecodeEscapedBytes(Utf8(c), c, rest);
  }

  /** The escapes of a well-formed multi-byte sequence decode to its character. */
  lemma DecodeEscapedBytes(bs: seq<Byte>, c: char, rest: string)
    requires 2 <= |bs| <= 4 && LeadingOnes(bs[0]) == |bs| && Utf8Decode(bs) == Some(c)
    ensures DecodeURI(PercentEncodeBytes(bs) + rest)
         == match DecodeURI(rest) case None => None case Some(r) => Some([c] + r)
  {
    var head, tail := PercentEncodeByte(bs[0]), PercentEncodeBytes(bs[1..]);
    assert PercentEncodeBytes(bs) + rest == head + (tail + rest);
    HeadAndTail(bs);
    DecodeMultiByteStep(bs[0], bs[1..], c, rest);
  }

  /** One step of `decodeURI` over the escapes of a well-formed multi-byte sequence. */
  lemma DecodeMultiByteStep(b: Byte, tail: seq<Byte>, c: char, rest: string)
    requires 2 <= LeadingOnes(b) <= 4 && |tail| == LeadingOnes(b) - 1 && Utf8Decode([b] + tail) == Some(c)
    ensures DecodeURI(PercentEncodeByte(b) + (PercentEncodeBytes(tail) + rest))
         == match DecodeURI(rest) case None => None case Some(r) => Some([c] + r)
  {
    var s := PercentEncodeByte(b) + (PercentEncodeBytes(tail) + rest);
    assert HexOctetAt(s, 1) == Some(b) by {
      HexOctetOfEncoding(b);
      assert s[..3] == PercentEncodeByte(b);
    }
    assert s[3..] == PercentEncodeBytes(tail) + rest;
    ContinuationsThen(tail, rest);
    assert s[3 * LeadingOnes(b)..] == rest;
  }

  lemma HeadAndTail(bs: seq<Byte>)
    requires bs != []
    ensures [bs[0]] + bs[1..] == bs
  {
  }

  lemma ContinuationsThen(bs: seq<Byte>, rest: string)
    ensures Continuations(PercentEncodeBytes(bs) + rest, |bs|) == Some(bs)
  {
    var e := PercentEncodeBytes(bs);
    assert (e + rest)[..|e|] == e;
    ContinuationsOfEncoding(bs, e + rest);
  }

  /** The escapes of a run of continuation bytes read back as those bytes. */
  lemma {:induction false} ContinuationsOfEncoding(bs: seq<Byte>, s: string)
    requires 3 * |bs| <= |s|
    requires s[..3 * |bs|] == PercentEncodeBytes(bs)
    ensures Continuations(s, |bs|) == Some(bs)
    decreases |bs|
  {
    if bs != [] {
      assert s[..3] == PercentEncodeBytes(bs)[..3] == PercentEncodeByte(bs[0]);
      HexOctetOfEncoding(bs[0]);
      assert HexOctetAt(s, 1) == HexOctetAt(PercentEncodeByte(bs[0]), 1);
      assert s[3..][..3 * |bs[1..]|] == PercentEncodeBytes(bs)[3..] == PercentEncodeBytes(bs[1..]);
      ContinuationsOfEncoding(bs[1..], s[3..]);
      assert [bs[0]] + bs[1..] == bs;
    }
  }

  // ---------------------------------------------------------------------
  // application/x-www-form-urlencoded serializer (WHATWG URL, section 5.2)
  // ---------------------------------------------------------------------

  /** The code points the urlencoded percent-encode set leaves alone. */
  predicate FormSafe(c: char) {
    ('a' <= c <= 'z') || ('A' <= c <= 'Z') || ('0' <= c <= '9') || c == '*' || c == '-' || c == '.' || c == '_'
  }

  function FormEncodeChar(c: char): string {
    if c == ' ' then "+" else if FormSafe(c) then [c] else PercentEncodeBytes(Utf8(c))
  }

  /** Percent-encode after UTF-8 encoding with the urlencoded set, space as `+`. */
  function FormEncode(s: string): string {
    if s == [] then [] else FormEncodeChar(s[0]) + FormEncode(s[1..])
  }

  type Pair = (string, string)

  /** The urlencoded serializer: `name=value` per tuple, joined by `&`, in list order. */
  function Serialize(pairs: seq<Pair>): (r: string)
    ensures r == [] <==> pairs == []
  {
    if pairs == [] then []
    else
      var head := FormEncode(pairs[0].0) + "=" + FormEncode(pairs[0].1);
      if |pairs| == 1 then head else head + "&" + Serialize(pairs[1..])
  }

  /** The characters a serialized query can hold. */
  predicate SerializedChar(c: char) {
    FormSafe(c) || c == '+' || c == '%' || c == '=' || c == '&'
  }

  lemma {:induction false} FormEncodeAlphabet(s: string)
    ensures forall i :: 0 <= i < |FormEncode(s)| ==> SerializedChar(FormEncode(s)[i])
  {
    if s != [] {
      FormEncodeAlphabet(s[1..]);
      var e := FormEncodeChar(s[0]);
      if !(s[0] == ' ' || FormSafe(s[0])) {
        PercentAlphabet(Utf8(s[0]));
      }
      assert FormEncode(s) == e + FormEncode(s[1..]);
    }
  }

  lemma {:induction false} PercentAlphabet(bs: seq<Byte>)
    ensures forall i :: 0 <= i < |PercentEncodeBytes(bs)| ==> SerializedChar(PercentEncodeBytes(bs)[i])
  {
    if bs != [] {
      PercentAlphabet(bs[1..]);
      var p := PercentEncodeByte(bs[0]);
      assert forall i :: 0 <= i < |HexDigits| ==> FormSafe(HexDigits[i]);
      assert PercentEncodeBytes(bs) == p + PercentEncodeBytes(bs[1..]);
    }
  }

  /** A serialized query holds only alphanumerics, `*-._`, `+`, `%`, `=` and `&`. */
  lemma {:induction false} SerializeAlphabet(pairs: seq<Pair>)
    ensures forall i :: 0 <= i < |Serialize(pairs)| ==> SerializedChar(Serialize(pairs)[i])
  {
    if pairs != [] {
      FormEncodeAlphabet(pairs[0].0);
      FormEncodeAlphabet(pairs[0].1);
      if |pairs| > 1 {
        SerializeAlphabet(pairs[1..]);
      }
    }
  }

  /** A bare key is written `k=`. */
  lemma SerializeBareKey()
    ensures Serialize([("k", "")]) == "k="
  {
    assert FormEncode("k") == "k";
  }

  /** Tuples are joined by `&` in list order, and a space becomes `+`. */
  lemma SerializeRepeatedKey()
    ensures Serialize([("a", "1"), ("a", "2 3")]) == "a=1&a=2+3"
  {
    var pairs := [("a", "1"), ("a", "2 3")];
    assert FormEncode("3") == "3";
    assert FormEncode(" 3") == "+3";
    assert FormEncode("2 3") == "2+3";
    assert FormEncode("a") == "a" && FormEncode("1") == "1";
    assert pairs[1..] == [("a", "2 3")];
    assert Serialize(pairs[1..]) == "a=2+3";
  }

  /** `:` and `/` in a value are percent-encoded. */
  lemma SerializeEscapedValue()
    ensures Serialize([("u", "x:y/z")]) == "u=x%3Ay%2Fz"
  {
    assert FormEncode("u") == "u";
    EscapedValueExample();
  }

  lemma EscapedValueExample()
    ensures FormEncode("x:y/z") == "x%3Ay%2Fz"
  {
    ColonEscape();
    SlashEscape();
    assert FormEncode("z") == "z";
    assert FormEncode("/z") == "%2Fz";
    assert FormEncode("y/z") == "y%2Fz";
    assert FormEncode(":y/z") == "%3Ay%2Fz";
  }

  lemma ColonEscape()
    ensures FormEncodeChar(':') == "%3A"
  {
    assert Utf8(':') == [0x3A];
    assert HexDigits[3] == '3' && HexDigits[10] == 'A';
    assert PercentEncodeBytes([0x3A]) == PercentEncodeByte(0x3A) + [];
  }

  lemma SlashEscape()
    ensures FormEncodeChar('/') == "%2F"
  {
    assert Utf8('/') == [0x2F];
    assert HexDigits[2] == '2' && HexDigits[15] == 'F';
    assert PercentEncodeBytes([0x2F]) == PercentEncodeByte(0x2F) + [];
  }

  // ---------------------------------------------------------------------
  // The `search` setter and getter of a URL object (WHATWG URL, section 6.1)
  // ---------------------------------------------------------------------

  /** The special-query percent-encode set (the URL is an `http:` one). */
  predicate InSpecialQuerySet(c: char) {
    c < ' ' || c > '~' || c == ' ' || c == '"' || c == '#' || c == '<' || c == '>' || c == '\''
  }

  function QueryEncode(s: string): string {
    if s == [] then []
    else if s[0] == '\t' || s[0] == '\n' || s[0] == '\r' then QueryEncode(s[1..])
    else (if InSpecialQuerySet(s[0]) then PercentEncodeBytes(Utf8(s[0])) else [s[0]]) + QueryEncode(s[1..])
  }

  /** What `url.search` reads after `url.search = v`. */
  function SearchAfterSet(v: string): string {
    if v == [] then []
    else
      var input := if v[0] == '?' then v[1..] else v;
      var query := QueryEncode(input);
      if query == [] then [] else "?" + query
  }

  lemma {:induction false} QueryEncodeKeepsSerialized(s: string)
    requires forall i :: 0 <= i < |s| ==> SerializedChar(s[i])
    ensures QueryEncode(s) == s
  {
    if s != [] {
      QueryEncodeKeepsSerialized(s[1..]);
      assert s == [s[0]] + s[1..];
    }
  }

  /** Setting `search` to `?` followed by a serialized query reads it back unchanged. */
  lemma SearchOfSerialized(pairs: seq<Pair>)
    requires pairs != []
    ensures SearchAfterSet("?" + Serialize(pairs)) == "?" + Serialize(pairs)
  {
    SerializeAlphabet(pairs);
    QueryEncodeKeepsSerialized(Serialize(pairs));
    assert ("?" + Serialize(pairs))[1..] == Serialize(pairs);
  }
}

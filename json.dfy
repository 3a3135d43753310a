/** JSON.parse, as the product search helpers call it on a cleaned field: it
    either returns a JSON value or throws (None here). The grammar is the one
    of ECMA-404; numbers are kept as exact decimal values. Beside the parser
    stand an encoder for arrays of strings and the lemma that the parser reads
    back what the encoder writes. */
module Json {
  import opened Wrappers
  import opened Seqs

  datatype Json =
    | JNull
    | JBool(b: bool)
    | JNumber(n: real)
    | JString(str: string)
    | JArray(items: seq<Json>)
    | JObject(members: seq<(string, Json)>)

  /** The array elements a sequence of strings parses to */
  function JStrings(xs: seq<string>): (r: seq<Json>)
    ensures |r| == |xs| && forall i | 0 <= i < |xs| :: r[i] == JString(xs[i])
  {
    if xs == [] then [] else [JString(xs[0])] + JStrings(xs[1..])
  }

  predicate AllStrings(vs: seq<Json>) {
    forall i | 0 <= i < |vs| :: vs[i].JString?
  }

  /** The text of a string value */
  function AsText(v: Json): string {
    if v.JString? then v.str else ""
  }

  /** JSON white space: space, tab, line feed and carriage return only */
  predicate IsJsonSpace(c: char) {
    c == ' ' || c == '\t' || c == '\n' || c == '\r'
  }

  predicate AllJsonSpace(s: string) {
    forall i | 0 <= i < |s| :: IsJsonSpace(s[i])
  }

  /** Drops leading JSON white space: the result is a suffix of s that does
      not start with white space. */
  function SkipSpace(s: string): (r: string)
    ensures |r| <= |s| && r == s[|s| - |r|..]
    ensures r == [] || !IsJsonSpace(r[0])
  {
    if s != [] && IsJsonSpace(s[0]) then SkipSpace(s[1..]) else s
  }

  /** JSON.parse: exactly one value, with optional white space around it */
  function Parse(text: string): Option<Json>
  {
    match ParseValue(SkipSpace(text))
    case Some((v, rest)) => if SkipSpace(rest) == [] then Some(v) else None
    case None => None
  }

  /** A value at the start of s, and what follows it */
  function ParseValue(s: string): (r: Option<(Json, string)>)
    ensures r.Some? ==> |r.value.1| < |s|
    decreases |s|, 0
  {
    if s == [] then None
    else if s[0] == '[' then ParseArray(SkipSpace(s[1..]))
    else if s[0] == '{' then ParseObject(SkipSpace(s[1..]))
    else if s[0] == '"' then
      match ParseStringBody(s[1..])
      case Some((str, rest)) => Some((JString(str), rest))
      case None => None
    else if "true" <= s then Some((JBool(true), s[4..]))
    else if "false" <= s then Some((JBool(false), s[5..]))
    else if "null" <= s then Some((JNull, s[4..]))
    else ParseNumber(s)
  }

  /** The rest of an array after its '[' and any white space */
  function ParseArray(s: string): (r: Option<(Json, string)>)
    ensures r.Some? ==> |r.value.1| < |s|
    decreases |s|, 2
  {
    if s != [] && s[0] == ']' then Some((JArray([]), s[1..]))
    else
      match ParseElements(s)
      case Some((items, rest)) => Some((JArray(items), rest))
      case None => None
  }

  /** One or more values separated by commas, closed by ']' */
  function ParseElements(s: string): (r: Option<(seq<Json>, string)>)
    ensures r.Some? ==> |r.value.1| < |s|
    decreases |s|, 1
  {
    match ParseValue(s)
    case None => None
    case Some((v, rest)) =>
      var t := SkipSpace(rest);
      if t != [] && t[0] == ',' then
        match ParseElements(SkipSpace(t[1..]))
        case Some((vs, rest')) => Some(([v] + vs, rest'))
        case None => None
      else if t != [] && t[0] == ']' then Some(([v], t[1..]))
      else None
  }

  /** The rest of an object after its '{' and any white space */
  function ParseObject(s: string): (r: Option<(Json, string)>)
    ensures r.Some? ==> |r.value.1| < |s|
    decreases |s|, 2
  {
    if s != [] && s[0] == '}' then Some((JObject([]), s[1..]))
    else
      match ParseMembers(s)
      case Some((ms, rest)) => Some((JObject(ms), rest))
      case None => None
  }

  /** One or more `"key": value` members separated by commas, closed by '}' */
  function ParseMembers(s: string): (r: Option<(seq<(string, Json)>, string)>)
    ensures r.Some? ==> |r.value.1| < |s|
    decreases |s|, 1
  {
    if s == [] || s[0] != '"' then None
    else
      match ParseStringBody(s[1..])
      case None => None
      case Some((key, rest)) =>
        var t := SkipSpace(rest);
        if t == [] || t[0] != ':' then None
        else
          match ParseValue(SkipSpace(t[1..]))
          case None => None
          case Some((v, rest')) =>
            var u := SkipSpace(rest');
            if u != [] && u[0] == ',' then
              match ParseMembers(SkipSpace(u[1..]))
              case Some((ms, rest'')) => Some(([(key, v)] + ms, rest''))
              case None => None
            else if u != [] && u[0] == '}' then Some(([(key, v)], u[1..]))
            else None
  }

  predicate IsDigit(c: char) {
    '0' <= c <= '9'
  }

  predicate AllDigits(s: string) {
    forall i | 0 <= i < |s| :: IsDigit(s[i])
  }

  /** Length of the longest all-digit prefix of s */
  function DigitRun(s: string): (k: nat)
    ensures k <= |s| && AllDigits(s[..k])
    ensures k < |s| ==> !IsDigit(s[k])
  {
    if s == [] || !IsDigit(s[0]) then 0
    else
      var k := DigitRun(s[1..]);
      assert forall i | 1 <= i < k + 1 :: s[i] == s[1..][..k][i - 1];
      1 + k
  }

  lemma DigitsJoin(a: string, b: string)
    requires AllDigits(a) && AllDigits(b)
    ensures AllDigits(a + b)
  {
  }

  /** The natural number a decimal digit string denotes */
  function DigitsValue(ds: string): nat
    requires AllDigits(ds)
  {
    if ds == [] then 0
    else DigitsValue(ds[..|ds| - 1]) * 10 + (ds[|ds| - 1] as int - '0' as int)
  }

  function Pow10(n: nat): (p: nat)
    ensures p >= 1
  {
    if n == 0 then 1 else 10 * Pow10(n - 1)
  }

  /** The exact value of +-digits * 10^e */
  function DecimalValue(negative: bool, digits: string, e: int): real
    requires AllDigits(digits)
  {
    var m := DigitsValue(digits);
    var magnitude := if e >= 0 then (m * Pow10(e)) as real else m as real / Pow10(-e) as real;
    if negative then -magnitude else magnitude
  }

  /** A number: -? (0 | [1-9][0-9]*) (. [0-9]+)? ([eE] [+-]? [0-9]+)? */
  function ParseNumber(s: string): (r: Option<(Json, string)>)
    ensures r.Some? ==> |r.value.1| < |s|
  {
    var negative := s != [] && s[0] == '-';
    var t := if negative then s[1..] else s;
    var k := if t != [] && t[0] == '0' then 1 else DigitRun(t);
    if k == 0 then None
    else
      var intDigits := t[..k];
      var t1 := t[k..];
      var dot := t1 != [] && t1[0] == '.';
      var f := if dot then DigitRun(t1[1..]) else 0;
      if dot && f == 0 then None
      else
        var fracDigits := if dot then t1[1..1 + f] else "";
        var t2 := if dot then t1[1 + f..] else t1;
        assert AllDigits(intDigits + fracDigits) by {
          if dot {
            assert fracDigits == t1[1..][..f];
          }
          DigitsJoin(intDigits, fracDigits);
        }
        match ParseExponent(t2)
        case None => None
        case Some((e, rest)) =>
          Some((JNumber(DecimalValue(negative, intDigits + fracDigits, e - |fracDigits|)), rest))
  }

  /** An optional exponent part, and what follows it */
  function ParseExponent(s: string): (r: Option<(int, string)>)
    ensures r.Some? ==> |r.value.1| <= |s|
  {
    if s == [] || (s[0] != 'e' && s[0] != 'E') then Some((0, s))
    else
      var t := s[1..];
      var u := if t != [] && (t[0] == '-' || t[0] == '+') then t[1..] else t;
      var k := DigitRun(u);
      if k == 0 then None
      else
        var v: int := DigitsValue(u[..k]);
        Some((if t[0] == '-' then -v else v, u[k..]))
  }

  predicate IsHexDigit(c: char) {
    '0' <= c <= '9' || 'a' <= c <= 'f' || 'A' <= c <= 'F'
  }

  function HexValue(c: char): (v: nat)
    requires IsHexDigit(c)
    ensures v < 16
  {
    if c <= '9' then c as int - '0' as int
    else if c <= 'F' then c as int - 'A' as int + 10
    else c as int - 'a' as int + 10
  }

  /** Four hexadecimal digits at the start of s: one UTF-16 code unit */
  function ParseHex4(s: string): (r: Option<(int, string)>)
    ensures r.Some? ==> |s| >= 4 && 0 <= r.value.0 < 0x1_0000 && r.value.1 == s[4..]
  {
    if |s| >= 4 && IsHexDigit(s[0]) && IsHexDigit(s[1]) && IsHexDigit(s[2]) && IsHexDigit(s[3]) then
      Some((HexValue(s[0]) * 0x1000 + HexValue(s[1]) * 0x100 + HexValue(s[2]) * 0x10 + HexValue(s[3]), s[4..]))
    else None
  }

  predicate IsHighSurrogate(u: int) {
    0xD800 <= u < 0xDC00
  }

  predicate IsLowSurrogate(u: int) {
    0xDC00 <= u < 0xE000
  }

  /** The escape after a backslash. A \u escape names a UTF-16 code unit; a
      surrogate pair of them is one character, and a lone surrogate, which a
      Dafny character cannot hold, becomes U+FFFD. */
  function ParseEscape(s: string): (r: Option<(char, string)>)
    ensures r.Some? ==> |r.value.1| < |s|
  {
    if s == [] then None
    else if s[0] == '"' then Some(('"', s[1..]))
    else if s[0] == '\\' then Some(('\\', s[1..]))
    else if s[0] == '/' then Some(('/', s[1..]))
    else if s[0] == 'b' then Some(('\U{8}', s[1..]))
    else if s[0] == 'f' then Some(('\U{C}', s[1..]))
    else if s[0] == 'n' then Some(('\n', s[1..]))
    else if s[0] == 'r' then Some(('\r', s[1..]))
    else if s[0] == 't' then Some(('\t', s[1..]))
    else if s[0] == 'u' then
      match ParseHex4(s[1..])
      case None => None
      case Some((unit, rest)) =>
        var low := if |rest| >= 2 && rest[0] == '\\' && rest[1] == 'u' then ParseHex4(rest[2..]) else None;
        if IsHighSurrogate(unit) && low.Some? && IsLowSurrogate(low.value.0) then
          Some(((0x1_0000 + (unit - 0xD800) * 0x400 + (low.value.0 - 0xDC00)) as char, low.value.1))
        else if IsHighSurrogate(unit) || IsLowSurrogate(unit) then Some(('\U{FFFD}', rest))
        else Some((unit as char, rest))
    else None
  }

  /** The characters of a string literal after its opening quote, and what
      follows the closing quote */
  function ParseStringBody(s: string): (r: Option<(string, string)>)
    ensures r.Some? ==> |r.value.1| < |s|
    decreases |s|
  {
    if s == [] then None
    else if s[0] == '"' then Some(([], s[1..]))
    else if s[0] == '\\' then
      match ParseEscape(s[1..])
      case None => None
      case Some((c, rest)) =>
        match ParseStringBody(rest)
        case None => None
        case Some((t, rest')) => Some(([c] + t, rest'))
    else if s[0] < ' ' then None
    else
      match ParseStringBody(s[1..])
      case None => None
      case Some((t, rest)) => Some(([s[0]] + t, rest))
  }

  // ---------------------------------------------------------------------
  // Encoding arrays of strings, and reading them back

  function HexDigit(n: nat): (c: char)
    requires n < 16
    ensures IsHexDigit(c) && HexValue(c) == n
  {
    if n < 10 then ('0' as int + n) as char else ('a' as int + n - 10) as char
  }

  /** One character of a string literal: quote and backslash are escaped,
      control characters written as \u00XX */
  function EscapeChar(c: char): string {
    if c == '"' then "\\\""
    else if c == '\\' then "\\\\"
    else if c < ' ' then "\\u00" + [HexDigit(c as int / 16), HexDigit(c as int % 16)]
    else [c]
  }

  function Escape(x: string): string {
    if x == [] then [] else EscapeChar(x[0]) + Escape(x[1..])
  }

  /** The JSON string literal of x */
  function Quote(x: string): string {
    "\"" + Escape(x) + "\""
  }

  /** The literals of xs joined by a comma and gap */
  function EncodeItems(xs: seq<string>, gap: string): string {
    if xs == [] then ""
    else if |xs| == 1 then Quote(xs[0])
    else Quote(xs[0]) + "," + gap + EncodeItems(xs[1..], gap)
  }

  /** A JSON array text of the strings xs, with gap after each comma */
  function EncodeStrings(xs: seq<string>, gap: string): string {
    "[" + EncodeItems(xs, gap) + "]"
  }

  /** The parser reads back every literal the encoder writes */
  lemma {:induction false} ParseEscaped(x: string, tail: string)
    ensures ParseStringBody(Escape(x) + "\"" + tail) == Some((x, tail))
  {
    if x == [] {
      assert Escape(x) + "\"" + tail == "\"" + tail;
    } else {
      var c := x[0];
      var rest := Escape(x[1..]) + "\"" + tail;
      ParseEscaped(x[1..], tail);
      Regroup3(EscapeChar(c), Escape(x[1..]), "\"", tail);
      assert Escape(x) == EscapeChar(c) + Escape(x[1..]);
      if c == '"' || c == '\\' || c < ' ' {
        EscapedStep(c, rest, x[1..], tail);
      } else {
        PlainStep(c, rest, x[1..], tail);
      }
      assert x == [c] + x[1..];
    }
  }

  lemma Regroup3(e: string, r: string, q: string, t: string)
    ensures e + r + q + t == e + (r + q + t)
  {
  }

  /** A character the encoder copies, then a literal's remainder */
  lemma PlainStep(c: char, rest: string, x: string, tail: string)
    requires c != '"' && c != '\\' && c >= ' '
    requires ParseStringBody(rest) == Some((x, tail))
    ensures ParseStringBody(EscapeChar(c) + rest) == Some(([c] + x, tail))
  {
    var s := [c] + rest;
    assert s[0] == c && s[1..] == rest;
  }

  /** A character the encoder escapes, then a literal's remainder */
  lemma EscapedStep(c: char, rest: string, x: string, tail: string)
    requires c == '"' || c == '\\' || c < ' '
    requires ParseStringBody(rest) == Some((x, tail))
    ensures ParseStringBody(EscapeChar(c) + rest) == Some(([c] + x, tail))
  {
    var s := EscapeChar(c) + rest;
    ParseEscapeOf(c, rest);
    assert s[1..] == EscapeChar(c)[1..] + rest;
    assert s[0] == '\\';
  }

  /** The escape the encoder writes for c reads back as c */
  lemma ParseEscapeOf(c: char, rest: string)
    requires c == '"' || c == '\\' || c < ' '
    ensures EscapeChar(c) != [] && EscapeChar(c)[0] == '\\'
    ensures ParseEscape(EscapeChar(c)[1..] + rest) == Some((c, rest))
  {
    if c < ' ' {
      ParseControlEscape(c, rest);
    }
  }

  lemma ParseControlEscape(c: char, rest: string)
    requires c < ' '
    ensures EscapeChar(c) != [] && EscapeChar(c)[0] == '\\'
    ensures ParseEscape(EscapeChar(c)[1..] + rest) == Some((c, rest))
  {
    var w := ['0', '0', HexDigit(c as int / 16), HexDigit(c as int % 16)];
    ControlEscapeShape(c);
    HeadTail(['u'], w, rest);
    ControlHex4(c, rest);
    UnitEscape(EscapeChar(c)[1..] + rest, c as int, rest);
  }

  /** A \u escape of a code unit that is not a surrogate */
  lemma UnitEscape(t: string, unit: int, rest: string)
    requires t != [] && t[0] == 'u' && ParseHex4(t[1..]) == Some((unit, rest))
    requires !IsHighSurrogate(unit) && !IsLowSurrogate(unit)
    ensures ParseEscape(t) == Some((unit as char, rest))
  {
  }

  lemma ControlEscapeShape(c: char)
    requires c < ' '
    ensures EscapeChar(c) != [] && EscapeChar(c)[0] == '\\'
    ensures EscapeChar(c)[1..] == ['u'] + ['0', '0', HexDigit(c as int / 16), HexDigit(c as int % 16)]
  {
  }

  lemma HeadTail(h: string, w: string, rest: string)
    requires |h| == 1
    ensures (h + w + rest)[0] == h[0] && (h + w + rest)[1..] == w + rest
  {
  }

  lemma ControlHex4(c: char, rest: string)
    requires c < ' '
    ensures ParseHex4(['0', '0', HexDigit(c as int / 16), HexDigit(c as int % 16)] + rest) == Some((c as int, rest))
  {
    var u := ['0', '0', HexDigit(c as int / 16), HexDigit(c as int % 16)] + rest;
    assert u[4..] == rest;
  }

  lemma ParseQuoted(x: string, tail: string)
    ensures ParseValue(Quote(x) + tail) == Some((JString(x), tail))
  {
    var s := Quote(x) + tail;
    assert s[1..] == Escape(x) + "\"" + tail;
    ParseEscaped(x, tail);
  }

  lemma {:induction false} SkipSpaceOver(gap: string, u: string)
    requires AllJsonSpace(gap)
    requires u == [] || !IsJsonSpace(u[0])
    ensures SkipSpace(gap + u) == u
  {
    if gap != [] {
      var s := gap + u;
      assert s[0] == gap[0] && IsJsonSpace(gap[0]);
      assert s[1..] == gap[1..] + u;
      assert AllJsonSpace(gap[1..]) by {
        assert forall i | 0 <= i < |gap| - 1 :: gap[1..][i] == gap[i + 1];
      }
      SkipSpaceOver(gap[1..], u);
    } else {
      assert gap + u == u;
    }
  }

  lemma {:induction false} ParseEncodedElements(xs: seq<string>, gap: string, tail: string)
    requires |xs| >= 1 && AllJsonSpace(gap)
    ensures ParseElements(EncodeItems(xs, gap) + ("]" + tail)) == Some((JStrings(xs), tail))
  {
    var e := "]" + tail;
    if |xs| == 1 {
      ItemsOne(xs, gap, e);
      ParseQuoted(xs[0], e);
      ElementsLast(Quote(xs[0]) + e, JString(xs[0]), e);
      assert e[1..] == tail;
      assert JStrings(xs) == [JString(xs[0])];
    } else {
      var next := EncodeItems(xs[1..], gap) + e;
      ItemsSplit(xs, gap, e);
      EncodeItemsStart(xs[1..], gap);
      QuotedThenComma(xs[0], gap, next);
      ParseEncodedElements(xs[1..], gap, tail);
      ElementsStep(Quote(xs[0]) + ("," + gap + next), JString(xs[0]), "," + gap + next, JStrings(xs[1..]), tail);
      assert JStrings(xs) == [JString(xs[0])] + JStrings(xs[1..]);
    }
  }

  lemma ItemsOne(xs: seq<string>, gap: string, e: string)
    requires |xs| == 1
    ensures EncodeItems(xs, gap) + e == Quote(xs[0]) + e
  {
  }

  lemma ItemsSplit(xs: seq<string>, gap: string, e: string)
    requires |xs| >= 2
    ensures EncodeItems(xs, gap) + e == Quote(xs[0]) + ("," + gap + (EncodeItems(xs[1..], gap) + e))
  {
    var q, r := Quote(xs[0]), EncodeItems(xs[1..], gap);
    assert EncodeItems(xs, gap) == q + "," + gap + r;
    Regroup(q, ",", gap, r, e);
  }

  lemma Regroup(q: string, c: string, g: string, r: string, e: string)
    ensures q + c + g + r + e == q + (c + g + (r + e))
  {
  }

  /** A literal followed by a comma and gap reads up to the next literal */
  lemma QuotedThenComma(x: string, gap: string, next: string)
    requires AllJsonSpace(gap) && next != [] && next[0] == '"'
    ensures ParseValue(Quote(x) + ("," + gap + next)) == Some((JString(x), "," + gap + next))
    ensures "," + gap + next != [] && ("," + gap + next)[0] == ','
    ensures SkipSpace(("," + gap + next)[1..]) == next
  {
    var after := "," + gap + next;
    ParseQuoted(x, after);
    assert after[1..] == gap + next;
    SkipSpaceOver(gap, next);
  }

  /** A value followed by a comma continues the elements */
  lemma ElementsStep(s: string, v: Json, after: string, vs: seq<Json>, tail: string)
    requires ParseValue(s) == Some((v, after))
    requires after != [] && after[0] == ','
    requires ParseElements(SkipSpace(after[1..])) == Some((vs, tail))
    ensures ParseElements(s) == Some(([v] + vs, tail))
  {
    assert SkipSpace(after) == after;
  }

  /** A value followed by ']' ends the elements */
  lemma ElementsLast(s: string, v: Json, after: string)
    requires ParseValue(s) == Some((v, after))
    requires after != [] && after[0] == ']'
    ensures ParseElements(s) == Some(([v], after[1..]))
  {
    assert SkipSpace(after) == after;
  }

  lemma EncodeItemsStart(xs: seq<string>, gap: string)
    requires |xs| >= 1
    ensures EncodeItems(xs, gap) != [] && EncodeItems(xs, gap)[0] == '"'
  {
  }

  /** Round trip: an encoded array of strings parses to exactly those strings */
  lemma ParseEncodeStrings(xs: seq<string>, gap: string)
    requires AllJsonSpace(gap)
    ensures Parse(EncodeStrings(xs, gap)) == Some(JArray(JStrings(xs)))
  {
    var s := EncodeStrings(xs, gap);
    assert s[1..] == EncodeItems(xs, gap) + "]";
    ParseEncodedBody(xs, gap);
    ParseBracketed(s, JArray(JStrings(xs)));
  }

  lemma ParseEncodedBody(xs: seq<string>, gap: string)
    requires AllJsonSpace(gap)
    ensures ParseArray(SkipSpace(EncodeItems(xs, gap) + "]")) == Some((JArray(JStrings(xs)), ""))
  {
    var body := EncodeItems(xs, gap) + "]";
    if xs == [] {
      assert body == "]";
    } else {
      EncodeItemsStart(xs, gap);
      assert SkipSpace(body) == body;
      ParseEncodedElements(xs, gap, "");
      assert "]" + "" == "]";
    }
  }

  /** A text that starts with '[' and whose array reads to its end is that array */
  lemma ParseBracketed(s: string, v: Json)
    requires s != [] && s[0] == '['
    requires ParseArray(SkipSpace(s[1..])) == Some((v, ""))
    ensures Parse(s) == Some(v)
  {
    assert SkipSpace(s) == s;
    assert ParseValue(s) == Some((v, ""));
  }

  /** A text that starts with '[' parses, if at all, to an array */
  lemma LeadingBracketIsArray(s: string)
    requires s != [] && s[0] == '[' && Parse(s).Some?
    ensures Parse(s).value.JArray?
  {
    assert SkipSpace(s) == s;
    var t := SkipSpace(s[1..]);
    assert ParseValue(s) == ParseArray(t);
    ParseArrayIsArray(t);
  }

  lemma ParseArrayIsArray(s: string)
    ensures ParseArray(s).Some? ==> ParseArray(s).value.0.JArray?
  {
  }

  /** The escapes the encoder writes use only these characters */
  predicate IsEscapeAlphabet(c: char) {
    c == '\\' || c == '"' || c == 'u' || '0' <= c <= '9' || 'a' <= c <= 'f'
  }

  lemma {:induction false} EscapeFree(x: string, c: char)
    requires c !in x && !IsEscapeAlphabet(c)
    ensures c !in Escape(x)
  {
    if x != [] {
      EscapeFree(x[1..], c);
      assert x[0] != c;
    }
  }

  /** A character that is not part of the array syntax and occurs in none of
      the strings occurs nowhere in their encoding */
  lemma {:induction false} EncodeItemsFree(xs: seq<string>, gap: string, c: char)
    requires !IsEscapeAlphabet(c) && c != ',' && c !in gap
    requires forall i | 0 <= i < |xs| :: c !in xs[i]
    ensures c !in EncodeItems(xs, gap)
  {
    if xs != [] {
      EscapeFree(xs[0], c);
      EncodeItemsFree(xs[1..], gap, c);
    }
  }

  lemma {:induction false} EncodeItemsEnd(xs: seq<string>, gap: string)
    requires |xs| >= 1
    ensures EncodeItems(xs, gap) != [] && EncodeItems(xs, gap)[|EncodeItems(xs, gap)| - 1] == '"'
  {
    if |xs| > 1 {
      EncodeItemsEnd(xs[1..], gap);
    }
  }

  /** A double quote straight after the last encoded string breaks the
      elements: JSON has no juxtaposed values */
  lemma {:induction false} QuoteAfterItemsRejected(xs: seq<string>, gap: string, tail: string)
    requires |xs| >= 1 && AllJsonSpace(gap)
    ensures ParseElements(EncodeItems(xs, gap) + ("\"" + tail)) == None
  {
    var e := "\"" + tail;
    if |xs| == 1 {
      ItemsOne(xs, gap, e);
      ParseQuoted(xs[0], e);
      ElementsStuck(Quote(xs[0]) + e, JString(xs[0]), e);
    } else {
      var next := EncodeItems(xs[1..], gap) + e;
      ItemsSplit(xs, gap, e);
      EncodeItemsStart(xs[1..], gap);
      QuotedThenComma(xs[0], gap, next);
      QuoteAfterItemsRejected(xs[1..], gap, tail);
      ElementsInnerFails(Quote(xs[0]) + ("," + gap + next), JString(xs[0]), "," + gap + next);
    }
  }

  /** A value followed by neither a comma nor ']' ends no element list */
  lemma ElementsStuck(s: string, v: Json, after: string)
    requires ParseValue(s) == Some((v, after))
    requires after != [] && after[0] != ',' && after[0] != ']' && !IsJsonSpace(after[0])
    ensures ParseElements(s) == None
  {
    assert SkipSpace(after) == after;
  }

  /** Elements whose continuation fails, fail */
  lemma ElementsInnerFails(s: string, v: Json, after: string)
    requires ParseValue(s) == Some((v, after))
    requires after != [] && after[0] == ','
    requires ParseElements(SkipSpace(after[1..])) == None
    ensures ParseElements(s) == None
  {
    assert SkipSpace(after) == after;
  }

  /** An array of strings whose closing bracket has a stray double quote
      before it is not JSON */
  lemma QuoteBeforeBracketRejected(xs: seq<string>, gap: string)
    requires |xs| >= 1 && AllJsonSpace(gap)
    ensures Parse("[" + EncodeItems(xs, gap) + "\"]") == None
  {
    var s := "[" + EncodeItems(xs, gap) + "\"]";
    var u := EncodeItems(xs, gap) + ("\"" + "]");
    assert s[1..] == u;
    EncodeItemsStart(xs, gap);
    assert SkipSpace(u) == u;
    QuoteAfterItemsRejected(xs, gap, "]");
    ArrayFails(u);
    BracketFails(s);
  }

  lemma ArrayFails(u: string)
    requires u != [] && u[0] != ']' && ParseElements(u) == None
    ensures ParseArray(u) == None
  {
  }

  lemma BracketFails(s: string)
    requires s != [] && s[0] == '[' && ParseArray(SkipSpace(s[1..])) == None
    ensures Parse(s) == None
  {
    assert SkipSpace(s) == s;
  }
}

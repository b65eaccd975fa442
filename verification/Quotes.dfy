/** String literals the rewriters write: `py_quote`, `js_quote` and its reader `js_unescape`
    (tools/i18n_wrap_code.py). */
module Quotes {
  import opened Text

  // ------------------------------------------------------------------ hexadecimal

  function HexDigit(d: nat): char
    requires d < 16
  {
    if d < 10 then (('0' as int) + d) as char else (('a' as int) + d - 10) as char
  }

  predicate IsHex(c: char) { IsDigit(c) || 'a' <= c <= 'f' || 'A' <= c <= 'F' }

  function HexDigitValue(c: char): (v: nat)
    requires IsHex(c)
    ensures v < 16
  {
    if IsDigit(c) then (c as int) - ('0' as int)
    else if 'a' <= c <= 'f' then (c as int) - ('a' as int) + 10
    else (c as int) - ('A' as int) + 10
  }

  predicate AllHex(s: string) { forall i :: 0 <= i < |s| ==> IsHex(s[i]) }

  /** `int(s, 16)`. */
  function HexValue(s: string): nat
    requires AllHex(s)
  {
    if s == "" then 0 else 16 * HexValue(s[..|s| - 1]) + HexDigitValue(s[|s| - 1])
  }

  /** `"%04x" % n`. */
  function Hex4(n: nat): (s: string)
    requires n < 0x1_0000
    ensures |s| == 4 && AllHex(s)
  {
    [HexDigit(n / 16 / 16 / 16), HexDigit(n / 16 / 16 % 16), HexDigit(n / 16 % 16), HexDigit(n % 16)]
  }

  lemma HexValueOfFour(s: string)
    requires |s| == 4 && AllHex(s)
    ensures HexValue(s) == 0x1000 * HexDigitValue(s[0]) + 0x100 * HexDigitValue(s[1]) + 16 * HexDigitValue(s[2])
            + HexDigitValue(s[3])
  {
    assert s[..3][..2] == s[..2] && s[..2][..1] == s[..1] && s[..1][..0] == "";
    assert HexValue(s[..1]) == HexDigitValue(s[0]);
    assert HexValue(s[..2]) == 16 * HexDigitValue(s[0]) + HexDigitValue(s[1]);
    assert HexValue(s[..3]) == 16 * HexValue(s[..2]) + HexDigitValue(s[2]);
  }

  lemma Hex4RoundTrip(n: nat)
    requires n < 0x1_0000
    ensures HexValue(Hex4(n)) == n
  {
    HexValueOfFour(Hex4(n));
    var a := n / 16;
    var b := a / 16;
    assert n == 16 * a + n % 16 && a == 16 * b + a % 16 && b == 16 * (b / 16) + b % 16;
  }

  /** Code points that are characters of the model: scalar values, so no surrogates. */
  predicate IsScalar(n: nat) { n < 0xD800 || 0xE000 <= n < 0x11_0000 }

  // ------------------------------------------------------------------ JavaScript

  datatype Unescaped =
    | Decoded(text: string)
    | Unsupported            // the function returns None
    | OutOfRange             // a surrogate or a number beyond U+10FFFF

  function Cons(c: char, r: Unescaped): Unescaped {
    if r.Decoded? then Decoded([c] + r.text) else r
  }

  /** How many of the leading characters are hexadecimal digits. */
  function HexRun(s: string): (n: nat)
    ensures n <= |s| && AllHex(s[..n])
    ensures n < |s| ==> !IsHex(s[n])
  {
    if s == "" || !IsHex(s[0]) then 0 else
      var n := HexRun(s[1..]);
      assert s[..n + 1] == [s[0]] + s[1..][..n];
      n + 1
  }

  /** The escape sequence at the front of a text: its length and the character it stands for, if any. */
  datatype Escape = Escape(len: nat, code: Option<nat>) | Bad

  function NamedEscape(c: char): Option<nat> {
    if c == 'n' then Some(10) else if c == 't' then Some(9) else if c == 'r' then Some(13)
    else if c == '\'' || c == '"' || c == '\\' || c == '`' || c == '/' || c == '$' || c == '{' || c == '}' then
      Some(c as int)
    else None
  }

  function UnicodeEscape(body: string): (e: Escape)
    requires |body| >= 2
    ensures e.Escape? ==> 2 <= e.len <= |body|
  {
    if |body| >= 6 && AllHex(body[2..6]) then Escape(6, Some(HexValue(body[2..6])))
    else if |body| < 3 || body[2] != '{' then Bad
    else
      var n := HexRun(body[3..]);
      if n >= 1 && 3 + n < |body| && body[3 + n] == '}' then Escape(4 + n, Some(HexValue(body[3..][..n]))) else Bad
  }

  function ReadEscape(body: string): (e: Escape)
    ensures e.Escape? ==> 2 <= e.len <= |body|
  {
    if |body| < 2 then Bad
    else if body[1] == 'u' then UnicodeEscape(body)
    else if body[1] == 'x' then
      if |body| >= 4 && AllHex(body[2..4]) then Escape(4, Some(HexValue(body[2..4]))) else Bad
    else if body[1] == '\n' then Escape(2, None)
    else if NamedEscape(body[1]).Some? then Escape(2, NamedEscape(body[1]))
    else Bad
  }

  function Emit(code: Option<nat>, r: Unescaped): Unescaped {
    if code.None? then r else if IsScalar(code.value) then Cons(code.value as char, r) else OutOfRange
  }

  /** `js_unescape`. */
  function JsUnescape(body: string): Unescaped
    decreases |body|
  {
    if body == "" then Decoded("")
    else if body[0] != '\\' then Cons(body[0], JsUnescape(body[1..]))
    else
      var e := ReadEscape(body);
      if e.Bad? then Unsupported else Emit(e.code, JsUnescape(body[e.len..]))
  }

  function JsEscape(c: char): (r: string)
    ensures |r| >= 1
  {
    if c == '\\' then "\\\\"
    else if c == '\'' then "\\'"
    else if c == '\n' then "\\n"
    else if c == '\r' then "\\r"
    else if c == '\t' then "\\t"
    else if c == '\U{2028}' || c == '\U{2029}' then "\\u" + Hex4(c as int)
    else [c]
  }

  function JsBody(s: string): string {
    if s == "" then "" else JsEscape(s[0]) + JsBody(s[1..])
  }

  /** `js_quote`. */
  function JsQuote(s: string): string { "'" + JsBody(s) + "'" }

  lemma ReadWrittenEscape(c: char, rest: string)
    requires |JsEscape(c)| > 1
    ensures ReadEscape(JsEscape(c) + rest) == Escape(|JsEscape(c)|, Some(c as int))
  {
    if c == '\U{2028}' || c == '\U{2029}' {
      assert (JsEscape(c) + rest)[2..6] == Hex4(c as int);
      Hex4RoundTrip(c as int);
    }
  }

  lemma UnescapeOne(c: char, rest: string)
    ensures JsUnescape(JsEscape(c) + rest) == Cons(c, JsUnescape(rest))
  {
    var body := JsEscape(c) + rest;
    assert body[|JsEscape(c)|..] == rest;
    if |JsEscape(c)| > 1 {
      ReadWrittenEscape(c, rest);
      assert body[0] == '\\';
    }
  }

  /** Unescaping what `js_quote` puts between its quotes gives the string back, for every string. */
  lemma {:induction false} UnescapeQuoted(s: string)
    ensures JsUnescape(JsBody(s)) == Decoded(s)
  {
    if s != "" {
      UnescapeQuoted(s[1..]);
      UnescapeOne(s[0], JsBody(s[1..]));
    }
  }

  /** The loop of `js_unescape`. */
  method JsUnescapeLoop(body: string) returns (r: Unescaped)
    ensures r == JsUnescape(body)
  {
    var out, i := "", 0;
    while i < |body|
      invariant i <= |body|
      invariant JsUnescape(body) == Behind(out, JsUnescape(body[i..]))
    {
      ghost var rest := body[i..];
      if body[i] != '\\' {
        assert rest[1..] == body[i + 1..];
        BehindCons(out, body[i], JsUnescape(body[i + 1..]));
        out := out + [body[i]];
        i := i + 1;
        continue;
      }
      var e := ReadEscape(body[i..]);
      if e.Bad? { return Unsupported; }
      assert rest[e.len..] == body[i + e.len..];
      if e.code.Some? {
        if !IsScalar(e.code.value) { return OutOfRange; }
        BehindCons(out, e.code.value as char, JsUnescape(body[i + e.len..]));
        out := out + [e.code.value as char];
      }
      i := i + e.len;
    }
    assert body[i..] == "";
    return Decoded(out);
  }

  /** A decoded prefix in front of the result for the rest. */
  ghost function Behind(out: string, r: Unescaped): Unescaped {
    if r.Decoded? then Decoded(out + r.text) else r
  }

  lemma BehindCons(out: string, c: char, r: Unescaped)
    ensures Behind(out, Cons(c, r)) == Behind(out + [c], r)
  {
    if r.Decoded? { Assoc(out, [c], r.text); }
  }

  // ------------------------------------------------------------------ Python

  /** Control characters and bidirectional marks, which `py_quote` writes as \\uXXXX. */
  predicate IsHidden(c: char) {
    || c < ' ' || c == '\U{200e}' || c == '\U{200f}' || c == '\U{61c}'
    || '\U{2066}' <= c <= '\U{2069}' || '\U{202a}' <= c <= '\U{202e}'
  }

  function PyEscape(c: char, q: char): (r: string)
    ensures |r| >= 1
  {
    if c == '\\' then "\\\\"
    else if c == q then ['\\', q]
    else if c == '\n' then "\\n"
    else if c == '\r' then "\\r"
    else if c == '\t' then "\\t"
    else if IsHidden(c) then "\\u" + Hex4(c as int)
    else [c]
  }

  function PyBody(s: string, q: char): string {
    if s == "" then "" else PyEscape(s[0], q) + PyBody(s[1..], q)
  }

  function PyQuoteChar(s: string): char {
    if CountChar(s, '\'') <= CountChar(s, '"') then '\'' else '"'
  }

  /** `py_quote`. */
  function PyQuote(s: string): string { [PyQuoteChar(s)] + PyBody(s, PyQuoteChar(s)) + [PyQuoteChar(s)] }

  /** Reading the rest of a Python literal that was opened with q, for the escapes `py_quote` writes ("String and Bytes
      literals" in the Python language reference): the value, if the closing quote is the last character. */
  function PyRead(text: string, q: char): Option<string>
    decreases |text|
  {
    if text == "" || text[0] == '\n' then None
    else if text[0] == q then (if |text| == 1 then Some("") else None)
    else if text[0] != '\\' then PyCons(text[0], PyRead(text[1..], q))
    else if |text| == 1 then None
    else match text[1]
      case 'n' => PyCons('\n', PyRead(text[2..], q))
      case 'r' => PyCons('\r', PyRead(text[2..], q))
      case 't' => PyCons('\t', PyRead(text[2..], q))
      case 'u' =>
        if |text| >= 6 && AllHex(text[2..6]) && IsScalar(HexValue(text[2..6]))
        then PyCons(HexValue(text[2..6]) as char, PyRead(text[6..], q)) else None
      case c => if c == '\\' || c == '\'' || c == '"' then PyCons(c, PyRead(text[2..], q)) else None
  }

  function PyCons(c: char, r: Option<string>): Option<string> {
    if r.None? then None else Some([c] + r.value)
  }

  function PyLiteral(text: string): Option<string> {
    if text != "" && (text[0] == '\'' || text[0] == '"') then PyRead(text[1..], text[0]) else None
  }

  lemma PyReadOne(c: char, rest: string, q: char)
    requires q == '\'' || q == '"'
    ensures PyRead(PyEscape(c, q) + rest, q) == PyCons(c, PyRead(rest, q))
  {
    var text := PyEscape(c, q) + rest;
    if c != '\\' && c != q && c != '\n' && c != '\r' && c != '\t' && IsHidden(c) {
      assert text[2..6] == Hex4(c as int) && text[6..] == rest;
      Hex4RoundTrip(c as int);
    } else {
      assert text[|PyEscape(c, q)|..] == rest;
    }
  }

  /** Characters nobody sees: the C0 controls, and the marks, embeddings, overrides and isolates of bidirectional text
      (sections 2.2 to 2.6 of UAX #9). */
  predicate Invisible(c: char) {
    var n := c as int;
    n <= 0x1f || n == 0x61c || n == 0x200e || n == 0x200f || 0x202a <= n <= 0x202e || 0x2066 <= n <= 0x2069
  }

  predicate AsItIs(c: char, q: char) { !Invisible(c) && c != '\\' && c != q }

  /** A literal shows everything: no character of it is invisible, and a text is written as it is if and only if all of
      its characters are visible and neither a backslash nor the quote. */
  lemma {:induction false} LiteralShows(s: string, q: char)
    requires q == '\'' || q == '"'
    ensures forall i :: 0 <= i < |PyBody(s, q)| ==> !Invisible(PyBody(s, q)[i])
    ensures PyBody(s, q) == s <==> forall i :: 0 <= i < |s| ==> AsItIs(s[i], q)
    ensures |PyBody(s, q)| >= |s|
  {
    if s != "" {
      var e, rest := PyEscape(s[0], q), s[1..];
      LiteralShows(rest, q);
      EscapeShows(s[0], q);
      assert s == [s[0]] + rest;
      assert forall i :: 0 < i < |s| ==> s[i] == rest[i - 1];
      if AsItIs(s[0], q) { SameTail(s[0], PyBody(rest, q), rest); }
    }
  }

  lemma SameTail(c: char, a: string, b: string)
    ensures [c] + a == [c] + b <==> a == b
  {
    assert ([c] + a)[1..] == a && ([c] + b)[1..] == b;
  }

  lemma EscapeShows(c: char, q: char)
    requires q == '\'' || q == '"'
    ensures forall i :: 0 <= i < |PyEscape(c, q)| ==> !Invisible(PyEscape(c, q)[i])
    ensures if AsItIs(c, q) then PyEscape(c, q) == [c] else |PyEscape(c, q)| > 1
  {
  }

  lemma {:induction false} EscapesPerQuote(s: string)
    ensures |PyBody(s, '\'')| + CountChar(s, '"') == |PyBody(s, '"')| + CountChar(s, '\'')
  {
    if s != "" { EscapesPerQuote(s[1..]); }
  }

  /** The quote that is chosen gives the shortest literal, and the single quote is preferred. */
  lemma QuoteIsBest(s: string, q: char)
    requires q == '\'' || q == '"'
    ensures PyQuoteChar(s) == '\'' || PyQuoteChar(s) == '"'
    ensures |PyBody(s, PyQuoteChar(s))| <= |PyBody(s, q)|
    ensures PyQuoteChar(s) == '\'' <==> |PyBody(s, '\'')| <= |PyBody(s, '"')|
  {
    EscapesPerQuote(s);
  }

  lemma {:induction false} PyReadBody(s: string, q: char)
    requires q == '\'' || q == '"'
    ensures PyRead(PyBody(s, q) + [q], q) == Some(s)
  {
    if s == "" {
      assert PyBody(s, q) + [q] == [q];
    } else {
      PyReadBody(s[1..], q);
      PyReadOne(s[0], PyBody(s[1..], q) + [q], q);
      assert s == [s[0]] + s[1..];
      Assoc(PyEscape(s[0], q), PyBody(s[1..], q), [q]);
    }
  }

  /** The literal `py_quote` writes reads back as the string, for every string. */
  lemma PyLiteralOfQuote(s: string)
    ensures PyLiteral(PyQuote(s)) == Some(s)
  {
    var q := PyQuoteChar(s);
    PyReadBody(s, q);
    assert PyQuote(s)[1..] == PyBody(s, q) + [q];
  }
}

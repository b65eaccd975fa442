/** The text of .po entries (tools/i18n_master.py): escaping, writing a field, reading a field back, and replacing the
    translation of an entry. The format is the one of the GNU gettext manual, section "The Format of PO Files". */
module PoText {
  import opened Text

  // ------------------------------------------------------------------ escaping

  /** `s.replace(c, rep)` for a single character. */
  function ReplaceChar(s: string, c: char, rep: string): string {
    if s == "" then "" else (if s[0] == c then rep else [s[0]]) + ReplaceChar(s[1..], c, rep)
  }

  /** `_po_escape`. */
  function PoEscape(s: string): string {
    ReplaceChar(ReplaceChar(ReplaceChar(ReplaceChar(ReplaceChar(
      s, '\\', "\\\\"), '"', "\\\""), '\t', "\\t"), '\r', "\\r"), '\n', "\\n")
  }

  /** What happens to one character. */
  function EscapeChar(c: char): (r: string)
    ensures |r| >= 1 && '\n' !in r && '\r' !in r
  {
    if c == '\\' then "\\\\" else if c == '"' then "\\\"" else if c == '\t' then "\\t"
    else if c == '\r' then "\\r" else if c == '\n' then "\\n" else [c]
  }

  function EscapeAll(s: string): string {
    if s == "" then "" else EscapeChar(s[0]) + EscapeAll(s[1..])
  }

  lemma {:induction false} ReplaceCharAppend(a: string, b: string, c: char, rep: string)
    ensures ReplaceChar(a + b, c, rep) == ReplaceChar(a, c, rep) + ReplaceChar(b, c, rep)
  {
    if a == "" {
      assert a + b == b;
    } else {
      assert (a + b)[0] == a[0] && (a + b)[1..] == a[1..] + b;
      ReplaceCharAppend(a[1..], b, c, rep);
      Assoc(if a[0] == c then rep else [a[0]], ReplaceChar(a[1..], c, rep), ReplaceChar(b, c, rep));
    }
  }

  lemma ReplaceCharOne(c: char, d: char, rep: string)
    ensures ReplaceChar([c], d, rep) == if c == d then rep else [c]
  {
    assert [c][1..] == "" && rep + "" == rep && [c] + "" == [c];
  }

  lemma ReplaceCharTwo(a: char, b: char, d: char, rep: string)
    requires a != d && b != d
    ensures ReplaceChar([a, b], d, rep) == [a, b]
  {
    assert [a, b][1..] == [b];
    ReplaceCharOne(b, d, rep);
  }

  /** The chain of replacements on one character. */
  lemma EscapeOne(c: char)
    ensures PoEscape([c]) == EscapeChar(c)
  {
    ReplaceCharOne(c, '\\', "\\\\");
    if c == '\\' {
      ReplaceCharTwo('\\', '\\', '"', "\\\"");
      ReplaceCharTwo('\\', '\\', '\t', "\\t");
      ReplaceCharTwo('\\', '\\', '\r', "\\r");
      ReplaceCharTwo('\\', '\\', '\n', "\\n");
    } else {
      ReplaceCharOne(c, '"', "\\\"");
      if c == '"' {
        ReplaceCharTwo('\\', '"', '\t', "\\t");
        ReplaceCharTwo('\\', '"', '\r', "\\r");
        ReplaceCharTwo('\\', '"', '\n', "\\n");
      } else {
        EscapeSpace(c);
      }
    }
  }

  lemma EscapeSpace(c: char)
    requires c != '\\' && c != '"'
    ensures ReplaceChar(ReplaceChar(ReplaceChar([c], '\t', "\\t"), '\r', "\\r"), '\n', "\\n") == EscapeChar(c)
  {
    ReplaceCharOne(c, '\t', "\\t");
    if c == '\t' {
      ReplaceCharTwo('\\', 't', '\r', "\\r");
      ReplaceCharTwo('\\', 't', '\n', "\\n");
    } else {
      ReplaceCharOne(c, '\r', "\\r");
      if c == '\r' {
        ReplaceCharTwo('\\', 'r', '\n', "\\n");
      } else {
        ReplaceCharOne(c, '\n', "\\n");
      }
    }
  }

  lemma PoEscapeAppend(a: string, b: string)
    ensures PoEscape(a + b) == PoEscape(a) + PoEscape(b)
  {
    ReplaceCharAppend(a, b, '\\', "\\\\");
    var a1, b1 := ReplaceChar(a, '\\', "\\\\"), ReplaceChar(b, '\\', "\\\\");
    ReplaceCharAppend(a1, b1, '"', "\\\"");
    var a2, b2 := ReplaceChar(a1, '"', "\\\""), ReplaceChar(b1, '"', "\\\"");
    ReplaceCharAppend(a2, b2, '\t', "\\t");
    var a3, b3 := ReplaceChar(a2, '\t', "\\t"), ReplaceChar(b2, '\t', "\\t");
    ReplaceCharAppend(a3, b3, '\r', "\\r");
    ReplaceCharAppend(ReplaceChar(a3, '\r', "\\r"), ReplaceChar(b3, '\r', "\\r"), '\n', "\\n");
  }

  /** The five replacements in a row are one replacement per character. */
  lemma {:induction false} EscapeIsPerCharacter(s: string)
    ensures PoEscape(s) == EscapeAll(s)
  {
    if s != "" {
      EscapeOne(s[0]);
      PoEscapeAppend([s[0]], s[1..]);
      assert s == [s[0]] + s[1..];
      EscapeIsPerCharacter(s[1..]);
    }
  }

  function UnescapeChar(c: char): string {
    if c == 'n' then "\n" else if c == 't' then "\t" else if c == 'r' then "\r"
    else if c == '"' || c == '\\' then [c] else ['\\', c]
  }

  /** `_po_unescape`. */
  function PoUnescape(s: string): string
    decreases |s|
  {
    if s == "" then ""
    else if s[0] == '\\' && |s| >= 2 then UnescapeChar(s[1]) + PoUnescape(s[2..])
    else [s[0]] + PoUnescape(s[1..])
  }

  lemma UnescapeOne(c: char, rest: string)
    ensures PoUnescape(EscapeChar(c) + rest) == [c] + PoUnescape(rest)
  {
    var e := EscapeChar(c);
    var t := e + rest;
    assert t[|e|..] == rest && t[0] == e[0];
    if |e| == 2 { assert t[1] == e[1]; }
  }

  lemma {:induction false} UnescapeEscapeAll(s: string)
    ensures PoUnescape(EscapeAll(s)) == s
  {
    if s != "" {
      UnescapeEscapeAll(s[1..]);
      UnescapeOne(s[0], EscapeAll(s[1..]));
      assert s == [s[0]] + s[1..];
    }
  }

  /** Reading back what was written, for every text. */
  lemma UnescapeUndoesEscape(s: string)
    ensures PoUnescape(PoEscape(s)) == s
  {
    EscapeIsPerCharacter(s);
    UnescapeEscapeAll(s);
  }

  lemma {:induction false} EscapedIsOneLine(s: string)
    ensures '\n' !in EscapeAll(s) && '\r' !in EscapeAll(s)
  {
    if s != "" { EscapedIsOneLine(s[1..]); }
  }

  /** The loop of `_po_unescape`. */
  method UnescapeLoop(s: string) returns (out: string)
    ensures out == PoUnescape(s)
  {
    out := "";
    var i := 0;
    assert s[0..] == s;
    while i < |s|
      invariant i <= |s| && out + PoUnescape(s[i..]) == PoUnescape(s)
    {
      if s[i] == '\\' && i + 1 < |s| {
        assert s[i..][2..] == s[i + 2..];
        Assoc(out, UnescapeChar(s[i + 1]), PoUnescape(s[i + 2..]));
        out := out + UnescapeChar(s[i + 1]);
        i := i + 2;
      } else {
        assert s[i..][1..] == s[i + 1..];
        Assoc(out, [s[i]], PoUnescape(s[i + 1..]));
        out := out + [s[i]];
        i := i + 1;
      }
    }
    assert s[i..] == "" && out + "" == out;
  }

  // ------------------------------------------------------------------ the kinds of lines

  /** A comment, a field with the text between its quotes, a continuation, or something else. */
  datatype Kind = Note | Field(name: string, text: string) | More(text: string) | Other

  /** The end of the digits from i on. */
  function DigitsEnd(s: string, i: nat): (r: nat)
    requires i <= |s|
    ensures i <= r <= |s|
    decreases |s| - i
  {
    if i < |s| && IsDigit(s[i]) then DigitsEnd(s, i + 1) else i
  }

  /** The length of the field name at the front, if there is one. */
  function NameLength(s: string): (r: Option<nat>)
    ensures r.Some? ==> 0 < r.value <= |s| && s[0] == 'm'
  {
    if StartsAt(s, 0, "msgctxt") then assert s[0] == s[0..7][0]; Some(7)
    else if StartsAt(s, 0, "msgid_plural") then assert s[0] == s[0..12][0]; Some(12)
    else if StartsAt(s, 0, "msgid") then assert s[0] == s[0..5][0]; Some(5)
    else if StartsAt(s, 0, "msgstr") then
      assert s[0] == s[0..6][0];
      var e := if 6 < |s| && s[6] == '[' then DigitsEnd(s, 7) else 6;
      if e > 7 && e < |s| && s[e] == ']' then Some(e + 1) else Some(6)
    else None
  }

  /** The text between the quote at q and a quote behind which there is only white space. */
  function Quoted(s: string, q: nat): Option<string> {
    var e := SpaceStart(s, |s|);
    if q + 1 < e && s[q] == '"' && s[e - 1] == '"' then Some(s[q + 1..e - 1]) else None
  }

  function FieldLine(s: string): Option<(string, string)> {
    var n := NameLength(s);
    if n.None? || SpaceEnd(s, n.value) == n.value then None
    else
      var body := Quoted(s, SpaceEnd(s, n.value));
      if body.None? then None else Some((s[..n.value], body.value))
  }

  function KindOf(s: string): Kind {
    if s != "" && s[0] == '#' then Note
    else
      var f := FieldLine(s);
      if f.Some? then Field(f.value.0, f.value.1)
      else if Quoted(s, 0).Some? then More(Quoted(s, 0).value)
      else Other
  }

  function WriteField(name: string, body: string): string { name + " \"" + body + "\"" }

  function WriteMore(body: string): string { "\"" + body + "\"" }

  lemma QuotedAt(s: string, q: nat, body: string)
    requires q + |body| + 2 == |s| && s[q] == '"' && s[|s| - 1] == '"' && s[q + 1..|s| - 1] == body
    ensures Quoted(s, q) == Some(body)
  {
    assert SpaceStart(s, |s|) == |s|;
  }

  lemma KindOfMore(body: string)
    ensures KindOf(WriteMore(body)) == More(body)
  {
    var s := WriteMore(body);
    assert s[0] == '"' && s[|s| - 1] == '"' && s[1..|s| - 1] == body;
    QuotedAt(s, 0, body);
  }

  /** The three fields the editor writes. */
  predicate IsFieldName(name: string) { name == "msgctxt" || name == "msgid" || name == "msgstr" }

  lemma NameLengthOf(name: string, rest: string)
    requires IsFieldName(name) && rest != "" && rest[0] == ' '
    ensures NameLength(name + rest) == Some(|name|)
  {
    var s := name + rest;
    assert s[0..|name|] == name && s[|name|] == ' ';
    assert |s| >= 12 ==> s[0..12][5] == s[5];
    assert |s| >= 7 ==> s[0..7][5] == s[5] && s[0..7][3] == s[3];
    assert |s| >= 12 ==> s[0..12][3] == s[3];
    assert s[0..5][3] == s[3];
    assert name[3] == s[3];
  }

  lemma FieldParts(name: string, body: string)
    ensures var s, n := WriteField(name, body), |name|;
            && s[..n] == name && |s| == n + |body| + 3 && s[n] == ' ' && s[n + 1] == '"' && s[|s| - 1] == '"'
            && s[n + 2..|s| - 1] == body
            && s == name + s[n..]
  {
  }

  lemma KindOfField(name: string, body: string)
    requires IsFieldName(name)
    ensures KindOf(WriteField(name, body)) == Field(name, body)
  {
    var s, n := WriteField(name, body), |name|;
    FieldParts(name, body);
    NameLengthOf(name, s[n..]);
    assert SpaceEnd(s, n) == n + 1;
    QuotedAt(s, n + 1, body);
  }
}

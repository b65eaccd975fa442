/** The lines of a .po entry (tools/i18n_master.py), in the terms of the format: which lines are fields and
    continuations, what an escaped text stands for, and how the text of a field is laid out. */
module PoLines {
  import opened Text
  import opened PoText
  import opened PoEntry

  // ------------------------------------------------------------------ fields and continuations

  predicate IsName(n: string) {
    n == "msgctxt" || n == "msgid" || n == "msgid_plural" || n == "msgstr"
    || (|n| > 8 && n == "msgstr[" + n[7..|n| - 1] + "]" && AllDigits(n[7..|n| - 1]))
  }

  /** A text between quotes, behind n and a gap, and in front of more white space. */
  predicate Laid(s: string, n: string, gap: string, text: string, rest: string) {
    s == n + gap + ("\"" + text + "\"" + rest) && AllSpace(gap) && AllSpace(rest)
  }

  ghost predicate IsField(s: string, n: string, text: string) {
    IsName(n) && exists gap, rest :: gap != "" && Laid(s, n, gap, text, rest)
  }

  ghost predicate IsMore(s: string, text: string) { exists rest :: Laid(s, "", "", text, rest) }

  lemma NameHasNoSpace(n: string)
    requires IsName(n)
    ensures n[0] == 'm' && forall i :: 0 <= i < |n| ==> !IsSpace(n[i])
  {
    if |n| > 8 && n == "msgstr[" + n[7..|n| - 1] + "]" {
      var d := n[7..|n| - 1];
      forall i | 0 <= i < |n| ensures !IsSpace(n[i]) { if 7 <= i < |n| - 1 { assert n[i] == d[i - 7]; } }
    }
  }

  /** A quoted text is found exactly where it stands. */
  lemma QuotedIff(s: string, q: nat, text: string)
    requires q < |s|
    ensures Quoted(s, q) == Some(text)
            <==> s[q] == '"' && exists rest :: AllSpace(rest) && s[q..] == "\"" + text + "\"" + rest
  {
    var e := SpaceStart(s, |s|);
    if Quoted(s, q) == Some(text) {
      var rest := s[e..];
      assert AllSpace(rest) && s[q..] == "\"" + text + "\"" + rest;
    }
    if rest :| AllSpace(rest) && s[q..] == "\"" + text + "\"" + rest {
      QuotedStands(s, q, text, rest);
    }
  }

  lemma QuotedStands(s: string, q: nat, text: string, rest: string)
    requires q < |s| && AllSpace(rest) && s[q..] == "\"" + text + "\"" + rest
    ensures Quoted(s, q) == Some(text)
  {
    var t, m := s[q..], q + |text| + 2;
    assert |s| == m + |rest| && t[0] == '"' && t[|text| + 1] == '"';
    assert forall k :: m <= k < |s| ==> s[k] == t[k - q] == rest[k - m];
    assert s[m - 1] == '"';
    assert SpaceStart(s, |s|) == m;
    assert s[q + 1..m - 1] == t[1..|text| + 1] == text;
  }

  lemma DigitsEndAt(s: string, i: nat, e: nat)
    requires i <= e < |s| && !IsDigit(s[e]) && forall k :: i <= k < e ==> IsDigit(s[k])
    ensures DigitsEnd(s, i) == e
    decreases e - i
  {
    if i < e { DigitsEndAt(s, i + 1, e); }
  }

  lemma DigitsAreDigits(s: string, i: nat, k: nat)
    requires i <= |s| && i <= k < DigitsEnd(s, i)
    ensures IsDigit(s[k])
    decreases |s| - i
  {
    if i < k { DigitsAreDigits(s, i + 1, k); }
  }

  lemma NameLengthIsName(s: string)
    requires NameLength(s).Some?
    ensures IsName(s[..NameLength(s).value])
  {
    var n := s[..NameLength(s).value];
    if StartsAt(s, 0, "msgctxt") || StartsAt(s, 0, "msgid_plural") || StartsAt(s, 0, "msgid") {
    } else if |n| > 6 {
      var e := |n| - 1;
      assert e == DigitsEnd(s, 7);
      var d := n[7..e];
      forall i | 0 <= i < |d| ensures IsDigit(d[i]) { DigitsAreDigits(s, 7, 7 + i); }
      assert s[0..6] == "msgstr" == n[..6];
      assert n == "msgstr[" + d + "]";
    }
  }

  lemma NameFound(s: string, n: string)
    requires IsName(n) && |n| < |s| && s[..|n|] == n && IsSpace(s[|n|])
    ensures NameLength(s) == Some(|n|)
  {
    var len := |n|;
    assert forall k :: 0 <= k < len ==> s[k] == n[k];
    assert StartsAt(s, 0, "msgid_plural") ==> s[0..12][5] == s[5] && s[0..12][3] == s[3];
    assert StartsAt(s, 0, "msgctxt") ==> s[0..7][3] == s[3] && s[0..7][5] == s[5];
    assert StartsAt(s, 0, "msgid") ==> s[0..5][3] == s[3];
    if n == "msgctxt" || n == "msgid_plural" {
      assert s[0..len] == n;
    } else if n == "msgid" {
      assert s[0..5] == n && n[3] == 'i';
    } else {
      assert s[0..6] == n[..6] == "msgstr" && n[3] == 's';
      if len > 6 {
        var d := n[7..len - 1];
        assert forall k :: 7 <= k < len - 1 ==> s[k] == n[k] == d[k - 7];
        assert s[6] == '[' && s[len - 1] == ']';
        DigitsEndAt(s, 7, len - 1);
      }
    }
  }

  lemma ThreeParts(s: string, a: string, b: string, c: string)
    requires s == a + b + c
    ensures var m := |a| + |b|;
            && |s| == m + |c| && s[..|a|] == a && s[m..] == c
            && (forall k :: 0 <= k < |a| ==> s[k] == a[k]) && (forall k :: |a| <= k < m ==> s[k] == b[k - |a|])
  {
  }

  lemma FieldStands(s: string, n: string, gap: string, text: string, rest: string)
    requires IsName(n) && gap != "" && Laid(s, n, gap, text, rest)
    ensures KindOf(s) == Field(n, text)
  {
    var m := |n| + |gap|;
    NameHasNoSpace(n);
    var t := "\"" + text + "\"" + rest;
    assert |t| > 0 && t[0] == '"';
    ThreeParts(s, n, gap, t);
    assert s[m] == s[m..][0] && s[|n|] == gap[0] && s[0] == n[0];
    NameFound(s, n);
    SpaceEndAt(s, |n|, m);
    QuotedStands(s, m, text, rest);
  }

  lemma SpaceEndAt(s: string, i: nat, m: nat)
    requires i <= m < |s| && !IsSpace(s[m]) && forall k :: i <= k < m ==> IsSpace(s[k])
    ensures SpaceEnd(s, i) == m
  {
  }

  lemma CutTwice(s: string, a: nat, b: nat)
    requires a <= b <= |s|
    ensures s == s[..a] + s[a..b] + s[b..]
  {
  }

  lemma NameAndGap(s: string, n: string, text: string) returns (m: nat)
    requires KindOf(s) == Field(n, text)
    ensures |n| < m < |s| && IsName(n) && s[..|n|] == n && AllSpace(s[|n|..m]) && Quoted(s, m) == Some(text)
  {
    assert FieldLine(s) == Some((n, text));
    NameLengthIsName(s);
    m := SpaceEnd(s, NameLength(s).value);
    assert Quoted(s, m).Some? ==> m < |s|;
  }

  lemma FieldFound(s: string, n: string, text: string)
    requires KindOf(s) == Field(n, text)
    ensures IsField(s, n, text)
  {
    var m := NameAndGap(s, n, text);
    QuotedIff(s, m, text);
    var rest :| AllSpace(rest) && s[m..] == "\"" + text + "\"" + rest;
    CutTwice(s, |n|, m);
    assert Laid(s, n, s[|n|..m], text, rest);
  }

  /** A line is a field exactly when it is a field name, white space, a quoted text and nothing but white space. */
  lemma FieldIff(s: string, n: string, text: string)
    ensures KindOf(s) == Field(n, text) <==> IsField(s, n, text)
  {
    if KindOf(s) == Field(n, text) { FieldFound(s, n, text); }
    if IsField(s, n, text) {
      var gap, rest :| gap != "" && Laid(s, n, gap, text, rest);
      FieldStands(s, n, gap, text, rest);
    }
  }

  lemma MoreStands(s: string, text: string, rest: string)
    requires Laid(s, "", "", text, rest)
    ensures KindOf(s) == More(text)
  {
    var t := "\"" + text + "\"" + rest;
    assert s == t && s[0..] == s && s[0] == '"';
    QuotedStands(s, 0, text, rest);
    assert NameLength(s).None?;
  }

  /** A line goes on with a field exactly when it is a quoted text and nothing but white space. */
  lemma MoreIff(s: string, text: string)
    ensures KindOf(s) == More(text) <==> IsMore(s, text)
  {
    if KindOf(s) == More(text) {
      QuotedIff(s, 0, text);
      var rest :| AllSpace(rest) && s[0..] == "\"" + text + "\"" + rest;
      assert s == s[0..] && Laid(s, "", "", text, rest);
    }
    if IsMore(s, text) {
      var rest :| Laid(s, "", "", text, rest);
      MoreStands(s, text, rest);
    }
  }

  // ------------------------------------------------------------------ what an escaped text stands for

  /** Characters of an escaped text that stand for something together. */
  datatype Unit = Unit(text: string, value: string)

  /** A backslash and one of five characters stand for one character; everything else stands for itself, a backslash
      together with the character behind it, if there is one. */
  predicate IsUnit(u: Unit, last: bool) {
    || (u.text == "\\n" && u.value == "\n") || (u.text == "\\t" && u.value == "\t")
    || (u.text == "\\r" && u.value == "\r") || (u.text == "\\\"" && u.value == "\"")
    || (u.text == "\\\\" && u.value == "\\")
    || (|u.text| == 2 && u.text[0] == '\\' && u.text[1] !in "ntr\"\\" && u.value == u.text)
    || (|u.text| == 1 && (u.text != "\\" || last) && u.value == u.text)
  }

  ghost predicate AllUnits(us: seq<Unit>) { forall i :: 0 <= i < |us| ==> IsUnit(us[i], i == |us| - 1) }

  function Texts(us: seq<Unit>): string { if us == [] then "" else us[0].text + Texts(us[1..]) }

  function Values(us: seq<Unit>): string { if us == [] then "" else us[0].value + Values(us[1..]) }

  lemma UnitStep(u: Unit, rest: string)
    requires IsUnit(u, rest == "")
    ensures PoUnescape(u.text + rest) == u.value + PoUnescape(rest)
  {
    var s := u.text + rest;
    assert s[|u.text|..] == rest && s[0] == u.text[0];
    if |u.text| == 2 { assert s[1] == u.text[1]; }
  }

  lemma {:induction false} UnitsRead(us: seq<Unit>)
    requires AllUnits(us)
    ensures PoUnescape(Texts(us)) == Values(us)
    decreases |us|
  {
    if us != [] {
      var rest := us[1..];
      assert forall i :: 0 <= i < |rest| ==> rest[i] == us[i + 1];
      UnitsRead(rest);
      if rest != [] { assert IsUnit(rest[0], |rest| == 1); }
      UnitStep(us[0], Texts(rest));
    }
  }

  lemma {:induction false} UnitsOf(s: string) returns (us: seq<Unit>)
    ensures AllUnits(us) && Texts(us) == s && Values(us) == PoUnescape(s)
    decreases |s|
  {
    if s == "" {
      us := [];
    } else {
      var n := if s[0] == '\\' && |s| >= 2 then 2 else 1;
      var u := Unit(s[..n], if n == 2 then UnescapeChar(s[1]) else s[..1]);
      var rest := UnitsOf(s[n..]);
      us := [u] + rest;
      UnitAt(s);
      assert s == u.text + s[n..];
      UnitsCons(u, rest, |s| == n);
    }
  }

  lemma UnitsCons(u: Unit, rest: seq<Unit>, last: bool)
    requires AllUnits(rest) && IsUnit(u, last) && (last ==> Texts(rest) == "")
    ensures AllUnits([u] + rest)
    ensures Texts([u] + rest) == u.text + Texts(rest) && Values([u] + rest) == u.value + Values(rest)
  {
    var us := [u] + rest;
    assert us[1..] == rest && forall i :: 0 < i < |us| ==> us[i] == rest[i - 1];
    if rest != [] { assert IsUnit(rest[0], |rest| == 1) && rest[0].text != ""; }
  }

  lemma UnitAt(s: string)
    requires s != ""
    ensures var n := if s[0] == '\\' && |s| >= 2 then 2 else 1;
            IsUnit(Unit(s[..n], if n == 2 then UnescapeChar(s[1]) else s[..1]), |s| == n)
  {
    if s[0] == '\\' && |s| >= 2 { assert s[..2] == ['\\', s[1]]; } else { assert s[..1] == [s[0]]; }
  }

  /** An escaped text stands for t exactly when its units stand for t. */
  lemma UnescapeIff(s: string, t: string)
    ensures PoUnescape(s) == t <==> exists us :: AllUnits(us) && Texts(us) == s && Values(us) == t
  {
    if PoUnescape(s) == t { var us := UnitsOf(s); }
    if us :| AllUnits(us) && Texts(us) == s && Values(us) == t { UnitsRead(us); }
  }

  // ------------------------------------------------------------------ how a field is laid out

  /** A text without the line ends at its end. */
  function Trimmed(s: string): string {
    if s != "" && s[|s| - 1] == '\n' then Trimmed(s[..|s| - 1]) else s
  }

  lemma {:induction false} TrimmedIff(s: string)
    ensures '\n' in Trimmed(s) <==> exists i, j :: 0 <= i < j < |s| && s[i] == '\n' && s[j] != '\n'
    decreases |s|
  {
    if s != "" && s[|s| - 1] == '\n' {
      var t := s[..|s| - 1];
      TrimmedIff(t);
      if i, j :| 0 <= i < j < |s| && s[i] == '\n' && s[j] != '\n' { assert t[i] == '\n' && t[j] != '\n'; }
      if i, j :| 0 <= i < j < |t| && t[i] == '\n' && t[j] != '\n' { assert s[i] == '\n' && s[j] != '\n'; }
    } else if '\n' in s {
      var i :| 0 <= i < |s| && s[i] == '\n';
      assert s[|s| - 1] != '\n' && i < |s| - 1;
    }
  }

  /** A line of a text: it ends at its only line end. */
  predicate IsLine(l: string, last: bool) {
    && l != "" && (forall i :: 0 <= i < |l| - 1 ==> l[i] != '\n') && (!last ==> l[|l| - 1] == '\n')
  }

  ghost predicate AreLines(ls: seq<string>) { forall i :: 0 <= i < |ls| ==> IsLine(ls[i], i == |ls| - 1) }

  lemma {:induction false} LineLengthIs(s: string)
    requires s != ""
    ensures IsLine(s[..LineLength(s)], LineLength(s) == |s|)
  {
    var n := LineLength(s);
    if s[0] != '\n' && |s| > 1 {
      LineLengthIs(s[1..]);
      var l, m := s[..n], s[1..][..n - 1];
      assert forall i :: 1 <= i < n ==> l[i] == m[i - 1];
    }
  }

  lemma {:induction false} ChunksAreLines(s: string)
    ensures AreLines(Chunks(s)) && (s != "" ==> Chunks(s) != [])
    decreases |s|
  {
    if s != "" {
      var n := LineLength(s);
      LineLengthIs(s);
      ChunksAreLines(s[n..]);
      var rest := Chunks(s[n..]);
      assert rest == [] ==> n == |s|;
      forall i | 0 <= i < |rest| + 1 ensures IsLine(([s[..n]] + rest)[i], i == |rest|) {
        if i > 0 { assert ([s[..n]] + rest)[i] == rest[i - 1]; }
      }
    }
  }

  lemma {:induction false} MoreLinesAt(parts: seq<string>, i: nat)
    requires i < |parts|
    ensures |MoreLines(parts)| == |parts| && MoreLines(parts)[i] == "\"" + PoEscape(parts[i]) + "\""
  {
    if i > 0 { MoreLinesAt(parts[1..], i - 1); } else if |parts| > 1 { MoreLinesAt(parts[1..], 0); }
  }

  /** An empty text, and the lines of the value below it. */
  ghost predicate InLines(ls: seq<string>, name: string, value: string, parts: seq<string>) {
    && AreLines(parts) && Flat(parts) == value && |ls| == |parts| + 1 && ls[0] == name + " \"\""
    && forall i :: 0 <= i < |parts| ==> ls[i + 1] == "\"" + PoEscape(parts[i]) + "\""
  }

  lemma LongField(name: string, value: string)
    requires IsLong(value)
    ensures InLines(PoField(name, value), name, value, Chunks(value))
  {
    var parts := Chunks(value);
    FlatChunks(value);
    ChunksAreLines(value);
    var more := MoreLines(parts);
    forall i | 0 <= i < |parts| ensures |more| == |parts| && more[i] == "\"" + PoEscape(parts[i]) + "\"" {
      MoreLinesAt(parts, i);
    }
    NoText(name);
    assert PoField(name, value) == [WriteField(name, "")] + more;
  }

  lemma NoText(name: string)
    ensures WriteField(name, "") == name + " \"\""
  {
    assert " \"" + "" + "\"" == " \"\"";
  }

  /** A field is written on one line, unless the value is longer than 70 characters or has a line end that is not at
      its end: then its lines follow one by one. */
  lemma FieldIsWritten(name: string, value: string)
    ensures var ls := PoField(name, value);
            if |value| > 70 || '\n' in Trimmed(value) then exists parts :: InLines(ls, name, value, parts)
            else ls == [name + " \"" + PoEscape(value) + "\""]
  {
    TrimmedIff(value);
    if IsLong(value) { LongField(name, value); }
  }

  // ------------------------------------------------------------------ the comments of a new entry

  predicate IsNote(l: string) { l != "" && l[0] == '#' }

  lemma FieldHasNoNotes(name: string, value: string)
    requires IsFieldName(name)
    ensures forall i :: 0 <= i < |PoField(name, value)| ==> !IsNote(PoField(name, value)[i])
  {
    var ls := PoField(name, value);
    FieldIsWritten(name, value);
    forall i | 0 <= i < |ls| ensures !IsNote(ls[i]) { if i > 0 { FirstIsQuote(ls, name, value, i); } }
  }

  lemma FirstIsQuote(ls: seq<string>, name: string, value: string, i: nat)
    requires 0 < i < |ls| && exists parts :: InLines(ls, name, value, parts)
    ensures ls[i] != "" && ls[i][0] == '"'
  {
    var parts :| InLines(ls, name, value, parts);
    assert ls[i - 1 + 1] == "\"" + PoEscape(parts[i - 1]) + "\"";
  }

  /** The comments of a new entry are in front of everything else: the place, if there is one, and `python-format`, if
      it is a format. */
  lemma NewNotes(key: Key, value: string, location: string, pythonFormat: bool, l: string)
    requires IsNote(l)
    ensures var b := NewBlock(key, value, location, pythonFormat);
            && (l in b <==> (l == "#: " + location && location != "") || (l == "#, python-format" && pythonFormat))
            && forall i, j :: 0 <= i < j < |b| && IsNote(b[j]) ==> IsNote(b[i])
  {
    var c := Comments(location, pythonFormat);
    var x := if key.ctx != "" then PoField("msgctxt", key.ctx) else [];
    var m, v := PoField("msgid", key.msgid), PoField("msgstr", value);
    FieldHasNoNotes("msgctxt", key.ctx);
    FieldHasNoNotes("msgid", key.msgid);
    FieldHasNoNotes("msgstr", value);
    NotesFirst(c, x, m, v, l);
    assert IsNote("#: " + location) && IsNote("#, python-format");
    assert l in c <==> (l == "#: " + location && location != "") || (l == "#, python-format" && pythonFormat);
  }

  ghost predicate NoNotes(ls: seq<string>) { forall i :: 0 <= i < |ls| ==> !IsNote(ls[i]) }

  lemma NotesFirst(c: seq<string>, x: seq<string>, m: seq<string>, v: seq<string>, l: string)
    requires (forall i :: 0 <= i < |c| ==> IsNote(c[i])) && NoNotes(x) && NoNotes(m) && NoNotes(v) && IsNote(l)
    ensures var b := c + x + m + v;
            (l in b <==> l in c) && forall i, j :: 0 <= i < j < |b| && IsNote(b[j]) ==> IsNote(b[i])
  {
    var b := c + x + m + v;
    assert forall i :: 0 <= i < |c| ==> b[i] == c[i];
    forall j | |c| <= j < |b| ensures !IsNote(b[j]) {
      var w := x + m + v;
      assert b == c + w && b[j] == w[j - |c|];
    }
  }
}

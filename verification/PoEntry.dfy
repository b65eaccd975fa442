/** Entries of a .po file as blocks of lines (tools/i18n_master.py): writing fields, reading them, the key of an
    entry, and replacing its translation. */
module PoEntry {
  import opened Text
  import opened PoText

  // ------------------------------------------------------------------ writing a field

  /** How many characters up to and including the first line end. */
  function LineLength(s: string): (n: nat)
    ensures n <= |s| && (s != "" ==> n > 0)
  {
    if s == "" then 0 else if s[0] == '\n' then 1 else 1 + LineLength(s[1..])
  }

  /** The non-empty parts of `re.split(r"(?<=\n)", value)`. */
  function Chunks(s: string): seq<string>
    decreases |s|
  {
    if s == "" then [] else [s[..LineLength(s)]] + Chunks(s[LineLength(s)..])
  }

  function MoreLines(parts: seq<string>): seq<string> {
    if parts == [] then [] else [WriteMore(PoEscape(parts[0]))] + MoreLines(parts[1..])
  }

  /** A line end that is not one of those at the end: the test `"\n" in value.rstrip("\n")`. */
  predicate IsLong(value: string) {
    |value| > 70 || exists i, j :: 0 <= i < j < |value| && value[i] == '\n' && value[j] != '\n'
  }

  /** `_po_field`. */
  function PoField(name: string, value: string): (ls: seq<string>)
    ensures ls != []
  {
    if IsLong(value) then [WriteField(name, "")] + MoreLines(Chunks(value)) else [WriteField(name, PoEscape(value))]
  }

  // ------------------------------------------------------------------ reading a field

  /** The variables of the loop in `_field`. */
  datatype Scan = Scan(cur: Option<string>, val: Option<string>)

  const START := Scan(None, None)

  function Step(s: Scan, k: Kind, name: string): Scan {
    match k
    case Note => s.(cur := None)
    case Field(n, text) => Scan(Some(n), if n == name then Some(PoUnescape(text)) else s.val)
    case More(text) =>
      if s.cur == Some(name) then s.(val := Some((if s.val.Some? then s.val.value else "") + PoUnescape(text))) else s
    case Other => s
  }

  /** The loop over lines of which `kind` tells the kind. */
  function Run(kind: string -> Kind, ls: seq<string>, name: string, s: Scan): Scan
    decreases |ls|
  {
    if ls == [] then s else Run(kind, ls[1..], name, Step(s, kind(ls[0]), name))
  }

  /** `_field`. */
  function FieldValue(b: seq<string>, name: string): Option<string> { Run(KindOf, b, name, START).val }

  method FieldLoop(b: seq<string>, name: string) returns (val: Option<string>)
    ensures val == FieldValue(b, name)
  {
    var s := START;
    assert b[0..] == b;
    for i := 0 to |b|
      invariant Run(KindOf, b[i..], name, s) == Run(KindOf, b, name, START)
    {
      assert b[i..][1..] == b[i + 1..];
      s := Step(s, KindOf(b[i]), name);
    }
    val := s.val;
  }

  lemma {:induction false} RunAppend(kind: string -> Kind, a: seq<string>, b: seq<string>, name: string, s: Scan)
    ensures Run(kind, a + b, name, s) == Run(kind, b, name, Run(kind, a, name, s))
    decreases |a|
  {
    if a == [] {
      assert a + b == b;
    } else {
      assert (a + b)[0] == a[0] && (a + b)[1..] == a[1..] + b;
      RunAppend(kind, a[1..], b, name, Step(s, kind(a[0]), name));
    }
  }

  // ------------------------------------------------------------------ reading back what was written

  /** Continuation lines add their text to the field that is being read, and to no other. */
  lemma {:induction false} RunMore(parts: seq<string>, name: string, s: Scan)
    requires s.cur.Some?
    ensures var r := Run(KindOf, MoreLines(parts), name, s);
            && r.cur == s.cur
            && (s.cur != Some(name) ==> r.val == s.val)
            && (s.cur == Some(name) && s.val.Some? ==> r.val == Some(s.val.value + Flat(parts)))
    decreases |parts|
  {
    if parts != [] {
      var rest := MoreLines(parts[1..]);
      var line := WriteMore(PoEscape(parts[0]));
      KindOfMore(PoEscape(parts[0]));
      UnescapeUndoesEscape(parts[0]);
      assert ([line] + rest)[1..] == rest;
      var s' := Step(s, KindOf(line), name);
      RunMore(parts[1..], name, s');
      if s.cur == Some(name) && s.val.Some? { Assoc(s.val.value, parts[0], Flat(parts[1..])); }
    } else if s.cur == Some(name) && s.val.Some? {
      assert s.val.value + "" == s.val.value;
    }
  }

  function Flat(parts: seq<string>): string {
    if parts == [] then "" else parts[0] + Flat(parts[1..])
  }

  lemma {:induction false} FlatChunks(s: string)
    ensures Flat(Chunks(s)) == s
    decreases |s|
  {
    if s != "" {
      var n := LineLength(s);
      FlatChunks(s[n..]);
      var rest := Chunks(s[n..]);
      assert ([s[..n]] + rest)[1..] == rest;
      assert s == s[..n] + s[n..];
    }
  }

  /** A written field is read back, whatever was read before; other fields keep their value. */
  lemma RunField(field: string, value: string, name: string, s: Scan)
    requires IsFieldName(field)
    ensures Run(KindOf, PoField(field, value), name, s)
            == Scan(Some(field), if field == name then Some(value) else s.val)
  {
    if IsLong(value) {
      var line, rest := WriteField(field, ""), MoreLines(Chunks(value));
      KindOfField(field, "");
      assert ([line] + rest)[1..] == rest;
      var s' := Step(s, KindOf(line), name);
      RunMore(Chunks(value), name, s');
      FlatChunks(value);
      assert "" + value == value;
    } else {
      var line := WriteField(field, PoEscape(value));
      KindOfField(field, PoEscape(value));
      UnescapeUndoesEscape(value);
      assert [line][1..] == [];
      assert Run(KindOf, [line], name, s) == Run(KindOf, [], name, Step(s, KindOf(line), name));
    }
  }

  // ------------------------------------------------------------------ well-formed entries

  /** Only comments, fields and continuations, and a continuation only behind a field or a continuation; `open` says
      whether one may come first. */
  ghost predicate WellFormed(kind: string -> Kind, ls: seq<string>, open: bool)
    decreases |ls|
  {
    ls == []
    || (!kind(ls[0]).Other? && (kind(ls[0]).More? ==> open) && WellFormed(kind, ls[1..], !kind(ls[0]).Note?))
  }

  lemma {:induction false} WellFormedAppend(kind: string -> Kind, a: seq<string>, b: seq<string>, open: bool)
    requires WellFormed(kind, a, open) && (forall o :: WellFormed(kind, b, o))
    ensures WellFormed(kind, a + b, open)
    decreases |a|
  {
    if a == [] {
      assert a + b == b;
    } else {
      assert (a + b)[0] == a[0] && (a + b)[1..] == a[1..] + b;
      WellFormedAppend(kind, a[1..], b, !kind(a[0]).Note?);
    }
  }

  lemma {:induction false} MoreLinesWellFormed(parts: seq<string>)
    ensures WellFormed(KindOf, MoreLines(parts), true)
    decreases |parts|
  {
    if parts != [] {
      KindOfMore(PoEscape(parts[0]));
      MoreLinesWellFormed(parts[1..]);
      assert MoreLines(parts)[1..] == MoreLines(parts[1..]);
    }
  }

  lemma FieldWellFormed(field: string, value: string, open: bool)
    requires IsFieldName(field)
    ensures WellFormed(KindOf, PoField(field, value), open)
  {
    var ls := PoField(field, value);
    KindOfField(field, if IsLong(value) then "" else PoEscape(value));
    if IsLong(value) {
      MoreLinesWellFormed(Chunks(value));
      assert ls[1..] == MoreLines(Chunks(value));
    } else {
      assert ls[1..] == [];
    }
  }

  // ------------------------------------------------------------------ replacing the translation

  /** How the loop of `_with_msgstr` treats a line: a flags line with `fuzzy` and what is left of it, the start of a
      translation, a quoted line, or any other. */
  datatype Class = Fuzzy(rest: Option<string>) | Msgstr | Quote | Plain

  function JoinFlags(fs: seq<string>): string {
    if fs == [] then "" else if |fs| == 1 then fs[0] else fs[0] + ", " + JoinFlags(fs[1..])
  }

  function KeepFlags(fs: seq<string>): seq<string> {
    if fs == [] then []
    else (if Strip(fs[0]) != "" && Strip(fs[0]) != "fuzzy" then [Strip(fs[0])] else []) + KeepFlags(fs[1..])
  }

  function FlagsLeft(line: string): Option<string>
    requires |line| >= 2
  {
    var flags := KeepFlags(Split(line[2..], ','));
    if flags == [] then None else Some("#, " + JoinFlags(flags))
  }

  function ClassOf(line: string): Class {
    if StartsAt(line, 0, "#,") && Occurs("fuzzy", line) then Fuzzy(FlagsLeft(line))
    else if StartsAt(line, 0, "msgstr") then Msgstr
    else if line != "" && line[0] == '"' then Quote
    else Plain
  }

  /** The loop of `_with_msgstr`. */
  function Filter(cl: string -> Class, ls: seq<string>, skipping: bool): seq<string>
    decreases |ls|
  {
    if ls == [] then []
    else match cl(ls[0])
      case Fuzzy(rest) => (if rest.Some? then [rest.value] else []) + Filter(cl, ls[1..], skipping)
      case Msgstr => Filter(cl, ls[1..], true)
      case Quote => if skipping then Filter(cl, ls[1..], true) else [ls[0]] + Filter(cl, ls[1..], false)
      case Plain => [ls[0]] + Filter(cl, ls[1..], false)
  }

  /** `_with_msgstr`. */
  function WithMsgstr(b: seq<string>, value: string): seq<string> {
    Filter(ClassOf, b, false) + PoField("msgstr", value)
  }

  /** What one round of the loop appends, and whether it is skipping afterwards. */
  function Treat(c: Class, line: string, skipping: bool): (seq<string>, bool) {
    match c
    case Fuzzy(rest) => (if rest.Some? then [rest.value] else [], skipping)
    case Msgstr => ([], true)
    case Quote => if skipping then ([], true) else ([line], false)
    case Plain => ([line], false)
  }

  lemma FilterStep(cl: string -> Class, b: seq<string>, skipping: bool)
    requires b != []
    ensures var t := Treat(cl(b[0]), b[0], skipping); Filter(cl, b, skipping) == t.0 + Filter(cl, b[1..], t.1)
  {
    var t := Treat(cl(b[0]), b[0], skipping);
    if t.0 == [] { assert [] + Filter(cl, b[1..], t.1) == Filter(cl, b[1..], t.1); }
  }

  method FilterLoop(cl: string -> Class, b: seq<string>) returns (out: seq<string>)
    ensures out == Filter(cl, b, false)
  {
    out := [];
    var skipping := false;
    assert b[0..] == b;
    for i := 0 to |b|
      invariant out + Filter(cl, b[i..], skipping) == Filter(cl, b, false)
    {
      assert b[i..][0] == b[i] && b[i..][1..] == b[i + 1..];
      FilterStep(cl, b[i..], skipping);
      var t := Treat(cl(b[i]), b[i], skipping);
      Assoc(out, t.0, Filter(cl, b[i + 1..], t.1));
      out, skipping := out + t.0, t.1;
    }
    assert out + [] == out;
  }

  method ReplaceMsgstr(b: seq<string>, value: string) returns (out: seq<string>)
    ensures out == WithMsgstr(b, value)
  {
    out := FilterLoop(ClassOf, b);
    out := out + PoField("msgstr", value);
  }

  /** The fields that make up the key. */
  predicate IsKeyField(name: string) { name == "msgctxt" || name == "msgid" }

  /** Kind and treatment of a line fit together. */
  ghost predicate Agree(kind: string -> Kind, cl: string -> Class, l: string) {
    !kind(l).Other? ==>
      && (cl(l).Fuzzy? ==> kind(l).Note? && (cl(l).rest.Some? ==> kind(cl(l).rest.value).Note?))
      && (cl(l).Msgstr? ==> kind(l).Field? && !IsKeyField(kind(l).name))
      && (cl(l).Quote? <==> kind(l).More?)
  }

  ghost predicate AllAgree(kind: string -> Kind, cl: string -> Class, ls: seq<string>) {
    forall i :: 0 <= i < |ls| ==> Agree(kind, cl, ls[i])
  }

  /** Taking out the translation changes neither the context nor the message of a well-formed entry. */
  lemma {:induction false} FilterKeepsKey(kind: string -> Kind, cl: string -> Class, ls: seq<string>, skipping: bool,
                                          open: bool, name: string, s: Scan, t: Scan)
    requires AllAgree(kind, cl, ls) && WellFormed(kind, ls, open) && IsKeyField(name) && s.val == t.val
    requires open ==> if skipping then s.cur != Some(name) else s.cur == t.cur
    ensures Run(kind, Filter(cl, ls, skipping), name, t).val == Run(kind, ls, name, s).val
    decreases |ls|
  {
    if ls != [] {
      var l, rest := ls[0], ls[1..];
      var s' := Step(s, kind(l), name);
      assert Agree(kind, cl, l);
      match cl(l)
      case Fuzzy(r) =>
        var f := Filter(cl, rest, skipping);
        if r.Some? {
          assert ([r.value] + f)[1..] == f;
          FilterKeepsKey(kind, cl, rest, skipping, false, name, s', Step(t, kind(r.value), name));
        } else {
          assert [] + f == f;
          FilterKeepsKey(kind, cl, rest, skipping, false, name, s', t);
        }
      case Msgstr =>
        FilterKeepsKey(kind, cl, rest, true, true, name, s', t);
      case Quote =>
        if skipping {
          FilterKeepsKey(kind, cl, rest, true, true, name, s', t);
        } else {
          KeptLine(kind, cl, l, rest, name, t);
          FilterKeepsKey(kind, cl, rest, false, true, name, s', Step(t, kind(l), name));
        }
      case Plain =>
        KeptLine(kind, cl, l, rest, name, t);
        FilterKeepsKey(kind, cl, rest, false, !kind(l).Note?, name, s', Step(t, kind(l), name));
    }
  }

  lemma KeptLine(kind: string -> Kind, cl: string -> Class, l: string, rest: seq<string>, name: string, t: Scan)
    ensures Run(kind, [l] + Filter(cl, rest, false), name, t)
            == Run(kind, Filter(cl, rest, false), name, Step(t, kind(l), name))
  {
    var f := Filter(cl, rest, false);
    assert ([l] + f)[1..] == f;
  }

  /** What is left is well formed. */
  lemma {:induction false} FilterWellFormed(kind: string -> Kind, cl: string -> Class, ls: seq<string>, skipping: bool,
                                            open: bool, open': bool)
    requires AllAgree(kind, cl, ls) && WellFormed(kind, ls, open) && (open && !skipping ==> open')
    ensures WellFormed(kind, Filter(cl, ls, skipping), open')
    decreases |ls|
  {
    if ls != [] {
      var l, rest := ls[0], ls[1..];
      assert Agree(kind, cl, l);
      match cl(l)
      case Fuzzy(r) =>
        var f := Filter(cl, rest, skipping);
        if r.Some? {
          assert ([r.value] + f)[1..] == f;
          FilterWellFormed(kind, cl, rest, skipping, false, false);
        } else {
          assert [] + f == f;
          FilterWellFormed(kind, cl, rest, skipping, false, open');
        }
      case Msgstr =>
        FilterWellFormed(kind, cl, rest, true, true, open');
      case Quote =>
        if skipping {
          FilterWellFormed(kind, cl, rest, true, true, open');
        } else {
          var f := Filter(cl, rest, false);
          assert ([l] + f)[1..] == f;
          FilterWellFormed(kind, cl, rest, false, true, true);
        }
      case Plain =>
        var f := Filter(cl, rest, false);
        assert ([l] + f)[1..] == f;
        FilterWellFormed(kind, cl, rest, false, !kind(l).Note?, !kind(l).Note?);
    }
  }

  lemma MsgstrLine(l: string)
    requires StartsAt(l, 0, "msgstr") && !KindOf(l).Other?
    ensures KindOf(l).Field? && !IsKeyField(KindOf(l).name)
  {
    StartsAtChars(l, 0, "msgstr");
    assert l[0 + 0] == 'm' && l[0 + 3] == 's';
    var n := NameLength(l);
    assert |l| >= 7 ==> l[0..7][3] == l[3];
    assert l[0..5][3] == l[3];
    assert |l| >= 12 ==> l[0..12][3] == l[3];
    assert n.Some? && n.value >= 6;
    assert l[..n.value][3] == l[3];
  }

  lemma FuzzyLine(l: string)
    requires StartsAt(l, 0, "#,")
    ensures KindOf(l).Note? && (FlagsLeft(l).Some? ==> KindOf(FlagsLeft(l).value).Note?)
  {
    assert l[0] == l[0..2][0];
  }

  lemma LinesAgree(l: string)
    ensures Agree(KindOf, ClassOf, l)
  {
    if StartsAt(l, 0, "#,") { FuzzyLine(l); }
    if StartsAt(l, 0, "msgstr") && !KindOf(l).Other? {
      MsgstrLine(l);
      StartsAtChars(l, 0, "msgstr");
      assert l[0 + 0] == 'm';
    }
  }

  // ------------------------------------------------------------------ keys

  datatype Key = Key(ctx: string, msgid: string)

  predicate AllNotes(b: seq<string>) { forall i :: 0 <= i < |b| ==> b[i] != "" && b[i][0] == '#' }

  /** `_block_key`. */
  function KeyOf(b: seq<string>): Option<Key> {
    if AllNotes(b) then None
    else
      var mid, ctx := FieldValue(b, "msgid"), FieldValue(b, "msgctxt");
      if mid.None? || mid.value == "" then None else Some(Key(if ctx.Some? then ctx.value else "", mid.value))
  }

  lemma {:induction false} NotesHaveNoFields(b: seq<string>, name: string, s: Scan)
    requires AllNotes(b)
    ensures Run(KindOf, b, name, s).val == s.val
    decreases |b|
  {
    if b != [] { NotesHaveNoFields(b[1..], name, Step(s, KindOf(b[0]), name)); }
  }

  /** The key is determined by the two fields. */
  lemma SameFieldsSameKey(a: seq<string>, b: seq<string>)
    requires FieldValue(a, "msgid") == FieldValue(b, "msgid") && FieldValue(a, "msgctxt") == FieldValue(b, "msgctxt")
    ensures KeyOf(a) == KeyOf(b)
  {
    if AllNotes(a) { NotesHaveNoFields(a, "msgid", START); }
    if AllNotes(b) { NotesHaveNoFields(b, "msgid", START); }
  }

  lemma WithMsgstrField(b: seq<string>, value: string, name: string)
    requires WellFormed(KindOf, b, false) && IsKeyField(name)
    ensures FieldValue(WithMsgstr(b, value), name) == FieldValue(b, name)
  {
    forall i | 0 <= i < |b| ensures Agree(KindOf, ClassOf, b[i]) { LinesAgree(b[i]); }
    var f := Filter(ClassOf, b, false);
    FilterKeepsKey(KindOf, ClassOf, b, false, false, name, START, START);
    RunAppend(KindOf, f, PoField("msgstr", value), name, START);
    RunField("msgstr", value, name, Run(KindOf, f, name, START));
  }

  /** A new translation is read back, and the entry keeps its key and stays well formed. */
  lemma WithMsgstrOk(b: seq<string>, value: string)
    requires WellFormed(KindOf, b, false)
    ensures FieldValue(WithMsgstr(b, value), "msgstr") == Some(value)
    ensures KeyOf(WithMsgstr(b, value)) == KeyOf(b)
    ensures WellFormed(KindOf, WithMsgstr(b, value), false)
  {
    var f, field := Filter(ClassOf, b, false), PoField("msgstr", value);
    RunAppend(KindOf, f, field, "msgstr", START);
    RunField("msgstr", value, "msgstr", Run(KindOf, f, "msgstr", START));
    WithMsgstrField(b, value, "msgid");
    WithMsgstrField(b, value, "msgctxt");
    SameFieldsSameKey(WithMsgstr(b, value), b);
    forall i | 0 <= i < |b| ensures Agree(KindOf, ClassOf, b[i]) { LinesAgree(b[i]); }
    FilterWellFormed(KindOf, ClassOf, b, false, false, false);
    forall o ensures WellFormed(KindOf, field, o) { FieldWellFormed("msgstr", value, o); }
    WellFormedAppend(KindOf, f, field, false);
  }

  // ------------------------------------------------------------------ new entries

  function Comments(location: string, pythonFormat: bool): seq<string> {
    (if location != "" then ["#: " + location] else []) + (if pythonFormat then ["#, python-format"] else [])
  }

  /** The lines `set` appends for a new key. */
  function NewBlock(key: Key, value: string, location: string, pythonFormat: bool): seq<string> {
    Comments(location, pythonFormat) + (if key.ctx != "" then PoField("msgctxt", key.ctx) else [])
    + PoField("msgid", key.msgid) + PoField("msgstr", value)
  }

  lemma CommentsAreNotes(location: string, pythonFormat: bool)
    ensures AllNotes(Comments(location, pythonFormat))
  {
    assert ("#: " + location)[0] == '#' && "#, python-format"[0] == '#';
  }

  lemma {:induction false} NotesWellFormed(b: seq<string>, open: bool)
    requires AllNotes(b)
    ensures WellFormed(KindOf, b, open)
    decreases |b|
  {
    if b != [] { NotesWellFormed(b[1..], false); }
  }

  /** The value of a field in a new entry. */
  lemma NewBlockField(key: Key, value: string, location: string, pythonFormat: bool, name: string)
    requires IsFieldName(name)
    ensures FieldValue(NewBlock(key, value, location, pythonFormat), name)
            == if name == "msgstr" then Some(value) else if name == "msgid" then Some(key.msgid)
               else if key.ctx != "" then Some(key.ctx) else None
  {
    var c := Comments(location, pythonFormat);
    var x := if key.ctx != "" then PoField("msgctxt", key.ctx) else [];
    var m, v := PoField("msgid", key.msgid), PoField("msgstr", value);
    CommentsAreNotes(location, pythonFormat);
    NotesHaveNoFields(c, name, START);
    var s1 := Run(KindOf, c, name, START);
    RunAppend(KindOf, c, x, name, START);
    if key.ctx != "" { RunField("msgctxt", key.ctx, name, s1); }
    var s2 := Run(KindOf, c + x, name, START);
    RunAppend(KindOf, c + x, m, name, START);
    RunField("msgid", key.msgid, name, s2);
    RunAppend(KindOf, c + x + m, v, name, START);
    RunField("msgstr", value, name, Run(KindOf, c + x + m, name, START));
  }

  lemma NewBlockWellFormed(key: Key, value: string, location: string, pythonFormat: bool)
    ensures WellFormed(KindOf, NewBlock(key, value, location, pythonFormat), false)
  {
    var c := Comments(location, pythonFormat);
    var x := if key.ctx != "" then PoField("msgctxt", key.ctx) else [];
    var m, v := PoField("msgid", key.msgid), PoField("msgstr", value);
    CommentsAreNotes(location, pythonFormat);
    NotesWellFormed(c, false);
    forall o ensures WellFormed(KindOf, x, o) && WellFormed(KindOf, m, o) && WellFormed(KindOf, v, o) {
      if key.ctx != "" { FieldWellFormed("msgctxt", key.ctx, o); }
      FieldWellFormed("msgid", key.msgid, o);
      FieldWellFormed("msgstr", value, o);
    }
    WellFormedAppend(KindOf, c, x, false);
    WellFormedAppend(KindOf, c + x, m, false);
    WellFormedAppend(KindOf, c + x + m, v, false);
  }

  /** A new entry has the key and the value it was made for; with an empty message it has no key and is not found
      again. */
  lemma NewBlockOk(key: Key, value: string, location: string, pythonFormat: bool)
    ensures var b := NewBlock(key, value, location, pythonFormat);
            && KeyOf(b) == (if key.msgid == "" then None else Some(key))
            && FieldValue(b, "msgstr") == Some(value) && WellFormed(KindOf, b, false)
  {
    NewBlockField(key, value, location, pythonFormat, "msgid");
    NewBlockField(key, value, location, pythonFormat, "msgctxt");
    NewBlockField(key, value, location, pythonFormat, "msgstr");
    NewBlockWellFormed(key, value, location, pythonFormat);
    var b := NewBlock(key, value, location, pythonFormat);
    if AllNotes(b) { NotesHaveNoFields(b, "msgid", START); }
  }

  // ------------------------------------------------------------------ the lines themselves

  predicate IsBlank(l: string) { Strip(l) == "" }

  /** One line of a block: no line end in it, not blank, and no carriage return at its end. */
  predicate Tidy(l: string) { l != "" && '\n' !in l && !IsBlank(l) && l[|l| - 1] != '\r' }

  ghost predicate AllTidy(ls: seq<string>) { Every(Tidy, ls) }

  lemma TidyFrom(l: string)
    requires l != "" && '\n' !in l && !IsSpace(l[0]) && l[|l| - 1] != '\r'
    ensures Tidy(l)
  {
    assert !AllSpace(l);
  }

  lemma FieldIsTidy(field: string, body: string)
    requires IsFieldName(field) && '\n' !in body
    ensures Tidy(WriteField(field, body))
  {
    var l := WriteField(field, body);
    assert l[0] == field[0] == 'm' && l[|l| - 1] == '"';
    TidyFrom(l);
  }

  lemma MoreIsTidy(body: string)
    requires '\n' !in body
    ensures Tidy(WriteMore(body))
  {
    var l := WriteMore(body);
    assert l[0] == '"' && l[|l| - 1] == '"';
    TidyFrom(l);
  }

  lemma EscapedHasNoLineEnd(s: string)
    ensures '\n' !in PoEscape(s)
  {
    EscapeIsPerCharacter(s);
    EscapedIsOneLine(s);
  }

  lemma {:induction false} MoreLinesTidy(parts: seq<string>)
    ensures AllTidy(MoreLines(parts))
    decreases |parts|
  {
    if parts != [] {
      EscapedHasNoLineEnd(parts[0]);
      MoreIsTidy(PoEscape(parts[0]));
      MoreLinesTidy(parts[1..]);
    }
  }

  lemma PoFieldTidy(field: string, value: string)
    requires IsFieldName(field)
    ensures AllTidy(PoField(field, value))
  {
    EscapedHasNoLineEnd(value);
    FieldIsTidy(field, if IsLong(value) then "" else PoEscape(value));
    MoreLinesTidy(Chunks(value));
  }

  lemma {:induction false} FilterKeeps(cl: string -> Class, p: string -> bool, ls: seq<string>, skipping: bool)
    requires forall i :: 0 <= i < |ls| ==> p(ls[i])
                                           && (cl(ls[i]).Fuzzy? && cl(ls[i]).rest.Some? ==> p(cl(ls[i]).rest.value))
    ensures Every(p, Filter(cl, ls, skipping))
    decreases |ls|
  {
    if ls != [] {
      FilterKeeps(cl, p, ls[1..], skipping);
      FilterKeeps(cl, p, ls[1..], true);
      FilterKeeps(cl, p, ls[1..], false);
    }
  }

  lemma {:induction false} SplitLacks(s: string, c: char, d: char)
    requires d !in s
    ensures forall k :: 0 <= k < |Split(s, c)| ==> d !in Split(s, c)[k]
  {
    if s != "" { SplitLacks(s[1..], c, d); }
  }

  /** Flags as they are written: not empty, stripped, on one line. */
  ghost predicate FlagsOk(fs: seq<string>) {
    forall k :: 0 <= k < |fs| ==> fs[k] != "" && '\n' !in fs[k] && !IsSpace(fs[k][|fs[k]| - 1])
  }

  lemma StrippedFlag(f: string)
    requires '\n' !in f && Strip(f) != ""
    ensures '\n' !in Strip(f) && !IsSpace(Strip(f)[|Strip(f)| - 1])
  {
    var a, b := SpaceEnd(f, 0), SpaceStart(f, |f|);
    assert Strip(f) == f[a..b] && f[a..b][b - a - 1] == f[b - 1];
  }

  lemma {:induction false} KeepFlagsOk(fs: seq<string>)
    requires forall k :: 0 <= k < |fs| ==> '\n' !in fs[k]
    ensures FlagsOk(KeepFlags(fs))
    decreases |fs|
  {
    if fs != [] {
      KeepFlagsOk(fs[1..]);
      if Strip(fs[0]) != "" { StrippedFlag(fs[0]); }
    }
  }

  lemma {:induction false} JoinFlagsOk(fs: seq<string>)
    requires fs != [] && FlagsOk(fs)
    ensures var r := JoinFlags(fs); r != "" && '\n' !in r && !IsSpace(r[|r| - 1])
    decreases |fs|
  {
    if |fs| > 1 {
      JoinFlagsOk(fs[1..]);
      var rest := JoinFlags(fs[1..]);
      var r := fs[0] + ", " + rest;
      assert r[|r| - 1] == rest[|rest| - 1];
    }
  }

  lemma FlagsAreTidy(l: string)
    requires Tidy(l) && |l| >= 2 && FlagsLeft(l).Some?
    ensures Tidy(FlagsLeft(l).value)
  {
    SplitLacks(l[2..], ',', '\n');
    var flags := KeepFlags(Split(l[2..], ','));
    KeepFlagsOk(Split(l[2..], ','));
    JoinFlagsOk(flags);
    var j := JoinFlags(flags);
    var r := "#, " + j;
    assert r[0] == '#' && r[|r| - 1] == j[|j| - 1];
    TidyFrom(r);
  }

  lemma WithMsgstrTidy(b: seq<string>, value: string)
    requires AllTidy(b)
    ensures AllTidy(WithMsgstr(b, value)) && WithMsgstr(b, value) != []
  {
    forall i | 0 <= i < |b| && ClassOf(b[i]).Fuzzy? && ClassOf(b[i]).rest.Some? ensures Tidy(ClassOf(b[i]).rest.value) {
      FlagsAreTidy(b[i]);
    }
    FilterKeeps(ClassOf, Tidy, b, false);
    PoFieldTidy("msgstr", value);
    EveryAppend(Tidy, Filter(ClassOf, b, false), PoField("msgstr", value));
  }

  ghost predicate OneLine(location: string) {
    location == "" || (('\n' !in location) && location[|location| - 1] != '\r')
  }

  lemma LocationIsTidy(location: string)
    requires location != "" && OneLine(location)
    ensures Tidy("#: " + location)
  {
    var l := "#: " + location;
    assert l[0] == '#' && l[|l| - 1] == location[|location| - 1];
    TidyFrom(l);
  }

  lemma CommentsTidy(location: string, pythonFormat: bool)
    requires OneLine(location)
    ensures AllTidy(Comments(location, pythonFormat))
  {
    if location != "" { LocationIsTidy(location); }
    var f := "#, python-format";
    assert f[0] == '#' && f[|f| - 1] == 't' && '\n' !in f;
    TidyFrom(f);
  }

  lemma NewBlockTidy(key: Key, value: string, location: string, pythonFormat: bool)
    requires OneLine(location)
    ensures AllTidy(NewBlock(key, value, location, pythonFormat)) && NewBlock(key, value, location, pythonFormat) != []
  {
    var c := Comments(location, pythonFormat);
    var x := if key.ctx != "" then PoField("msgctxt", key.ctx) else [];
    var m, v := PoField("msgid", key.msgid), PoField("msgstr", value);
    CommentsTidy(location, pythonFormat);
    PoFieldTidy("msgctxt", key.ctx);
    PoFieldTidy("msgid", key.msgid);
    PoFieldTidy("msgstr", value);
    EveryAppend(Tidy, c, x);
    EveryAppend(Tidy, c + x, m);
    EveryAppend(Tidy, c + x + m, v);
  }
}

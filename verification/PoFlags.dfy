/** What replacing a translation (`_with_msgstr` in tools/i18n_master.py) does to the other lines of an entry: of the
    flags it drops `fuzzy` and nothing else, and all lines that are no translation stay, in order. */
module PoFlags {
  import opened Text
  import opened PoText
  import opened PoEntry

  // ------------------------------------------------------------------ an entry without its translation

  predicate IsFlags(l: string) { |l| >= 2 && l[0] == '#' && l[1] == ',' }

  function Stripped(fs: seq<string>): seq<string> { seq(|fs|, i requires 0 <= i < |fs| => Strip(fs[i])) }

  /** The flags on a line: between the commas behind `#,`, stripped. */
  function FlagsOn(l: string): seq<string>
    requires IsFlags(l)
  {
    Stripped(Split(l[2..], ','))
  }

  /** Those that are flags and not `fuzzy`. */
  function OtherFlags(fs: seq<string>): seq<string> {
    if fs == [] then []
    else if fs[0] == "" || fs[0] == "fuzzy" then OtherFlags(fs[1..])
    else [fs[0]] + OtherFlags(fs[1..])
  }

  predicate IsFuzzy(b: seq<string>) { exists i :: 0 <= i < |b| && IsFlags(b[i]) && "fuzzy" in FlagsOn(b[i]) }

  /** What a line says besides `fuzzy` and the translation. */
  datatype Item = Line(text: string) | Flags(flags: seq<string>)

  function ItemsOn(l: string): seq<Item> {
    if !IsFlags(l) then [Line(l)]
    else if OtherFlags(FlagsOn(l)) == [] then []
    else [Flags(OtherFlags(FlagsOn(l)))]
  }

  /** A translation starts with `msgstr` and goes on with quoted lines. */
  predicate Translates(l: string, before: bool) {
    l != "" && ((|l| >= 6 && l[..6] == "msgstr") || (before && l[0] == '"'))
  }

  /** What the lines of an entry say besides `fuzzy` and the translation; `before` says whether the line in front
      belongs to a translation. */
  function Content(b: seq<string>, before: bool): seq<Item>
    decreases |b|
  {
    if b == [] then []
    else (if Translates(b[0], before) then [] else ItemsOn(b[0])) + Content(b[1..], Translates(b[0], before))
  }

  // ------------------------------------------------------------------ flags that were rewritten

  lemma {:induction false} KeptFlags(fs: seq<string>)
    ensures KeepFlags(fs) == OtherFlags(Stripped(fs))
    decreases |fs|
  {
    if fs != [] {
      KeptFlags(fs[1..]);
      assert Stripped(fs)[1..] == Stripped(fs[1..]);
    }
  }

  /** Flags as they are kept: not empty, not `fuzzy`, stripped, without commas. */
  ghost predicate Proper(fs: seq<string>) {
    forall k :: 0 <= k < |fs| ==> fs[k] != "" && fs[k] != "fuzzy" && Strip(fs[k]) == fs[k] && ',' !in fs[k]
  }

  lemma {:induction false} OtherFlagsProper(fs: seq<string>)
    requires forall k :: 0 <= k < |fs| ==> Strip(fs[k]) == fs[k] && ',' !in fs[k]
    ensures Proper(OtherFlags(fs))
    decreases |fs|
  {
    if fs != [] { OtherFlagsProper(fs[1..]); }
  }

  lemma {:induction false} ProperStay(fs: seq<string>)
    requires Proper(fs)
    ensures OtherFlags(fs) == fs
    decreases |fs|
  {
    if fs != [] { ProperStay(fs[1..]); }
  }

  lemma StripHasNoMore(f: string, c: char)
    requires c !in f
    ensures c !in Strip(f)
  {
  }

  lemma FlagsOnProper(l: string)
    requires IsFlags(l)
    ensures Proper(OtherFlags(FlagsOn(l)))
  {
    var fs := Split(l[2..], ',');
    SplitPartsClean(l[2..], ',');
    forall k | 0 <= k < |fs| ensures Strip(FlagsOn(l)[k]) == FlagsOn(l)[k] && ',' !in FlagsOn(l)[k] {
      StripTwice(fs[k]);
      StripHasNoMore(fs[k], ',');
    }
    OtherFlagsProper(FlagsOn(l));
  }

  function Spaced(fs: seq<string>): seq<string> { seq(|fs|, i requires 0 <= i < |fs| => " " + fs[i]) }

  lemma {:induction false} JoinSpaced(fs: seq<string>)
    requires fs != []
    ensures " " + JoinFlags(fs) == Join(Spaced(fs), ',')
    decreases |fs|
  {
    if |fs| > 1 {
      JoinSpaced(fs[1..]);
      assert Spaced(fs)[1..] == Spaced(fs[1..]);
    }
  }

  lemma BlankInFront(f: string)
    requires f != "" && Strip(f) == f
    ensures Strip(" " + f) == f
  {
    var a, b := SpaceEnd(f, 0), SpaceStart(f, |f|);
    assert |f[a..b]| == b - a;
    var v := " " + f;
    assert v[1..|v|] == f && v[1] == f[0] && v[|v| - 1] == f[|f| - 1];
    StripBetween(v, 1, |v|);
  }

  lemma SpacedParts(fs: seq<string>)
    requires fs != [] && Proper(fs)
    ensures Split(" " + JoinFlags(fs), ',') == Spaced(fs)
  {
    JoinSpaced(fs);
    forall i | 0 <= i < |fs| ensures ',' !in Spaced(fs)[i] { assert Spaced(fs)[i] == " " + fs[i]; }
    SplitJoin(Spaced(fs), ',');
  }

  lemma SpacedStrip(fs: seq<string>)
    requires Proper(fs)
    ensures Stripped(Spaced(fs)) == fs
  {
    forall i | 0 <= i < |fs| ensures Strip(Spaced(fs)[i]) == fs[i] { BlankInFront(fs[i]); }
  }

  /** Flags that were written are read back. */
  lemma WrittenFlags(fs: seq<string>)
    requires fs != [] && Proper(fs)
    ensures var l := "#, " + JoinFlags(fs); IsFlags(l) && FlagsOn(l) == fs
  {
    SpacedParts(fs);
    SpacedStrip(fs);
    BehindHash("#, " + JoinFlags(fs), JoinFlags(fs));
  }

  lemma BehindHash(l: string, flags: string)
    requires l == "#, " + flags
    ensures IsFlags(l) && l[2..] == " " + flags
  {
  }

  /** A line that mentions fuzzy, rewritten, says the same besides. */
  lemma RewrittenLine(l: string)
    requires IsFlags(l)
    ensures match FlagsLeft(l)
            case None => ItemsOn(l) == []
            case Some(r) => IsFlags(r) && "fuzzy" !in FlagsOn(r) && ItemsOn(r) == ItemsOn(l)
  {
    var flags := OtherFlags(FlagsOn(l));
    KeptFlags(Split(l[2..], ','));
    FlagsOnProper(l);
    if flags != [] {
      WrittenFlags(flags);
      ProperStay(flags);
    }
  }

  // ------------------------------------------------------------------ lines that do not mention fuzzy

  lemma SliceOfTail(s: string, n: nat, a: nat, b: nat)
    requires n <= |s| && a <= b <= |s| - n
    ensures s[n..][a..b] == s[n + a..n + b]
  {
  }

  lemma SliceOfSlice(s: string, a: nat, b: nat, i: nat, j: nat)
    requires a <= b <= |s| && i <= j <= b - a
    ensures s[a..b][i..j] == s[a + i..a + j]
  {
    var u := s[a..b];
    assert |u[i..j]| == |s[a + i..a + j]|;
    forall k | 0 <= k < j - i ensures u[i..j][k] == s[a + i..a + j][k] {
      assert u[i..j][k] == u[i + k] == s[a + (i + k)];
    }
  }

  /** A part between separators stands somewhere in the text. */
  lemma {:induction false} PartStands(s: string, c: char, k: nat) returns (a: nat)
    requires k < |Split(s, c)|
    ensures a + |Split(s, c)[k]| <= |s| && s[a..a + |Split(s, c)[k]|] == Split(s, c)[k]
    ensures k == 0 ==> a == 0
  {
    var p := Split(s, c)[k];
    if s == "" {
      a := 0;
    } else if k == 0 {
      a := 0;
      if s[0] != c {
        var b := PartStands(s[1..], c, 0);
        assert s[0..|p|] == [s[0]] + s[1..][0..|p| - 1];
      }
    } else {
      var k' := if s[0] == c then k - 1 else k;
      var b := PartStands(s[1..], c, k');
      a := b + 1;
      assert Split(s[1..], c)[k'] == p;
      SliceOfTail(s, 1, b, b + |p|);
    }
  }

  lemma StrippedStands(t: string, k: nat) returns (p: nat)
    requires k < |Split(t, ',')|
    ensures var w := Strip(Split(t, ',')[k]); p + |w| <= |t| && t[p..p + |w|] == w
  {
    var f := Split(t, ',')[k];
    var a := PartStands(t, ',', k);
    var i, j := SpaceEnd(f, 0), SpaceStart(f, |f|);
    if i < j {
      SliceOfSlice(t, a, a + |f|, i, j);
      p := a + i;
    } else {
      p := 0;
    }
  }

  lemma NotMentioned(l: string)
    requires IsFlags(l) && !Occurs("fuzzy", l)
    ensures "fuzzy" !in FlagsOn(l)
  {
    var t := l[2..];
    if k :| 0 <= k < |Split(t, ',')| && FlagsOn(l)[k] == "fuzzy" {
      var p := StrippedStands(t, k);
      SliceOfTail(l, 2, p, p + 5);
      assert StartsAt(l, 2 + p, "fuzzy");
    }
  }

  // ------------------------------------------------------------------ the whole entry

  /** How the loop treats a line, in the terms above. */
  ghost predicate Treated(c: Class, l: string) {
    match c
    case Fuzzy(rest) =>
      && !Translates(l, true) && KindOf(l).Note?
      && (rest.None? ==> ItemsOn(l) == [])
      && (rest.Some? ==> !Translates(rest.value, true) && ItemsOn(rest.value) == ItemsOn(l) && !IsFuzzy([rest.value]))
    case Msgstr => Translates(l, false)
    case Quote => !IsFlags(l) && !Translates(l, false) && Translates(l, true) && !KindOf(l).Note?
    case Plain => !Translates(l, true) && !IsFuzzy([l])
  }

  lemma PrefixIs(l: string, p: string)
    requires p != ""
    ensures StartsAt(l, 0, p) <==> |l| >= |p| && l[..|p|] == p
    ensures StartsAt(l, 0, p) ==> l[0] == p[0]
  {
    if |l| >= |p| { assert l[0..|p|] == l[..|p|] && l[..|p|][0] == l[0]; }
  }

  lemma FlagsPrefix(l: string)
    ensures StartsAt(l, 0, "#,") <==> IsFlags(l)
  {
    PrefixIs(l, "#,");
    if |l| >= 2 { assert l[..2][0] == l[0] && l[..2][1] == l[1]; }
    if IsFlags(l) { assert l[..2] == "#,"; }
  }

  lemma FlagsTreated(l: string)
    requires IsFlags(l) && Occurs("fuzzy", l)
    ensures Treated(Fuzzy(FlagsLeft(l)), l)
  {
    RewrittenLine(l);
    PrefixIs(l, "msgstr");
    if FlagsLeft(l).Some? { PrefixIs(FlagsLeft(l).value, "msgstr"); }
  }

  lemma PlainTreated(l: string)
    requires !StartsAt(l, 0, "msgstr") && (l == "" || l[0] != '"') && (IsFlags(l) ==> !Occurs("fuzzy", l))
    ensures Treated(Plain, l)
  {
    PrefixIs(l, "msgstr");
    if IsFlags(l) { NotMentioned(l); }
  }

  lemma QuoteTreated(l: string)
    requires l != "" && l[0] == '"' && !StartsAt(l, 0, "msgstr")
    ensures Treated(Quote, l)
  {
    PrefixIs(l, "msgstr");
  }

  lemma LineTreated(l: string)
    ensures Treated(ClassOf(l), l)
  {
    FlagsPrefix(l);
    if IsFlags(l) && Occurs("fuzzy", l) {
      FlagsTreated(l);
    } else if StartsAt(l, 0, "msgstr") {
      PrefixIs(l, "msgstr");
    } else if l != "" && l[0] == '"' {
      QuoteTreated(l);
    } else {
      PlainTreated(l);
    }
  }

  lemma ContentCons(l: string, rest: seq<string>, t: bool)
    ensures Content([l] + rest, t)
            == (if Translates(l, t) then [] else ItemsOn(l)) + Content(rest, Translates(l, t))
  {
    assert ([l] + rest)[1..] == rest;
  }

  lemma FuzzyStep(l: string, r: Option<string>, f: seq<string>, rest: seq<string>, t: bool)
    requires Treated(Fuzzy(r), l) && Content(f, false) == Content(rest, false)
    ensures Content((if r.Some? then [r.value] else []) + f, false) == Content([l] + rest, t)
  {
    ContentCons(l, rest, t);
    if r.Some? { ContentCons(r.value, f, false); } else { assert [] + f == f; }
  }

  lemma MsgstrStep(l: string, f: seq<string>, rest: seq<string>, t: bool)
    requires Treated(Msgstr, l) && Content(f, false) == Content(rest, true)
    ensures Content(f, false) == Content([l] + rest, t)
  {
    ContentCons(l, rest, t);
  }

  lemma QuoteStep(l: string, f: seq<string>, rest: seq<string>, t: bool)
    requires Treated(Quote, l) && Content(f, false) == Content(rest, t)
    ensures Content(if t then f else [l] + f, false) == Content([l] + rest, t)
  {
    ContentCons(l, rest, t);
    ContentCons(l, f, false);
  }

  lemma PlainStep(l: string, f: seq<string>, rest: seq<string>, t: bool)
    requires Treated(Plain, l) && Content(f, false) == Content(rest, false)
    ensures Content([l] + f, false) == Content([l] + rest, t)
  {
    ContentCons(l, rest, t);
    ContentCons(l, f, false);
  }

  /** Taking the translation out keeps the content; `t` says whether the line in front belonged to a translation. */
  lemma {:induction false} FilterContent(cl: string -> Class, ls: seq<string>, skipping: bool, t: bool, open: bool)
    requires forall i :: 0 <= i < |ls| ==> Treated(cl(ls[i]), ls[i])
    requires WellFormed(KindOf, ls, open) && (open ==> skipping == t)
    ensures Content(Filter(cl, ls, skipping), false) == Content(ls, t)
    decreases |ls|
  {
    if ls != [] {
      var l, rest := ls[0], ls[1..];
      assert Treated(cl(l), l) && ls == [l] + rest;
      match cl(l)
      case Fuzzy(r) =>
        FilterContent(cl, rest, skipping, false, false);
        FuzzyStep(l, r, Filter(cl, rest, skipping), rest, t);
      case Msgstr =>
        FilterContent(cl, rest, true, true, true);
        MsgstrStep(l, Filter(cl, rest, true), rest, t);
      case Quote =>
        QuoteIsMore(l);
        FilterContent(cl, rest, t, t, true);
        QuoteStep(l, Filter(cl, rest, t), rest, t);
      case Plain =>
        FilterContent(cl, rest, false, false, !KindOf(l).Note?);
        PlainStep(l, Filter(cl, rest, false), rest, t);
    }
  }

  lemma QuoteIsMore(l: string)
    requires Treated(Quote, l) && !KindOf(l).Other?
    ensures KindOf(l).More?
  {
    var n := NameLength(l);
  }

  ghost predicate Silent(b: seq<string>) { Content(b, false) == [] && Content(b, true) == [] }

  lemma {:induction false} ContentAppend(a: seq<string>, b: seq<string>, t: bool)
    requires Silent(b)
    ensures Content(a + b, t) == Content(a, t)
    decreases |a|
  {
    if a == [] {
      assert a + b == b;
    } else {
      var l, rest := a[0], a[1..];
      ContentAppend(rest, b, Translates(l, t));
      SameBehind(l, rest + b, rest, t);
      Uncons(a, b);
    }
  }

  lemma Uncons<T>(a: seq<T>, b: seq<T>)
    requires a != []
    ensures a == [a[0]] + a[1..] && a + b == [a[0]] + (a[1..] + b)
  {
  }

  lemma SameBehind(l: string, x: seq<string>, y: seq<string>, t: bool)
    requires Content(x, Translates(l, t)) == Content(y, Translates(l, t))
    ensures Content([l] + x, t) == Content([l] + y, t)
  {
    ContentCons(l, x, t);
    ContentCons(l, y, t);
  }

  lemma {:induction false} MoreLinesSayNothing(parts: seq<string>)
    ensures Content(MoreLines(parts), true) == [] && !IsFuzzy(MoreLines(parts))
    decreases |parts|
  {
    if parts != [] {
      var l := WriteMore(PoEscape(parts[0]));
      MoreLinesSayNothing(parts[1..]);
      ContentCons(l, MoreLines(parts[1..]), true);
    }
  }

  lemma FieldSaysNothing(value: string, t: bool)
    ensures Content(PoField("msgstr", value), t) == [] && !IsFuzzy(PoField("msgstr", value))
  {
    var l, more := WriteField("msgstr", if IsLong(value) then "" else PoEscape(value)),
      if IsLong(value) then MoreLines(Chunks(value)) else [];
    assert l[..6] == "msgstr" && l[0] == 'm';
    MoreLinesSayNothing(Chunks(value));
    ContentCons(l, more, t);
    assert PoField("msgstr", value) == [l] + more;
  }

  /** The lines that the loop keeps are not fuzzy. */
  lemma {:induction false} FilterNotFuzzy(cl: string -> Class, ls: seq<string>, skipping: bool)
    requires forall i :: 0 <= i < |ls| ==> Treated(cl(ls[i]), ls[i])
    ensures !IsFuzzy(Filter(cl, ls, skipping))
    decreases |ls|
  {
    if ls != [] {
      var l := ls[0];
      assert Treated(cl(l), l);
      FilterNotFuzzy(cl, ls[1..], skipping);
      FilterNotFuzzy(cl, ls[1..], true);
      FilterNotFuzzy(cl, ls[1..], false);
      var t := Treat(cl(l), l, skipping);
      FilterStep(cl, ls, skipping);
      assert !IsFuzzy(t.0);
      FuzzyAppend(t.0, Filter(cl, ls[1..], t.1));
    }
  }

  lemma FuzzyAppend(a: seq<string>, b: seq<string>)
    ensures IsFuzzy(a + b) <==> IsFuzzy(a) || IsFuzzy(b)
  {
    var c := a + b;
    assert forall i :: 0 <= i < |a| ==> c[i] == a[i];
    assert forall i :: 0 <= i < |b| ==> c[|a| + i] == b[i];
  }

  /** Replacing a translation takes `fuzzy` out of the flags and leaves everything else the entry says: the other
      flags and all lines that are neither flags nor translation, in order. */
  lemma WithMsgstrContent(b: seq<string>, value: string)
    requires WellFormed(KindOf, b, false)
    ensures !IsFuzzy(WithMsgstr(b, value)) && Content(WithMsgstr(b, value), false) == Content(b, false)
  {
    var f, field := Filter(ClassOf, b, false), PoField("msgstr", value);
    forall i | 0 <= i < |b| ensures Treated(ClassOf(b[i]), b[i]) { LineTreated(b[i]); }
    FilterContent(ClassOf, b, false, false, false);
    FilterNotFuzzy(ClassOf, b, false);
    FieldSaysNothing(value, false);
    FieldSaysNothing(value, true);
    ContentAppend(f, field, false);
    FuzzyAppend(f, field);
  }

  /** A new entry is not fuzzy. */
  lemma NewBlockNotFuzzy(key: Key, value: string, location: string, pythonFormat: bool)
    ensures !IsFuzzy(NewBlock(key, value, location, pythonFormat))
  {
    var c := Comments(location, pythonFormat);
    var x := if key.ctx != "" then PoField("msgctxt", key.ctx) else [];
    var m, v := PoField("msgid", key.msgid), PoField("msgstr", value);
    CommentsNotFuzzy(location, pythonFormat);
    FieldNotFuzzy("msgctxt", key.ctx);
    FieldNotFuzzy("msgid", key.msgid);
    FieldNotFuzzy("msgstr", value);
    FuzzyAppend(c, x);
    FuzzyAppend(c + x, m);
    FuzzyAppend(c + x + m, v);
  }

  lemma FieldNotFuzzy(field: string, value: string)
    requires IsFieldName(field)
    ensures !IsFuzzy(PoField(field, value))
  {
    MoreLinesSayNothing(Chunks(value));
    FuzzyAppend([WriteField(field, "")], MoreLines(Chunks(value)));
    assert !IsFlags(WriteField(field, "")) && !IsFlags(WriteField(field, PoEscape(value)));
  }

  lemma CommentsNotFuzzy(location: string, pythonFormat: bool)
    ensures !IsFuzzy(Comments(location, pythonFormat))
  {
    FormatFlagNotFuzzy("#, python-format");
    FuzzyAppend(if location != "" then ["#: " + location] else [], if pythonFormat then ["#, python-format"] else []);
  }

  lemma OccursHas(p: string, s: string, k: nat)
    requires Occurs(p, s) && k < |p|
    ensures p[k] in s
  {
    var i :| 0 <= i <= |s| && StartsAt(s, i, p);
    StartsAtChars(s, i, p);
    assert s[i + k] == p[k];
  }

  lemma FormatFlagNotFuzzy(l: string)
    requires l == "#, python-format"
    ensures !IsFuzzy([l])
  {
    assert 'z' !in l;
    if Occurs("fuzzy", l) { OccursHas("fuzzy", l, 2); }
    NotMentioned(l);
  }
}

/** Rewriting a JavaScript template literal as `hrT('… {name} …', {name: expr})` (`_js_tpl_to_call` in
    tools/i18n_wrap_code.py) and what the shim `hrT` returns when no dictionary is loaded. */
module JsTemplates {
  import opened Text
  import opened Identifiers
  import opened Quotes
  import opened Placeholders
  import opened JsCooked

  // ------------------------------------------------------------------ template literals and their value

  /** The parts of a template token: the raw text between holes, and the raw source of a hole. */
  datatype Part = Raw(text: string) | Code(source: string)

  /** A value is undefined or known by its string conversion. */
  datatype JsValue = Undefined | Known(text: string)

  function ToString(v: JsValue): string { if v.Undefined? then "undefined" else v.text }

  /** The separator `join` uses: a comma when the argument is undefined. */
  function Separator(v: JsValue): string { if v.Undefined? then "," else v.text }

  /** Line ends in template literals are normalised before they are cooked (section 12.9.6.1 of ECMA-262). */
  function Normalise(raw: string): string
    decreases |raw|
  {
    if raw == "" then ""
    else if raw[0] != '\r' then [raw[0]] + Normalise(raw[1..])
    else if |raw| >= 2 && raw[1] == '\n' then "\n" + Normalise(raw[2..])
    else "\n" + Normalise(raw[1..])
  }

  /** The text that raw template text stands for; the empty text where it is illegal. */
  function Cooked(raw: string): string {
    var r := Cook(Normalise(raw));
    if r.Some? then r.value else ""
  }

  function PartValue(env: string -> JsValue, p: Part): string {
    if p.Raw? then Cooked(p.text) else ToString(env(Strip(p.source)))
  }

  function Values(env: string -> JsValue): Part -> string { p => PartValue(env, p) }

  function TemplateValue(env: string -> JsValue, parts: seq<Part>): string { Concat(Values(env), parts) }

  // ------------------------------------------------------------------ the shim

  /** `t.split(pat)`: the stretches between the leftmost non-overlapping occurrences. */
  function SplitOn(t: string, pat: string): (r: seq<string>)
    requires pat != ""
    ensures |r| >= 1
  {
    if |t| < |pat| then [t]
    else if t[..|pat|] == pat then [""] + SplitOn(t[|pat|..], pat)
    else
      var r := SplitOn(t[1..], pat);
      [[t[0]] + r[0]] + r[1..]
  }

  function JoinWith(parts: seq<string>, sep: string): string {
    if parts == [] then "" else if |parts| == 1 then parts[0] else parts[0] + sep + JoinWith(parts[1..], sep)
  }

  function Placeholder(name: string): (r: string)
    ensures r != ""
  {
    "{" + name + "}"
  }

  /** The loop `for (k in o)` over the properties in some order, started with the text t. */
  function Shim(t: string, order: seq<(string, string)>, env: string -> JsValue): string
    decreases |order|
  {
    if order == [] then t
    else Shim(JoinWith(SplitOn(t, Placeholder(order[0].0)), Separator(env(order[0].1))), order[1..], env)
  }

  /** Every property once, in an order of the engine's choice. */
  ghost predicate IsOrderOf(order: seq<(string, string)>, objs: seq<(string, string)>) {
    && (forall e :: e in order <==> e in objs)
    && (forall i, j :: 0 <= i < j < |order| ==> order[i].0 != order[j].0)
  }

  // ------------------------------------------------------------------ the rewriting

  datatype HrtCall = HrtCall(msgid: string, objs: seq<(string, string)>)

  predicate BraceFree(s: string) { '{' !in s && '}' !in s }

  function ReadText(u: Unescaped): Option<Slot> {
    if u.Decoded? && BraceFree(u.text) then Some(Words(u.text)) else None
  }

  function ReadCode(expr: string): Option<Slot> {
    if expr == "" || '`' in expr || '\n' in expr then None else Some(Hole(expr))
  }

  /** What a part contributes to the message, or None where the loop gives up. */
  function Read(p: Part): Option<Slot> {
    if p.Raw? then ReadText(JsUnescape(p.text)) else ReadCode(Strip(p.source))
  }

  /** What can be rewritten: text with the listed escapes only and without braces once these are read, and expressions
      on one line without a back quote. */
  predicate Readable(p: Part) {
    match p
    case Raw(text) => Accepts(text) && Cook(text).Some? && '{' !in Cook(text).value && '}' !in Cook(text).value
    case Code(source) => !AllSpace(source) && '`' !in Strip(source) && '\n' !in Strip(source)
  }

  lemma ReadIff(p: Part)
    ensures Read(p).Some? <==> Readable(p)
  {
    if p.Raw? { UnescapeIsCooked(p.text); }
  }

  /** The message when the names in `done` already stand as text. */
  function Fill(items: seq<Item>, done: map<string, string>): string {
    if items == [] then ""
    else
      var it := items[0];
      (if it.Lit? then it.text else if it.name in done then done[it.name] else Placeholder(it.name))
      + Fill(items[1..], done)
  }

  /** An opening bracket followed by a letter, a slash or an exclamation mark. */
  predicate HasTag(s: string) {
    exists i :: 0 <= i < |s| - 1 && s[i] == '<' && (IsLetter(s[i + 1]) || s[i + 1] == '/' || s[i + 1] == '!')
  }

  /** That is, `<` and one of these characters stand somewhere. */
  lemma HasTagIff(s: string)
    ensures HasTag(s)
            <==> exists c :: ('a' <= c <= 'z' || 'A' <= c <= 'Z' || c == '/' || c == '!') && Occurs(['<', c], s)
  {
    if i :| 0 <= i < |s| - 1 && s[i] == '<' && (IsLetter(s[i + 1]) || s[i + 1] == '/' || s[i + 1] == '!') {
      assert s[i..i + 2] == ['<', s[i + 1]] && StartsAt(s, i, ['<', s[i + 1]]);
    }
    if c :| ('a' <= c <= 'z' || 'A' <= c <= 'Z' || c == '/' || c == '!') && Occurs(['<', c], s) {
      var i: nat :| i <= |s| && StartsAt(s, i, ['<', c]);
      assert s[i..i + 2][0] == '<' && s[i..i + 2][1] == c;
    }
  }

  ghost predicate Rewrites(parts: seq<Part>, call: HrtCall) {
    exists d :: Drafts(parts, Read, d) && call == HrtCall(Fill(d.items, map[]), d.kwargs)
  }

  lemma RewritesBy(parts: seq<Part>, slots: seq<Slot>, d: Draft)
    requires AllRead(parts, Read) && SlotsOf(parts, Read) == slots && Ok(slots, d)
    ensures Rewrites(parts, HrtCall(Fill(d.items, map[]), d.kwargs))
  {
    assert Drafts(parts, Read, d);
  }

  function BaseName(p: Part, hint: string -> string, keywords: set<string>): (name: string)
    requires forall e :: hint(e) == "" || IsIdentifier(hint(e))
    ensures IsName(name)
  {
    if p.Code? then CleanName(hint(Strip(p.source)), keywords) else FALLBACK
  }

  function BaseNames(hint: string -> string, keywords: set<string>): Part -> string
    requires forall e :: hint(e) == "" || IsIdentifier(hint(e))
  {
    p => BaseName(p, hint, keywords)
  }

  // ------------------------------------------------------------------ the text of the call

  /** `f"{name}: {expr}" if name != expr else name`. */
  function EntryText(e: (string, string)): string { if e.0 != e.1 then e.0 + ": " + e.1 else e.0 }

  function EntryTexts(objs: seq<(string, string)>): seq<string> {
    seq(|objs|, i requires 0 <= i < |objs| => EntryText(objs[i]))
  }

  /** `', '.join(objs)`. */
  function EntriesText(objs: seq<(string, string)>): string { JoinWith(EntryTexts(objs), ", ") }

  /** What is written in place of the literal. */
  function CallText(fn: string, call: HrtCall): string {
    if call.objs == [] then fn + "(" + JsQuote(call.msgid) + ")"
    else fn + "(" + JsQuote(call.msgid) + ", {" + EntriesText(call.objs) + "})"
  }

  /** `_js_tpl_to_call`: None when a part cannot be read or the message would hold markup. */
  method TemplateCall(parts: seq<Part>, fn: string, hint: string -> string, keywords: set<string>)
    returns (r: Option<string>)
    requires forall e :: hint(e) == "" || IsIdentifier(hint(e))
    ensures r.Some? ==>
              exists call :: Rewrites(parts, call) && AllNamed(parts, Read, BaseNames(hint, keywords), call.objs)
                             && !HasTag(call.msgid) && r.value == CallText(fn, call)
    ensures r.Some? ==> forall i :: 0 <= i < |parts| ==> Readable(parts[i])
    ensures r.None? && (forall i :: 0 <= i < |parts| ==> Readable(parts[i]))
            ==> exists call :: Rewrites(parts, call) && HasTag(call.msgid)
  {
    forall i | 0 <= i < |parts| ensures Read(parts[i]).Some? <==> Readable(parts[i]) { ReadIff(parts[i]); }
    var d := DraftFor(parts, Read, BaseNames(hint, keywords));
    if d.None? { return None; }
    var call := HrtCall(Fill(d.value.items, map[]), d.value.kwargs);
    assert Rewrites(parts, call);
    r := if HasTag(call.msgid) then None else Some(CallText(fn, call));
  }

  // ------------------------------------------------------------------ one split and join fills one name

  /** `t.split(pat).join(rep)`. */
  ghost function Replaced(t: string, pat: string, rep: string): string
    requires pat != ""
  {
    JoinWith(SplitOn(t, pat), rep)
  }

  lemma ReplacedSkips(t: string, pat: string, rep: string)
    requires pat != "" && t != "" && !(pat <= t)
    ensures Replaced(t, pat, rep) == [t[0]] + Replaced(t[1..], pat, rep)
  {
    if |t| < |pat| {
      assert SplitOn(t, pat) == [t] && SplitOn(t[1..], pat) == [t[1..]];
    } else {
      var r := SplitOn(t[1..], pat);
      var s := [[t[0]] + r[0]] + r[1..];
      assert t[..|pat|] != pat && SplitOn(t, pat) == s && s[1..] == r[1..];
      if |r| > 1 {
        assert [t[0]] + r[0] + rep + JoinWith(r[1..], rep) == [t[0]] + (r[0] + rep + JoinWith(r[1..], rep));
      }
    }
  }

  lemma ReplacedHits(pat: string, rest: string, rep: string)
    requires pat != ""
    ensures Replaced(pat + rest, pat, rep) == rep + Replaced(rest, pat, rep)
  {
    var t := pat + rest;
    assert t[..|pat|] == pat && t[|pat|..] == rest;
    var r := SplitOn(rest, pat);
    assert ([""] + r)[1..] == r;
    assert "" + rep + JoinWith(r, rep) == rep + JoinWith(r, rep);
  }

  /** How many characters of a name the text begins with. */
  function NameRun(s: string): (n: nat)
    ensures n <= |s| && (forall i :: 0 <= i < n ==> IsNameChar(s[i])) && (n < |s| ==> !IsNameChar(s[n]))
  {
    if s == "" || !IsNameChar(s[0]) then 0 else 1 + NameRun(s[1..])
  }

  /** The text begins with a placeholder, or could with more text behind it. */
  predicate Opens(s: string) {
    s != "" && s[0] == '{' && var n := NameRun(s[1..]); n + 1 == |s| || (n > 0 && s[n + 1] == '}')
  }

  /** Nowhere in the text does a placeholder begin, whatever follows the text. */
  predicate Harmless(s: string) {
    s == "" || (!Opens(s) && Harmless(s[1..]))
  }

  lemma {:induction false} NoBraceIsHarmless(s: string)
    requires '{' !in s
    ensures Harmless(s)
  {
    if s != "" { NoBraceIsHarmless(s[1..]); }
  }

  lemma PlaceholderOpens(s: string, rest: string, name: string)
    requires s != "" && IsName(name) && Placeholder(name) <= s + rest
    ensures Opens(s)
  {
    var t, p, n := s + rest, Placeholder(name), NameRun(s[1..]);
    assert forall i :: 0 <= i < |p| ==> p[i] == t[i];
    assert p[0] == '{' && p[|name| + 1] == '}' && forall i :: 0 <= i < |name| ==> p[i + 1] == name[i];
    assert forall i :: 1 <= i <= |name| ==> IsNameChar(t[i]) by {
      assert forall i :: 1 <= i <= |name| ==> t[i] == name[i - 1];
    }
    assert forall i :: 0 <= i < |s| - 1 ==> t[i + 1] == s[1..][i];
  }

  /** Harmless text is passed over. */
  lemma {:induction false} ReplacedSkipsText(s: string, rest: string, name: string, rep: string)
    requires Harmless(s) && IsName(name)
    ensures Replaced(s + rest, Placeholder(name), rep) == s + Replaced(rest, Placeholder(name), rep)
  {
    if s == "" {
      assert s + rest == rest;
    } else {
      assert (s + rest)[0] == s[0] && (s + rest)[1..] == s[1..] + rest;
      if Placeholder(name) <= s + rest { PlaceholderOpens(s, rest, name); }
      ReplacedSkips(s + rest, Placeholder(name), rep);
      ReplacedSkipsText(s[1..], rest, name, rep);
      Assoc([s[0]], s[1..], Replaced(rest, Placeholder(name), rep));
      assert s == [s[0]] + s[1..];
    }
  }

  lemma SamePlaceholder(other: string, rest: string, name: string)
    requires IsName(other) && IsName(name) && Placeholder(name) <= Placeholder(other) + rest
    ensures other == name
  {
    var p, t := Placeholder(name), Placeholder(other) + rest;
    assert forall i :: 0 <= i < |p| ==> p[i] == t[i];
    assert p[|name| + 1] == '}' && t[|other| + 1] == '}';
    assert forall i :: 0 <= i < |name| ==> t[i + 1] == name[i] && IsNameChar(name[i]);
    assert forall i :: 0 <= i < |other| ==> t[i + 1] == other[i] && IsNameChar(other[i]);
    assert |other| == |name|;
  }

  lemma ReplacedSkipsOther(other: string, rest: string, name: string, rep: string)
    requires IsName(other) && IsName(name) && other != name
    ensures Replaced(Placeholder(other) + rest, Placeholder(name), rep)
            == Placeholder(other) + Replaced(rest, Placeholder(name), rep)
  {
    var t := Placeholder(other) + rest;
    if Placeholder(name) <= t { SamePlaceholder(other, rest, name); }
    ReplacedSkips(t, Placeholder(name), rep);
    BehindBrace(other, rest);
    NoBraceIsHarmless(other + "}");
    ReplacedSkipsText(other + "}", rest, name, rep);
    BehindBrace(other, Replaced(rest, Placeholder(name), rep));
  }

  lemma BehindBrace(name: string, rest: string)
    ensures var t := Placeholder(name) + rest;
            t[0] == '{' && t[1..] == (name + "}") + rest && t == "{" + ((name + "}") + rest)
  {
  }

  ghost predicate Clean(items: seq<Item>, done: map<string, string>) {
    && (forall i :: 0 <= i < |items| ==> if items[i].Lit? then BraceFree(items[i].text) else IsName(items[i].name))
    && (forall n :: n in done ==> Harmless(done[n]))
  }

  /** Splitting on one placeholder and joining with its value is filling in that name everywhere and nothing else. */
  lemma {:induction false} FillStep(items: seq<Item>, done: map<string, string>, name: string, rep: string)
    requires Clean(items, done) && IsName(name) && name !in done
    ensures Replaced(Fill(items, done), Placeholder(name), rep) == Fill(items, done[name := rep])
  {
    if items != [] {
      FillStep(items[1..], done, name, rep);
      var it, rest := items[0], Fill(items[1..], done);
      if it.Lit? {
        NoBraceIsHarmless(it.text);
        ReplacedSkipsText(it.text, rest, name, rep);
      } else if it.name in done {
        ReplacedSkipsText(done[it.name], rest, name, rep);
      } else if it.name == name {
        ReplacedHits(Placeholder(name), rest, rep);
      } else {
        ReplacedSkipsOther(it.name, rest, name, rep);
      }
    }
  }

  // ------------------------------------------------------------------ the whole loop is one simultaneous substitution

  /** The texts the loop puts in. */
  ghost function AllFilled(done: map<string, string>, order: seq<(string, string)>,
                           env: string -> JsValue): map<string, string>
    decreases |order|
  {
    if order == [] then done else AllFilled(done[order[0].0 := Separator(env(order[0].1))], order[1..], env)
  }

  lemma {:induction false} ShimFills(items: seq<Item>, done: map<string, string>, order: seq<(string, string)>,
                                     env: string -> JsValue)
    requires Clean(items, done)
    requires forall i :: 0 <= i < |order| ==> IsName(order[i].0) && order[i].0 !in done
                                              && Harmless(Separator(env(order[i].1)))
    requires forall i, j :: 0 <= i < j < |order| ==> order[i].0 != order[j].0
    ensures Shim(Fill(items, done), order, env) == Fill(items, AllFilled(done, order, env))
    decreases |order|
  {
    if order != [] {
      var name, rep := order[0].0, Separator(env(order[0].1));
      FillStep(items, done, name, rep);
      forall i | 0 <= i < |order[1..]|
        ensures IsName(order[1..][i].0) && order[1..][i].0 !in done[name := rep]
                && Harmless(Separator(env(order[1..][i].1)))
      {
        assert order[1..][i] == order[i + 1] && order[0].0 != order[i + 1].0;
      }
      ShimFills(items, done[name := rep], order[1..], env);
    }
  }

  lemma {:induction false} AllFilledKeeps(done: map<string, string>, order: seq<(string, string)>,
                                          env: string -> JsValue, name: string)
    requires name in done && forall i :: 0 <= i < |order| ==> order[i].0 != name
    ensures name in AllFilled(done, order, env) && AllFilled(done, order, env)[name] == done[name]
    decreases |order|
  {
    if order != [] { AllFilledKeeps(done[order[0].0 := Separator(env(order[0].1))], order[1..], env, name); }
  }

  lemma {:induction false} AllFilledAt(done: map<string, string>, order: seq<(string, string)>, env: string -> JsValue,
                                       k: nat)
    requires k < |order| && forall i, j :: 0 <= i < j < |order| ==> order[i].0 != order[j].0
    ensures var r := AllFilled(done, order, env); order[k].0 in r && r[order[k].0] == Separator(env(order[k].1))
    decreases |order|
  {
    var next := done[order[0].0 := Separator(env(order[0].1))];
    if k == 0 {
      AllFilledKeeps(next, order[1..], env, order[0].0);
    } else {
      assert order[1..][k - 1] == order[k];
      AllFilledAt(next, order[1..], env, k - 1);
    }
  }

  /** What a part comes to in the rewritten call: the text as `js_unescape` reads it, a hole as a separator. */
  ghost function PartSubstituted(env: string -> JsValue, p: Part): string {
    if p.Code? then Separator(env(Strip(p.source)))
    else if JsUnescape(p.text).Decoded? then JsUnescape(p.text).text else ""
  }

  ghost function Substitutes(env: string -> JsValue): Part -> string { p => PartSubstituted(env, p) }

  lemma FilledPart(env: string -> JsValue, p: Part, it: Item, names: map<string, string>, done: map<string, string>)
    requires Read(p).Some? && MatchesOne(Read(p).value, it, names)
    requires forall t :: t in names ==> names[t] in done && done[names[t]] == Separator(env(t))
    ensures (if it.Lit? then it.text else if it.name in done then done[it.name] else Placeholder(it.name))
            == PartSubstituted(env, p)
  {
  }

  lemma {:induction false} FillIsSubstituted(env: string -> JsValue, parts: seq<Part>, items: seq<Item>,
                                             names: map<string, string>, done: map<string, string>)
    requires AllRead(parts, Read) && Matches(SlotsOf(parts, Read), items, names)
    requires forall t :: t in names ==> names[t] in done && done[names[t]] == Separator(env(t))
    ensures Fill(items, done) == Concat(Substitutes(env), parts)
  {
    if parts != [] {
      DraftsTail(parts, Read, items, names);
      FilledPart(env, parts[0], items[0], names, done);
      FillIsSubstituted(env, parts[1..], items[1..], names, done);
    }
  }

  ghost predicate HarmlessValues(env: string -> JsValue, objs: seq<(string, string)>) {
    forall k :: 0 <= k < |objs| ==> Harmless(Separator(env(objs[k].1)))
  }

  lemma DraftIsClean(slots: seq<Slot>, d: Draft)
    requires Ok(slots, d) && forall i :: 0 <= i < |slots| && slots[i].Words? ==> BraceFree(slots[i].text)
    ensures Clean(d.items, map[])
  {
    forall i | 0 <= i < |d.items|
      ensures if d.items[i].Lit? then BraceFree(d.items[i].text) else IsName(d.items[i].name)
    {
      assert MatchesOne(slots[i], d.items[i], d.names);
      if d.items[i].Ref? {
        var t := slots[i].expr;
        assert (d.names[t], t) in d.kwargs;
      }
    }
  }

  /** The shim over the rewritten call is one simultaneous substitution, whatever the order of the properties. */
  lemma ShimSubstitutes(env: string -> JsValue, parts: seq<Part>, call: HrtCall, order: seq<(string, string)>)
    requires Rewrites(parts, call) && IsOrderOf(order, call.objs) && HarmlessValues(env, call.objs)
    ensures Shim(call.msgid, order, env) == Concat(Substitutes(env), parts)
  {
    var d :| Drafts(parts, Read, d) && call == HrtCall(Fill(d.items, map[]), d.kwargs);
    DraftIsClean(SlotsOf(parts, Read), d);
    forall i | 0 <= i < |order| ensures IsName(order[i].0) && Harmless(Separator(env(order[i].1))) {
      assert order[i] in call.objs;
    }
    ShimFills(d.items, map[], order, env);
    var done := AllFilled(map[], order, env);
    forall t | t in d.names ensures d.names[t] in done && done[d.names[t]] == Separator(env(t)) {
      assert (d.names[t], t) in order;
      var k :| 0 <= k < |order| && order[k] == (d.names[t], t);
      AllFilledAt(map[], order, env, k);
    }
    FillIsSubstituted(env, parts, d.items, d.names, done);
  }

  // ------------------------------------------------------------------ when that is the value of the template

  lemma {:induction false} NormalisePrefix(p: string, rest: string)
    requires '\r' !in p
    ensures Normalise(p + rest) == p + Normalise(rest)
  {
    if p == "" {
      assert p + rest == rest;
    } else {
      assert (p + rest)[0] == p[0] && (p + rest)[1..] == p[1..] + rest;
      NormalisePrefix(p[1..], rest);
      Assoc([p[0]], p[1..], Normalise(rest));
      assert p == [p[0]] + p[1..];
    }
  }

  lemma NormaliseIdentity(raw: string)
    requires '\r' !in raw
    ensures Normalise(raw) == raw
  {
    NormalisePrefix(raw, "");
    assert raw + "" == raw;
  }

  lemma HexRunLocal(s: string, n: nat, rest: string)
    requires n < |s| && !IsHex(s[n]) && HexRun(s) == n
    ensures HexRun(s[..n + 1] + rest) == n && forall i :: 0 <= i < n ==> IsHex(s[i])
  {
    var t := s[..n + 1] + rest;
    assert forall i :: 0 <= i < n ==> t[i] == s[..n][i];
    var m := HexRun(t);
    assert t[n] == s[n] && forall i :: 0 <= i < m ==> IsHex(t[..m][i]) && t[..m][i] == t[i];
  }

  /** A complete escape sequence reads the same whatever follows it. */
  lemma UnicodeEscapeIsLocal(body: string, rest: string)
    requires |body| >= 2 && body[1] == 'u' && body[0] == '\\' && UnicodeEscape(body).Escape?
    ensures var e := UnicodeEscape(body); '\r' !in body[..e.len] && UnicodeEscape(body[..e.len] + rest) == e
  {
    var e := UnicodeEscape(body);
    var t := body[..e.len] + rest;
    if |body| >= 6 && AllHex(body[2..6]) {
      assert t[2..6] == body[2..6];
      assert forall i :: 2 <= i < 6 ==> body[i] == body[2..6][i - 2];
    } else {
      var n := HexRun(body[3..]);
      HexRunLocal(body[3..], n, rest);
      assert t[3..] == body[3..][..n + 1] + rest && t[3..][..n] == body[3..][..n];
      assert forall i :: 3 <= i < 3 + n ==> body[i] == body[3..][i - 3];
      assert |t| >= 6 ==> t[2..6][0] == '{';
    }
  }

  lemma EscapeIsLocal(body: string, rest: string)
    requires body != "" && body[0] == '\\' && ReadEscape(body).Escape?
    ensures var e := ReadEscape(body); '\r' !in body[..e.len] && ReadEscape(body[..e.len] + rest) == e
  {
    var e := ReadEscape(body);
    var t := body[..e.len] + rest;
    assert t[1] == body[1];
    if body[1] == 'u' {
      UnicodeEscapeIsLocal(body, rest);
    } else if body[1] == 'x' {
      assert t[2..4] == body[2..4];
      assert forall i :: 2 <= i < 4 ==> body[i] == body[2..4][i - 2];
    }
  }

  /** What `js_unescape` makes of the text with its line ends normalised. */
  ghost function OneLineEnd(raw: string): string {
    var r := JsUnescape(Normalise(raw));
    if r.Decoded? then r.text else ""
  }

  /** `js_unescape` keeps every carriage return of the raw text, JavaScript keeps none. */
  lemma RawReturns(raw: string)
    requires JsUnescape(raw).Decoded?
    ensures Cook(Normalise(raw)).Some?
    ensures CountChar(JsUnescape(raw).text, '\r') == CountChar(Cooked(raw), '\r') + CountChar(raw, '\r')
  {
    ReturnsCount(raw);
    UnescapeIsCooked(Normalise(raw));
  }

  lemma {:induction false} ReturnsCount(raw: string)
    requires JsUnescape(raw).Decoded?
    ensures JsUnescape(Normalise(raw)).Decoded?
    ensures CountChar(JsUnescape(raw).text, '\r') == CountChar(OneLineEnd(raw), '\r') + CountChar(raw, '\r')
    decreases |raw|
  {
    if raw == "" {
    } else if raw[0] == '\r' && |raw| >= 2 && raw[1] == '\n' {
      assert raw[1..][1..] == raw[2..] && Normalise(raw)[1..] == Normalise(raw[2..]);
      ReturnsCount(raw[2..]);
      CountAppend("\r\n", raw[2..], '\r');
      assert raw == "\r\n" + raw[2..];
      CountAppend("\r\n", JsUnescape(raw[2..]).text, '\r');
      assert JsUnescape(raw).text == "\r\n" + JsUnescape(raw[2..]).text;
      CountAppend("\n", OneLineEnd(raw[2..]), '\r');
      assert CountChar("\r\n", '\r') == 1 + CountChar("\r\n"[1..], '\r') == 1 + CountChar("\n", '\r') == 1;
    } else if raw[0] != '\\' {
      ReturnsCount(raw[1..]);
      assert Normalise(raw)[1..] == Normalise(raw[1..]);
      CountAppend([raw[0]], JsUnescape(raw[1..]).text, '\r');
      CountAppend([Normalise(raw)[0]], OneLineEnd(raw[1..]), '\r');
    } else {
      ReturnsCountEscape(raw);
    }
  }

  lemma EmitCount(code: Option<nat>, r: Unescaped)
    requires Emit(code, r).Decoded?
    ensures r.Decoded?
    ensures CountChar(Emit(code, r).text, '\r') == (if code == Some(13) then 1 else 0) + CountChar(r.text, '\r')
  {
    if code.Some? { assert ([code.value as char] + r.text)[1..] == r.text; }
  }

  lemma ReturnsCountEscape(raw: string)
    requires JsUnescape(raw).Decoded? && raw != "" && raw[0] == '\\'
    ensures JsUnescape(Normalise(raw)).Decoded?
    ensures CountChar(JsUnescape(raw).text, '\r') == CountChar(OneLineEnd(raw), '\r') + CountChar(raw, '\r')
    decreases |raw|, 0
  {
    var e := ReadEscape(raw);
    var front, rest := raw[..e.len], raw[e.len..];
    assert raw == front + rest;
    EmitCount(e.code, JsUnescape(rest));
    ReturnsCount(rest);
    EscapeIsLocal(raw, Normalise(rest));
    NormalisePrefix(front, rest);
    assert (front + Normalise(rest))[e.len..] == Normalise(rest);
    EmitCount(e.code, JsUnescape(Normalise(rest)));
    CountZero(front, '\r');
    CountAppend(front, rest, '\r');
  }

  // ------------------------------------------------------------------ from the parts to the whole

  ghost function Sum<P>(w: P -> nat, parts: seq<P>): nat {
    if parts == [] then 0 else w(parts[0]) + Sum(w, parts[1..])
  }

  lemma {:induction false} SumZeroIff<P>(w: P -> nat, parts: seq<P>)
    ensures Sum(w, parts) == 0 <==> forall i :: 0 <= i < |parts| ==> w(parts[i]) == 0
  {
    if parts != [] {
      SumZeroIff(w, parts[1..]);
      assert parts == [parts[0]] + parts[1..];
    }
  }

  lemma {:induction false} ConcatCounts<P>(f: P -> string, g: P -> string, w: P -> nat, c: char, parts: seq<P>)
    requires forall i :: 0 <= i < |parts| ==> CountChar(f(parts[i]), c) == CountChar(g(parts[i]), c) + w(parts[i])
    ensures CountChar(Concat(f, parts), c) == CountChar(Concat(g, parts), c) + Sum(w, parts)
  {
    if parts != [] {
      ConcatCounts(f, g, w, c, parts[1..]);
      CountAppend(f(parts[0]), Concat(f, parts[1..]), c);
      CountAppend(g(parts[0]), Concat(g, parts[1..]), c);
    }
  }

  lemma {:induction false} ConcatLengths<P>(f: P -> string, g: P -> string, w: P -> nat, parts: seq<P>)
    requires forall i :: 0 <= i < |parts| ==> |g(parts[i])| == |f(parts[i])| + w(parts[i])
    requires forall i :: 0 <= i < |parts| && w(parts[i]) == 0 ==> f(parts[i]) == g(parts[i])
    ensures |Concat(g, parts)| == |Concat(f, parts)| + Sum(w, parts)
    ensures Sum(w, parts) == 0 ==> Concat(f, parts) == Concat(g, parts)
  {
    if parts != [] { ConcatLengths(f, g, w, parts[1..]); }
  }

  ghost function RawReturnsIn(): Part -> nat { (p: Part) => if p.Raw? then CountChar(p.text, '\r') else 0 }

  ghost function UndefinedIn(env: string -> JsValue): Part -> nat {
    (p: Part) => if p.Code? && env(Strip(p.source)).Undefined? then 8 else 0
  }

  lemma PartReturns(env: string -> JsValue, p: Part)
    requires Read(p).Some?
    ensures CountChar(PartSubstituted(env, p), '\r') == CountChar(PartValue(env, p), '\r') + RawReturnsIn()(p)
  {
    if p.Raw? { RawReturns(p.text); } else { ValueReturns(env(Strip(p.source))); }
  }

  lemma ValueReturns(v: JsValue)
    ensures CountChar(Separator(v), '\r') == CountChar(ToString(v), '\r')
  {
    CountZero("undefined", '\r');
    CountZero(",", '\r');
  }

  lemma PartLength(env: string -> JsValue, p: Part)
    requires Read(p).Some? && RawReturnsIn()(p) == 0
    ensures |PartValue(env, p)| == |PartSubstituted(env, p)| + UndefinedIn(env)(p)
    ensures UndefinedIn(env)(p) == 0 ==> PartValue(env, p) == PartSubstituted(env, p)
  {
    if p.Raw? {
      CountZero(p.text, '\r');
      NormaliseIdentity(p.text);
      UnescapeIsCooked(p.text);
    }
  }

  ghost predicate NoRawReturns(parts: seq<Part>) {
    forall i :: 0 <= i < |parts| && parts[i].Raw? ==> '\r' !in parts[i].text
  }

  ghost predicate AllDefined(env: string -> JsValue, parts: seq<Part>) {
    forall i :: 0 <= i < |parts| && parts[i].Code? ==> !env(Strip(parts[i].source)).Undefined?
  }

  lemma SumsAreZeroIff(env: string -> JsValue, parts: seq<Part>)
    ensures Sum(RawReturnsIn(), parts) == 0 <==> NoRawReturns(parts)
    ensures Sum(UndefinedIn(env), parts) == 0 <==> AllDefined(env, parts)
  {
    SumZeroIff(RawReturnsIn(), parts);
    SumZeroIff(UndefinedIn(env), parts);
    forall i | 0 <= i < |parts| ensures RawReturnsIn()(parts[i]) == 0 <==> (parts[i].Raw? ==> '\r' !in parts[i].text) {
      if parts[i].Raw? { CountZero(parts[i].text, '\r'); }
    }
  }

  lemma SubstitutedIsValueIff(env: string -> JsValue, parts: seq<Part>)
    requires AllRead(parts, Read)
    ensures Concat(Substitutes(env), parts) == TemplateValue(env, parts)
            <==> NoRawReturns(parts) && AllDefined(env, parts)
  {
    SumsAreZeroIff(env, parts);
    forall i | 0 <= i < |parts|
      ensures CountChar(Substitutes(env)(parts[i]), '\r')
              == CountChar(Values(env)(parts[i]), '\r') + RawReturnsIn()(parts[i])
    {
      PartReturns(env, parts[i]);
    }
    ConcatCounts(Substitutes(env), Values(env), RawReturnsIn(), '\r', parts);
    if Sum(RawReturnsIn(), parts) == 0 {
      SumZeroIff(RawReturnsIn(), parts);
      forall i | 0 <= i < |parts|
        ensures |Values(env)(parts[i])| == |Substitutes(env)(parts[i])| + UndefinedIn(env)(parts[i])
        ensures UndefinedIn(env)(parts[i]) == 0 ==> Substitutes(env)(parts[i]) == Values(env)(parts[i])
      {
        PartLength(env, parts[i]);
      }
      ConcatLengths(Substitutes(env), Values(env), UndefinedIn(env), parts);
    }
  }

  /** With no dictionary and values in which no placeholder begins, the call, read as its message and its pairs, has
      the value of the literal if and only if no raw text holds a carriage return (JavaScript turns it into a line
      feed, the message keeps it) and no hole is undefined (`join` turns it into a comma). The order of the pairs does
      not matter. */
  lemma ValuePreservedIff(env: string -> JsValue, parts: seq<Part>, call: HrtCall, order: seq<(string, string)>)
    requires Rewrites(parts, call) && IsOrderOf(order, call.objs) && HarmlessValues(env, call.objs)
    ensures Shim(call.msgid, order, env) == TemplateValue(env, parts) <==> NoRawReturns(parts) && AllDefined(env, parts)
  {
    ShimSubstitutes(env, parts, call, order);
    SubstitutedIsValueIff(env, parts);
  }
}

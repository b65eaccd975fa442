/** Literals that `_js_tpl_to_call` (tools/i18n_wrap_code.py) accepts and turns into calls that are not read as they
    were meant. */
module JsBrokenCalls {
  import opened Text
  import opened Identifiers
  import opened Placeholders
  import opened Quotes
  import opened JsTemplates
  import opened JsBraces
  import opened JsLeaves
  import opened JsObjects
  import opened JsObjectProofs
  import opened JsRewriting
  import L = JsLexer

  /** The literal with one hole and nothing else, and the call it becomes. */
  function LoneHole(source: string): seq<Part> { [Code(source)] }

  function LoneCall(name: string, expr: string): HrtCall { HrtCall(Placeholder(name), [(name, expr)]) }

  lemma LoneRewrites(source: string, name: string)
    requires IsName(name) && Read(Code(source)) == Some(Hole(Strip(source)))
    ensures Rewrites(LoneHole(source), LoneCall(name, Strip(source)))
  {
    var expr := Strip(source);
    var d := Draft([Ref(name)], [(name, expr)], {name}, map[expr := name]);
    assert SlotsOf(LoneHole(source), Read) == [Hole(expr)];
    LoneIsOk(name, expr);
    FillCons(Ref(name), [], map[]);
    assert [Ref(name)] + [] == [Ref(name)] && Placeholder(name) + "" == Placeholder(name);
    assert Fill(d.items, map[]) == Placeholder(name);
    RewritesBy(LoneHole(source), [Hole(expr)], d);
  }

  lemma LoneIsOk(name: string, expr: string)
    requires IsName(name)
    ensures Ok([Hole(expr)], Draft([Ref(name)], [(name, expr)], {name}, map[expr := name]))
  {
    assert [Hole(expr)][0] == Hole(expr) && [(name, expr)][0] == (name, expr);
  }

  /** A call that is emitted for a lone hole and is not read as it was printed. */
  ghost predicate Breaks(source: string, name: string, key: NumberKey, abc: Alphabet) {
    var call := LoneCall(name, Strip(source));
    Rewrites(LoneHole(source), call) && ReadCall(CallText("hrT", call), "hrT", key, abc) != Some(call)
  }

  lemma UnprintableBreaks(source: string, name: string, key: NumberKey, abc: Alphabet)
    requires IsName(name) && Read(Code(source)) == Some(Hole(Strip(source)))
             && !Printable((name, Strip(source)), key, abc)
    ensures Breaks(source, name, key, abc)
  {
    var call := LoneCall(name, Strip(source));
    LoneRewrites(source, name);
    RewrittenIsPlain(LoneHole(source), call, 0);
    assert !AllPrintable(call.objs, key, abc) by { assert call.objs[0] == (name, Strip(source)); }
    ReadsBackIff("hrT", call, key, abc);
  }

  /** Every reserved word of JavaScript that is none of Python: the name is the expression and is printed alone. */
  lemma ReservedWordBreaks(w: string, keywords: set<string>, key: NumberKey, abc: Alphabet)
    requires w in RESERVED && w !in keywords && IsIdentifier(w) && w[0] != '_' && w != "N_"
    ensures CleanName(w, keywords) == w && Breaks(w, w, key, abc)
    ensures CallText("hrT", LoneCall(w, w)) == "hrT(" + JsQuote("{" + w + "}") + ", {" + w + "})"
  {
    NameIsKept(w, keywords);
    NamesStay(w);
    UnprintableBreaks(w, w, key, abc);
    LoneText(w);
  }

  lemma LoneText(w: string)
    ensures CallText("hrT", LoneCall(w, w)) == "hrT(" + JsQuote("{" + w + "}") + ", {" + w + "})"
  {
    var objs := [(w, w)];
    assert EntryTexts(objs) == [w];
    assert EntriesText(objs) == w;
    assert Placeholder(w) == "{" + w + "}";
  }

  /** `${this}`, `${null}` and `${true}`. */
  lemma ThisBreaks(w: string, key: NumberKey, abc: Alphabet)
    requires w == "this" || w == "null" || w == "true"
    ensures CleanName(w, {}) == w && Breaks(w, w, key, abc)
  {
    ReservedWordBreaks(w, {}, key, abc);
  }

  lemma StripKeeps(s: string)
    requires s != "" && !IsSpace(s[0]) && !IsSpace(s[|s| - 1])
    ensures Strip(s) == s
  {
    StripBetween(s, 0, |s|);
    assert s[0..|s|] == s;
  }

  /** A name without leading underscores is kept. */
  lemma NameIsKept(name: string, keywords: set<string>)
    requires IsIdentifier(name) && name[0] != '_' && name != "N_" && name !in keywords
    ensures CleanName(name, keywords) == name
  {
    assert !StartsAt(name, 0, "__") by { if |name| >= 2 { assert name[0..2][0] == name[0]; } }
  }

  /** `${a, b.c}`: the comma ends the value of `c`. */
  lemma CommaBreaks(source: string, name: string, key: NumberKey, abc: Alphabet)
    requires source == "a, b.c" && name == "c"
    ensures CleanName(name, {}) == name && Breaks(source, name, key, abc)
  {
    StripKeeps(source);
    NameIsKept(name, {});
    CommaEndsValue(source, abc);
    UnprintableBreaks(source, name, key, abc);
  }

  lemma CommaEndsValue(expr: string, abc: Alphabet)
    requires expr == "a, b.c"
    ensures !IsArgument(expr, abc)
  {
    var se := ArgumentScan(expr, abc);
    CommaFound(SourceOf(expr, abc), se);
    assert !ArgumentBy(expr, abc, se);
  }

  lemma CommaFound(x: L.Source, se: Scan)
    requires Laws(x, se) && x.end == |x.text| && x.text == "a, b.c"
    ensures !Balanced(x, se(0, true).forest, "")
  {
    assert StartsAt(x.text, 0, "a");
    var ok := ScanName(x, se, 0, "a", true);
    ScanSingle(x, se, 1, ok);
  }

  /** `${x // note` with a line end behind it, which is stripped: the comment runs over the closing brackets. */
  lemma CommentBreaks(source: string, name: string, key: NumberKey, abc: Alphabet)
    requires source == "x // note\n" && name == "note"
    ensures CleanName(name, {}) == name && Breaks(source, name, key, abc)
  {
    var expr := source[0..9];
    assert Strip(source) == expr by { StripBetween(source, 0, 9); }
    NameIsKept(name, {});
    CommentIsNoArgument(expr, abc);
    UnprintableBreaks(source, name, key, abc);
  }

  lemma CommentIsNoArgument(expr: string, abc: Alphabet)
    requires expr == "x // note"
    ensures !IsArgument(expr, abc)
  {
    var se := ArgumentScan(expr, abc);
    CommentFound(SourceOf(expr, abc), se);
    assert !ArgumentBy(expr, abc, se);
  }

  lemma CommentFound(x: L.Source, se: Scan)
    requires Laws(x, se) && x.end == |x.text| && x.text == "x // note"
    ensures !Balanced(x, se(0, true).forest, "")
  {
    RunThrough(x, 1, 1, L.ContinuesName);
    assert Law(x, se, 0, true);
    var t := L.Tok(L.Ident, 0, 1, [], 0);
    var ok := L.RegexOk(x, true, [t]);
    assert Law(x, se, 1, ok) && Law(x, se, 2, ok);
    assert L.LeafAt(x, 2, ok).kind.Comment? && IsLineComment(x, 2);
    assert Mark(x, t) == ' ';
  }

  /** `${_01}`: the name is `01`, which is no property name, or that of another property. */
  lemma LeadingZeroBreaks(source: string, name: string, key: NumberKey, abc: Alphabet)
    requires source == "_01" && name == "01" && key(name) != Some(name)
    ensures CleanName(source, {}) == name && Breaks(source, name, key, abc)
  {
    StripKeeps(source);
    ZeroName(source, name);
    UnprintableBreaks(source, name, key, abc);
  }

  /** A literal with a leading zero is not its own name. */
  lemma LeadingZeroIsNoKey(name: string, key: NumberKey)
    requires KeyLaws(key) && IsName(name) && |name| > 1 && name[0] == '0'
    ensures key(name) != Some(name)
  {
  }

  lemma ZeroName(source: string, name: string)
    requires source == "_01" && name == "01"
    ensures CleanName(source, {}) == name
  {
    assert !StartsAt(source, 0, "__") by { assert source[0..2][1] == '0'; }
    assert source[1..] == name;
    assert DropUnderscores(source) == DropUnderscores(source[1..]) == name;
  }
}

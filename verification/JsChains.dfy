/** Template literals in the scripts of Jinja templates (tools/i18n_wrap_code.py, lines 1048-1066): the printed pairs
    of a call are taken apart again at ", " and written as a chain of `split` and `join`. */
module JsChains {
  import opened Text
  import opened Identifiers
  import opened Placeholders
  import opened JsTemplates
  import opened JsObjects
  import opened JsObjectProofs
  import opened JsRewriting
  import opened JsBrokenCalls

  const SEP := ", "

  /** Lines 1058-1063: one printed pair, stripped and split at its first colon, if it has one. */
  function ItemOf(item: string): (string, string) {
    var t := Strip(item);
    var p := Find(t, ":", 0);
    if p.None? then (t, t) else (Strip(t[..p.value]), Strip(t[p.value + 1..]))
  }

  function ItemsOf(items: seq<string>): seq<(string, string)> {
    seq(|items|, i requires 0 <= i < |items| => ItemOf(items[i]))
  }

  /** The pairs that the chain is written from, given what was printed between the braces. */
  function ChainItems(obj: string): seq<(string, string)> { ItemsOf(SplitOn(obj, SEP)) }

  function Link(e: (string, string)): string { ".split('{" + e.0 + "}').join(" + e.1 + ")" }

  /** Lines 1055-1065. */
  method WriteChain(literal: string, obj: string) returns (chain: string)
    ensures chain == literal + Concat(Link, ChainItems(obj))
  {
    var items := SplitOn(obj, SEP);
    chain := literal;
    for n := 0 to |items|
      invariant chain == literal + Concat(Link, ChainItems(obj)[..n])
    {
      var link := WriteLink(Strip(items[n]), items[n]);
      LinkAdded(ChainItems(obj), n);
      Assoc(literal, Concat(Link, ChainItems(obj)[..n]), link);
      chain := chain + link;
    }
    assert ChainItems(obj)[..|items|] == ChainItems(obj);
  }

  /** The two cases of lines 1059-1063. */
  method WriteLink(item: string, ghost raw: string) returns (link: string)
    requires item == Strip(raw)
    ensures link == Link(ItemOf(raw))
  {
    var p := Find(item, ":", 0);
    if p.Some? {
      link := Link((Strip(item[..p.value]), Strip(item[p.value + 1..])));
    } else {
      link := Link((item, item));
    }
  }

  lemma LinkAdded(items: seq<(string, string)>, n: nat)
    requires n < |items|
    ensures Concat(Link, items[..n + 1]) == Concat(Link, items[..n]) + Link(items[n])
  {
    ConcatAppend(Link, items[..n], [items[n]]);
    ConcatOne(Link, items[n]);
    assert items[..n + 1] == items[..n] + [items[n]];
  }

  // ------------------------------------------------------------------ splitting what was joined

  lemma SplitHits(rest: string)
    ensures SplitOn(SEP + rest, SEP) == [""] + SplitOn(rest, SEP)
  {
    var t := SEP + rest;
    assert t[..2] == SEP && t[2..] == rest;
  }

  lemma SplitSkips(c: char, rest: string)
    requires !(SEP <= [c] + rest)
    ensures var r := SplitOn(rest, SEP); SplitOn([c] + rest, SEP) == [[c] + r[0]] + r[1..]
  {
    var t := [c] + rest;
    assert t[1..] == rest;
    if |t| < 2 { assert rest == "" && [c] + "" == t; } else { assert t[..2] != SEP; }
  }

  /** No separator lies across the end of a text and the separator behind it, so joined texts are split one by one. */
  lemma {:induction false} SplitJoined(a: string, b: string)
    ensures SplitOn(a + SEP + b, SEP) == SplitOn(a, SEP) + SplitOn(b, SEP)
  {
    if a == "" {
      assert a + SEP + b == SEP + b;
      SplitHits(b);
    } else if SEP <= a {
      SplitJoined(a[2..], b);
      SplitBehindHit(a, b);
    } else {
      SplitJoined(a[1..], b);
      SplitBehindSkip(a, b);
    }
  }

  lemma SplitBehindHit(a: string, b: string)
    requires SEP <= a && SplitOn(a[2..] + SEP + b, SEP) == SplitOn(a[2..], SEP) + SplitOn(b, SEP)
    ensures SplitOn(a + SEP + b, SEP) == SplitOn(a, SEP) + SplitOn(b, SEP)
  {
    var rest := a[2..];
    assert a == SEP + rest && a + SEP + b == SEP + (rest + SEP + b);
    SplitHits(rest);
    SplitHits(rest + SEP + b);
    Assoc([""], SplitOn(rest, SEP), SplitOn(b, SEP));
  }

  lemma SplitBehindSkip(a: string, b: string)
    requires a != "" && !(SEP <= a) && SplitOn(a[1..] + SEP + b, SEP) == SplitOn(a[1..], SEP) + SplitOn(b, SEP)
    ensures SplitOn(a + SEP + b, SEP) == SplitOn(a, SEP) + SplitOn(b, SEP)
  {
    var c, rest := a[0], a[1..];
    NoSepAcross(a, b);
    SplitSkips(c, rest);
    SplitSkips(c, rest + SEP + b);
    FirstOfSplits(c, SplitOn(rest, SEP), SplitOn(b, SEP));
  }

  lemma NoSepAcross(a: string, b: string)
    requires a != "" && !(SEP <= a)
    ensures a == [a[0]] + a[1..] && a + SEP + b == [a[0]] + (a[1..] + SEP + b) && !(SEP <= a + SEP + b)
  {
    assert |a| == 1 ==> (a + SEP + b)[1] == ',';
  }

  lemma FirstOfSplits(c: char, r: seq<string>, m: seq<string>)
    requires r != []
    ensures [[c] + (r + m)[0]] + (r + m)[1..] == [[c] + r[0]] + r[1..] + m
  {
    assert (r + m)[1..] == r[1..] + m;
  }

  lemma OccursFrom(t: string)
    requires t != ""
    ensures Occurs(SEP, t) <==> SEP <= t || Occurs(SEP, t[1..])
  {
    if i: nat :| i <= |t| && StartsAt(t, i, SEP) {
      if i > 0 { assert t[1..][i - 1..i + 1] == t[i..i + 2] && StartsAt(t[1..], i - 1, SEP); }
    }
    if i: nat :| i <= |t| - 1 && StartsAt(t[1..], i, SEP) {
      assert t[1..][i..i + 2] == t[i + 1..i + 3] && StartsAt(t, i + 1, SEP);
    }
    if SEP <= t { assert StartsAt(t, 0, SEP); }
  }

  lemma {:induction false} SplitsIff(t: string)
    ensures if Occurs(SEP, t) then |SplitOn(t, SEP)| > 1 else SplitOn(t, SEP) == [t]
  {
    if t == "" {
      assert !Occurs(SEP, t);
    } else {
      OccursFrom(t);
      if SEP <= t {
        assert t == SEP + t[2..];
        SplitHits(t[2..]);
      } else {
        assert t == [t[0]] + t[1..];
        SplitSkips(t[0], t[1..]);
        SplitsIff(t[1..]);
      }
    }
  }

  // ------------------------------------------------------------------ one pair

  lemma EntryHasSep(e: (string, string))
    requires IsName(e.0)
    ensures Occurs(SEP, EntryText(e)) <==> Occurs(SEP, e.1)
  {
    var t, n := EntryText(e), |e.0| + 2;
    if e.0 != e.1 {
      assert forall k :: 0 <= k < |e.0| ==> t[k] == e.0[k];
      assert t[n - 2] == ':' && t[n - 1] == ' ' && t[n..] == e.1;
      if i: nat :| i <= |t| && StartsAt(t, i, SEP) {
        StartsAtChars(t, i, SEP);
        assert t[i + 0] == ',' && i >= n;
        assert e.1[i - n..i - n + 2] == t[i..i + 2] && StartsAt(e.1, i - n, SEP);
      }
      if i: nat :| i <= |e.1| && StartsAt(e.1, i, SEP) {
        assert e.1[i..i + 2] == t[n + i..n + i + 2] && StartsAt(t, n + i, SEP);
      }
    }
  }

  lemma ColonAt(t: string, p: nat)
    requires p < |t| && t[p] == ':' && ':' !in t[..p]
    ensures Find(t, ":", 0) == Some(p)
  {
    assert t[p..p + 1] == ":" && StartsAt(t, p, ":");
    forall k | 0 <= k < p ensures !StartsAt(t, k, ":") {
      assert t[..p][k] == t[k] && t[k..k + 1][0] == t[k];
    }
  }

  lemma NoColon(t: string)
    requires ':' !in t
    ensures Find(t, ":", 0) == None
  {
    forall k | 0 <= k < |t| ensures !StartsAt(t, k, ":") {
      assert t[k..k + 1][0] == t[k];
    }
  }

  lemma ItemOfEntry(e: (string, string))
    requires Plain(e)
    ensures ItemOf(EntryText(e)) == e
  {
    OuterCharacters(e.1);
    StripKeeps(e.0);
    if e.0 == e.1 { NoColon(e.0); } else { LongItem(e.0, e.1, EntryText(e)); }
  }

  lemma LongItem(name: string, expr: string, t: string)
    requires IsName(name) && expr != "" && !IsSpace(expr[0]) && !IsSpace(expr[|expr| - 1]) && Strip(name) == name
    requires t == name + ": " + expr
    ensures ItemOf(t) == (name, expr)
  {
    var n := |name|;
    ItemParts(name, expr, t);
    StripKeeps(t);
    ColonAt(t, n);
    BlankStrips(expr);
  }

  lemma ItemParts(name: string, expr: string, t: string)
    requires name != "" && expr != "" && t == name + ": " + expr
    ensures var n := |name|;
            && t[..n] == name && t[n] == ':' && t[n + 1..] == " " + expr
            && t[|t| - 1] == expr[|expr| - 1] && t[0] == name[0]
  {
    assert ": " == ":" + " ";
    Assoc(name + ":", " ", expr);
    var a := name + ":";
    assert t == a + (" " + expr) && a[|name|] == ':';
  }

  lemma BlankStrips(expr: string)
    requires expr != "" && !IsSpace(expr[0]) && !IsSpace(expr[|expr| - 1])
    ensures Strip(" " + expr) == expr
  {
    var v := " " + expr;
    assert v[1..|v|] == expr && v[|v| - 1] == expr[|expr| - 1];
    StripBetween(v, 1, |v|);
  }

  // ------------------------------------------------------------------ all pairs

  predicate NoSeparators(objs: seq<(string, string)>) { forall k :: 0 <= k < |objs| ==> !Occurs(SEP, objs[k].1) }

  lemma ConsSeparators(e: (string, string), rest: seq<(string, string)>)
    ensures NoSeparators([e] + rest) <==> !Occurs(SEP, e.1) && NoSeparators(rest)
  {
    var objs := [e] + rest;
    assert objs[0] == e && forall k :: 1 <= k < |objs| ==> objs[k] == rest[k - 1];
    if NoSeparators(objs) {
      forall k | 0 <= k < |rest| ensures !Occurs(SEP, rest[k].1) { assert objs[k + 1] == rest[k]; }
    }
  }

  lemma ConsEntries(e: (string, string), rest: seq<(string, string)>)
    requires rest != []
    ensures EntryTexts([e] + rest) == [EntryText(e)] + EntryTexts(rest)
    ensures EntriesText([e] + rest) == EntryText(e) + SEP + EntriesText(rest)
  {
    var ts := EntryTexts([e] + rest);
    assert ts[1..] == EntryTexts(rest);
  }

  /** Splitting what was printed gives the printed pairs back, or too many of them. */
  ghost predicate Splits(objs: seq<(string, string)>, items: seq<string>) {
    if NoSeparators(objs) then items == EntryTexts(objs) else |items| > |objs|
  }

  lemma {:induction false} ItemsCount(objs: seq<(string, string)>)
    requires objs != [] && forall k :: 0 <= k < |objs| ==> IsName(objs[k].0)
    ensures Splits(objs, SplitOn(EntriesText(objs), SEP))
  {
    var e, rest := objs[0], objs[1..];
    assert objs == [e] + rest;
    EntryHasSep(e);
    SplitsIff(EntryText(e));
    ConsSeparators(e, rest);
    if rest == [] {
      assert EntryTexts(objs) == [EntryText(e)];
    } else {
      ItemsCount(rest);
      ConsEntries(e, rest);
      SplitJoined(EntryText(e), EntriesText(rest));
      SplitsCons(e, rest, SplitOn(EntryText(e), SEP), SplitOn(EntriesText(rest), SEP));
    }
  }

  lemma SplitsCons(e: (string, string), rest: seq<(string, string)>, first: seq<string>, more: seq<string>)
    requires rest != [] && Splits(rest, more)
    requires if Occurs(SEP, e.1) then |first| > 1 else first == [EntryText(e)]
    ensures Splits([e] + rest, first + more)
  {
    ConsSeparators(e, rest);
    ConsEntries(e, rest);
  }

  lemma ItemsOfEntries(objs: seq<(string, string)>)
    requires forall k :: 0 <= k < |objs| ==> Plain(objs[k])
    ensures ItemsOf(EntryTexts(objs)) == objs
  {
    forall k | 0 <= k < |objs| ensures ItemOf(EntryTexts(objs)[k]) == objs[k] { ItemOfEntry(objs[k]); }
  }

  /** The chain is written from the pairs of the call if and only if no expression holds a comma with a blank behind
      it. */
  lemma ChainItemsIff(parts: seq<Part>, call: HrtCall)
    requires Rewrites(parts, call) && call.objs != []
    ensures ChainItems(EntriesText(call.objs)) == call.objs <==> NoSeparators(call.objs)
  {
    forall k | 0 <= k < |call.objs| ensures Plain(call.objs[k]) { RewrittenIsPlain(parts, call, k); }
    ItemsCount(call.objs);
    ItemsOfEntries(call.objs);
  }

  /** With values in which no placeholder begins, the chain is written from the pairs of the call and filling them in
      gives the value of the literal, if and only if no expression holds a comma with a blank behind it, no raw text
      holds a carriage return and no hole is undefined. */
  lemma ChainKeepsMeaningIff(env: string -> JsValue, parts: seq<Part>, call: HrtCall)
    requires Rewrites(parts, call) && call.objs != [] && HarmlessValues(env, call.objs)
    ensures var items := ChainItems(EntriesText(call.objs));
            items == call.objs && Shim(call.msgid, items, env) == TemplateValue(env, parts)
            <==> NoSeparators(call.objs) && NoRawReturns(parts) && AllDefined(env, parts)
  {
    ChainItemsIff(parts, call);
    assert IsOrderOf(call.objs, call.objs) by { NamesDiffer(parts, call); }
    ValuePreservedIff(env, parts, call, call.objs);
  }

  lemma NamesDiffer(parts: seq<Part>, call: HrtCall)
    requires Rewrites(parts, call)
    ensures forall i, j :: 0 <= i < j < |call.objs| ==> call.objs[i].0 != call.objs[j].0
  {
    var d :| Drafts(parts, Read, d) && call == HrtCall(Fill(d.items, map[]), d.kwargs);
  }

  /** `${f(a, b)}`, whatever its name: the comma between the arguments splits the pair. */
  lemma ArgumentsAreSplit(source: string, name: string)
    requires source == "f(a, b)" && IsName(name)
    ensures var call := LoneCall(name, source);
            Rewrites(LoneHole(source), call) && ChainItems(EntriesText(call.objs)) != call.objs
  {
    StripKeeps(source);
    LoneRewrites(source, name);
    assert StartsAt(source, 3, SEP);
    ChainItemsIff(LoneHole(source), LoneCall(name, source));
    assert LoneCall(name, source).objs[0].1 == source;
  }
}

/** Which values a rewritten template literal (`_js_tpl_to_call` and the shim `hrT` in tools/i18n_wrap_code.py)
    survives: the shim fills names one after the other, so a value that reads as a placeholder is filled in again. */
module JsBraces {
  import opened Text
  import opened Identifiers
  import opened Placeholders
  import opened JsTemplates

  // ------------------------------------------------------------------ removing a placeholder shortens the text

  ghost predicate OccursIn(pat: string, t: string) {
    exists i :: 0 <= i <= |t| && pat <= t[i..]
  }

  /** A placeholder does not overlap itself. */
  lemma NoOverlap(t: string, name: string)
    requires IsName(name) && t != "" && Placeholder(name) <= t + Placeholder(name)
    ensures Placeholder(name) <= t
  {
    var p := Placeholder(name);
    assert forall i :: 1 <= i < |p| ==> p[i] != '{';
    assert (t + p)[|t|] == p[0];
    assert forall i :: 0 <= i < |p| ==> p[i] == (t + p)[i];
  }

  /** Taking out every occurrence of a placeholder from a text with one at its end removes at least that one, and more
      if the text has one already. */
  lemma {:induction false} Shortened(t: string, name: string)
    requires IsName(name)
    ensures |Replaced(t + Placeholder(name), Placeholder(name), "")| <= |t|
    ensures OccursIn(Placeholder(name), t) ==> |Replaced(t + Placeholder(name), Placeholder(name), "")| < |t|
    decreases |t|
  {
    var p := Placeholder(name);
    if t == "" {
      assert t + p == p + "";
      ReplacedHits(p, "", "");
    } else if p <= t + p {
      NoOverlap(t, name);
      var rest := t[|p|..];
      assert t + p == p + (rest + p);
      ReplacedHits(p, rest + p, "");
      Shortened(rest, name);
    } else {
      assert (t + p)[1..] == t[1..] + p;
      ReplacedSkips(t + p, p, "");
      Shortened(t[1..], name);
      if OccursIn(p, t) {
        var i :| 0 <= i <= |t| && p <= t[i..];
        assert t[0..] == t && (p <= t ==> p <= t + p);
        assert t[1..][i - 1..] == t[i..];
      }
    }
  }

  // ------------------------------------------------------------------ a call that goes wrong

  /** `${x}${y}${n}`: three different names, each its own expression. */
  function Triple(x: string, y: string, n: string): seq<Part> { [Code(x), Code(y), Code(n)] }

  function TripleCall(x: string, y: string, n: string): HrtCall {
    HrtCall(Placeholder(x) + Placeholder(y) + Placeholder(n), [(x, x), (y, y), (n, n)])
  }

  lemma NamesStay(n: string)
    requires IsName(n)
    ensures Strip(n) == n && Read(Code(n)) == Some(Hole(n))
  {
  }

  lemma TripleRewrites(x: string, y: string, n: string)
    requires IsName(x) && IsName(y) && IsName(n) && x != y && x != n && y != n
    ensures Rewrites(Triple(x, y, n), TripleCall(x, y, n))
  {
    var parts, slots, d := Triple(x, y, n), [Hole(x), Hole(y), Hole(n)], TripleDraft(x, y, n);
    TripleSlots(x, y, n);
    TripleIsOk(x, y, n);
    RewritesBy(parts, slots, d);
    assert Fill(d.items, map[]) == TripleCall(x, y, n).msgid by { TripleFill(x, y, n, map[]); }
  }

  lemma TripleSlots(x: string, y: string, n: string)
    requires IsName(x) && IsName(y) && IsName(n)
    ensures AllRead(Triple(x, y, n), Read) && SlotsOf(Triple(x, y, n), Read) == [Hole(x), Hole(y), Hole(n)]
  {
    NamesStay(x);
    NamesStay(y);
    NamesStay(n);
  }

  function TripleDraft(x: string, y: string, n: string): Draft {
    Draft([Ref(x), Ref(y), Ref(n)], [(x, x), (y, y), (n, n)], {x, y, n}, map[x := x, y := y, n := n])
  }

  lemma TripleIsOk(x: string, y: string, n: string)
    requires IsName(x) && IsName(y) && IsName(n) && x != y && x != n && y != n
    ensures Ok([Hole(x), Hole(y), Hole(n)], TripleDraft(x, y, n))
  {
    var slots, objs := [Hole(x), Hole(y), Hole(n)], [(x, x), (y, y), (n, n)];
    assert slots[0] == Hole(x) && slots[1] == Hole(y) && slots[2] == Hole(n);
    assert objs[0] == (x, x) && objs[1] == (y, y) && objs[2] == (n, n);
  }

  function OneFilled(name: string, done: map<string, string>): string {
    if name in done then done[name] else Placeholder(name)
  }

  lemma TripleFill(x: string, y: string, n: string, done: map<string, string>)
    ensures Fill([Ref(x), Ref(y), Ref(n)], done) == OneFilled(x, done) + OneFilled(y, done) + OneFilled(n, done)
  {
    FillCons(Ref(x), [Ref(y), Ref(n)], done);
    FillCons(Ref(y), [Ref(n)], done);
    FillCons(Ref(n), [], done);
    assert [Ref(n)] + [] == [Ref(n)] && [Ref(y)] + [Ref(n)] == [Ref(y), Ref(n)];
    assert [Ref(x)] + [Ref(y), Ref(n)] == [Ref(x), Ref(y), Ref(n)];
    Assoc(OneFilled(x, done), OneFilled(y, done), OneFilled(n, done));
    assert OneFilled(n, done) + "" == OneFilled(n, done);
  }

  lemma FillCons(it: Item, rest: seq<Item>, done: map<string, string>)
    requires it.Ref?
    ensures Fill([it] + rest, done) == OneFilled(it.name, done) + Fill(rest, done)
  {
    assert ([it] + rest)[1..] == rest;
  }

  /** A name longer than the text before it cannot be found earlier than where it stands. */
  lemma {:induction false} LongNameHits(v: string, name: string, rest: string, rep: string)
    requires IsName(name) && |v| <= |name|
    ensures Replaced(v + Placeholder(name) + rest, Placeholder(name), rep)
            == v + rep + Replaced(rest, Placeholder(name), rep)
  {
    var p := Placeholder(name);
    var t := v + p + rest;
    if v == "" {
      assert t == p + rest;
      ReplacedHits(p, rest, rep);
      assert v + rep == rep;
    } else {
      assert t[|v|] == p[0] && p[|v|] != p[0];
      assert !(p <= t) by { assert p[|v|] != t[|v|]; }
      ReplacedSkips(t, p, rep);
      assert t[1..] == v[1..] + p + rest;
      LongNameHits(v[1..], name, rest, rep);
      assert v + rep + Replaced(rest, p, rep) == [v[0]] + (v[1..] + rep + Replaced(rest, p, rep));
    }
  }

  lemma FillX(x: string, y: string, n: string, v: string)
    requires IsName(x) && IsName(y) && IsName(n) && x != y && x != n && y != n
    ensures Replaced(Placeholder(x) + Placeholder(y) + Placeholder(n), Placeholder(x), v)
            == v + Placeholder(y) + Placeholder(n)
  {
    var items := [Ref(x), Ref(y), Ref(n)];
    FillStep(items, map[], x, v);
    TripleFill(x, y, n, map[]);
    TripleFill(x, y, n, map[x := v]);
  }

  lemma FillY(y: string, n: string, v: string, q: string)
    requires IsName(y) && IsName(n) && y != n && |v| <= |y|
    ensures Replaced(v + Placeholder(y) + Placeholder(n), Placeholder(y), q) == v + q + Placeholder(n)
  {
    LongNameHits(v, y, Placeholder(n), q);
    ReplacedSkipsOther(n, "", y, q);
    assert Placeholder(n) + "" == Placeholder(n) && Placeholder(n) + Replaced("", Placeholder(y), q) == Placeholder(n);
  }

  /** The shim on that call, in the order of the object, when the second name is longer than the first value. */
  lemma TripleShim(x: string, y: string, n: string, v: string, q: string, env: string -> JsValue)
    requires IsName(x) && IsName(y) && IsName(n) && x != y && x != n && y != n && |v| <= |y|
    requires env(x) == Known(v) && env(y) == Known(q) && env(n) == Known("")
    ensures Shim(TripleCall(x, y, n).msgid, TripleCall(x, y, n).objs, env)
            == Replaced(v + q + Placeholder(n), Placeholder(n), "")
  {
    FillX(x, y, n, v);
    FillY(y, n, v, q);
    ShimStep(Placeholder(x) + Placeholder(y) + Placeholder(n), (x, x), [(y, y), (n, n)], env);
    ShimStep(v + Placeholder(y) + Placeholder(n), (y, y), [(n, n)], env);
    ShimStep(v + q + Placeholder(n), (n, n), [], env);
    assert [(x, x)] + [(y, y), (n, n)] == [(x, x), (y, y), (n, n)] && [(y, y)] + [(n, n)] == [(y, y), (n, n)];
    assert [(n, n)] + [] == [(n, n)];
  }

  lemma ShimStep(t: string, e: (string, string), rest: seq<(string, string)>, env: string -> JsValue)
    ensures Shim(t, [e] + rest, env) == Shim(Replaced(t, Placeholder(e.0), Separator(env(e.1))), rest, env)
  {
    assert ([e] + rest)[1..] == rest;
  }

  lemma ConcatCons(f: Part -> string, p: Part, rest: seq<Part>)
    ensures Concat(f, [p] + rest) == f(p) + Concat(f, rest)
  {
    assert ([p] + rest)[1..] == rest;
  }

  lemma TripleSubstituted(x: string, y: string, n: string, v: string, q: string, env: string -> JsValue)
    requires IsName(x) && IsName(y) && IsName(n)
    requires env(x) == Known(v) && env(y) == Known(q) && env(n) == Known("")
    ensures Concat(Substitutes(env), Triple(x, y, n)) == v + q
  {
    NamesStay(x);
    NamesStay(y);
    NamesStay(n);
    var f := Substitutes(env);
    assert f(Code(x)) == v && f(Code(y)) == q && f(Code(n)) == "";
    ConcatCons(f, Code(x), [Code(y), Code(n)]);
    ConcatCons(f, Code(y), [Code(n)]);
    ConcatCons(f, Code(n), []);
    assert [Code(x)] + [Code(y), Code(n)] == Triple(x, y, n) && [Code(y)] + [Code(n)] == [Code(y), Code(n)];
    assert [Code(n)] + [] == [Code(n)];
    assert q + "" == q;
  }

  // ------------------------------------------------------------------ exactly the harmless values are safe

  /** One hole has the value v, and no other value has an opening brace. */
  ghost predicate OneSuspect(env: string -> JsValue, objs: seq<(string, string)>, expr: string, v: string) {
    && env(expr) == Known(v)
    && forall k :: 0 <= k < |objs| && objs[k].1 != expr ==> '{' !in Separator(env(objs[k].1))
  }

  /** A rewritten literal with v in one hole. */
  ghost predicate UsesValue(env: string -> JsValue, parts: seq<Part>, call: HrtCall, order: seq<(string, string)>,
                            v: string) {
    && Rewrites(parts, call) && IsOrderOf(order, call.objs)
    && exists expr :: OneSuspect(env, call.objs, expr, v)
  }

  /** In every rewritten literal the value is put in as it is. */
  ghost predicate Safe(v: string) {
    forall env, parts, call, order :: UsesValue(env, parts, call, order, v) ==>
      Shim(call.msgid, order, env) == Concat(Substitutes(env), parts)
  }

  lemma {:induction false} Suspicious(v: string) returns (i: nat)
    requires !Harmless(v)
    ensures i < |v| && Opens(v[i..])
  {
    if Opens(v) {
      assert v[0..] == v;
      i := 0;
    } else {
      var j := Suspicious(v[1..]);
      assert v[1..][j..] == v[j + 1..];
      i := j + 1;
    }
  }

  /** With some text behind it, a value that is not harmless holds a placeholder. */
  lemma Completes(v: string) returns (n: string, q: string)
    requires !Harmless(v)
    ensures IsName(n) && '{' !in q && OccursIn(Placeholder(n), v + q)
  {
    var i := Suspicious(v);
    var s := v[i..];
    var m := NameRun(s[1..]);
    if m + 1 == |s| {
      n, q := s[1..] + "z", "z}";
      assert s == "{" + s[1..];
      assert (v + q)[i..] == s + q == Placeholder(n);
    } else {
      n, q := s[1..m + 1], "";
      assert forall k :: 0 <= k < m ==> n[k] == s[1..][k];
      assert v + q == v;
      assert s[..m + 2] == Placeholder(n);
    }
  }

  function Ys(k: nat): (r: string)
    ensures |r| == k && forall i :: 0 <= i < k ==> IsNameChar(r[i])
  {
    seq(k, _ => 'y')
  }

  /** A call the rewriter emits for a value that is not harmless, where the shim does not put it in as it is. */
  lemma BreaksFor(v: string)
    requires !Harmless(v)
    ensures !Safe(v)
  {
    var n, q := Completes(v);
    var x, y := n + "x", n + Ys(|v| + 2);
    var env := (e: string) => if e == x then Known(v) else if e == y then Known(q) else Known("");
    TripleBreaks(x, y, n, v, q, env);
  }

  lemma TripleBreaks(x: string, y: string, n: string, v: string, q: string, env: string -> JsValue)
    requires IsName(x) && IsName(y) && IsName(n) && x != y && x != n && y != n && |v| <= |y|
    requires env(x) == Known(v) && env(y) == Known(q) && env(n) == Known("")
    requires '{' !in q && OccursIn(Placeholder(n), v + q)
    ensures !Safe(v)
  {
    var parts, call := Triple(x, y, n), TripleCall(x, y, n);
    assert UsesValue(env, parts, call, call.objs, v) by {
      TripleRewrites(x, y, n);
      assert IsOrderOf(call.objs, call.objs);
      assert OneSuspect(env, call.objs, x, v);
    }
    assert |Shim(call.msgid, call.objs, env)| < |Concat(Substitutes(env), parts)| by {
      TripleShim(x, y, n, v, q, env);
      TripleSubstituted(x, y, n, v, q, env);
      Shortened(v + q, n);
    }
  }

  lemma SuspectIsHarmless(env: string -> JsValue, objs: seq<(string, string)>, expr: string, v: string)
    requires OneSuspect(env, objs, expr, v) && Harmless(v)
    ensures HarmlessValues(env, objs)
  {
    forall k | 0 <= k < |objs| ensures Harmless(Separator(env(objs[k].1))) {
      if objs[k].1 != expr { NoBraceIsHarmless(Separator(env(objs[k].1))); }
    }
  }

  /** A value is put in as it is in every rewritten literal, in whatever order the properties are filled and whatever
      the other values are as long as they have no opening brace, if and only if no placeholder begins in it: it holds
      no `{name}` and does not end in an opening brace and the beginning of a name. */
  lemma SafeIff(v: string)
    ensures Safe(v) <==> Harmless(v)
  {
    if Harmless(v) {
      forall env, parts, call, order | UsesValue(env, parts, call, order, v)
        ensures Shim(call.msgid, order, env) == Concat(Substitutes(env), parts)
      {
        var expr :| OneSuspect(env, call.objs, expr, v);
        SuspectIsHarmless(env, call.objs, expr, v);
        ShimSubstitutes(env, parts, call, order);
      }
    } else {
      BreaksFor(v);
    }
  }

  // ------------------------------------------------------------------ the smallest case

  function Pair(x: string, y: string): seq<Part> { [Code(x), Code(y)] }

  function PairCall(x: string, y: string): HrtCall { HrtCall(Placeholder(x) + Placeholder(y), [(x, x), (y, y)]) }

  /** `${x}${y}` with the placeholder of y as the value of x: the call has the value of the literal only if y's value
      is that same text. */
  lemma BracesInValuesAreFilledAgain(env: string -> JsValue, x: string, y: string, w: string)
    requires IsName(x) && IsName(y) && x != y && env(x) == Known(Placeholder(y)) && env(y) == Known(w)
    ensures Rewrites(Pair(x, y), PairCall(x, y)) && IsOrderOf(PairCall(x, y).objs, PairCall(x, y).objs)
    ensures Shim(PairCall(x, y).msgid, PairCall(x, y).objs, env) == w + w
    ensures TemplateValue(env, Pair(x, y)) == Placeholder(y) + w
    ensures w + w == Placeholder(y) + w <==> w == Placeholder(y)
  {
    PairRewrites(x, y);
    assert IsOrderOf(PairCall(x, y).objs, PairCall(x, y).objs);
    PairShim(env, x, y, w);
    PairValue(env, x, y, w);
    assert w + w == Placeholder(y) + w ==> |w| == |Placeholder(y)| && (w + w)[..|w|] == w;
  }

  lemma PairShim(env: string -> JsValue, x: string, y: string, w: string)
    requires IsName(x) && IsName(y) && x != y && env(x) == Known(Placeholder(y)) && env(y) == Known(w)
    ensures Shim(PairCall(x, y).msgid, PairCall(x, y).objs, env) == w + w
  {
    var p := Placeholder(y);
    ReplacedHits(Placeholder(x), p, p);
    ReplacedSkipsOther(y, "", x, p);
    assert p + "" == p && Replaced("", Placeholder(x), p) == "" && p + Replaced("", Placeholder(x), p) == p;
    ReplacedHits(p, p, w);
    ReplacedHits(p, "", w);
    assert Replaced("", p, w) == "" && w + "" == w;
    ShimStep(Placeholder(x) + p, (x, x), [(y, y)], env);
    ShimStep(p + p, (y, y), [], env);
    assert [(x, x)] + [(y, y)] == [(x, x), (y, y)] && [(y, y)] + [] == [(y, y)];
  }

  lemma PairValue(env: string -> JsValue, x: string, y: string, w: string)
    requires IsName(x) && IsName(y) && env(x) == Known(Placeholder(y)) && env(y) == Known(w)
    ensures TemplateValue(env, Pair(x, y)) == Placeholder(y) + w
  {
    NamesStay(x);
    NamesStay(y);
    ConcatCons(Values(env), Code(x), [Code(y)]);
    ConcatCons(Values(env), Code(y), []);
    assert [Code(x)] + [Code(y)] == [Code(x), Code(y)] && [Code(y)] + [] == [Code(y)] && w + "" == w;
  }

  lemma PairRewrites(x: string, y: string)
    requires IsName(x) && IsName(y) && x != y
    ensures Rewrites(Pair(x, y), PairCall(x, y))
  {
    var d := Draft([Ref(x), Ref(y)], [(x, x), (y, y)], {x, y}, map[x := x, y := y]);
    assert AllRead(Pair(x, y), Read) && SlotsOf(Pair(x, y), Read) == [Hole(x), Hole(y)] by {
      NamesStay(x);
      NamesStay(y);
    }
    PairIsOk(x, y);
    RewritesBy(Pair(x, y), [Hole(x), Hole(y)], d);
    PairFill(x, y);
  }

  lemma PairFill(x: string, y: string)
    ensures Fill([Ref(x), Ref(y)], map[]) == Placeholder(x) + Placeholder(y)
  {
    FillCons(Ref(x), [Ref(y)], map[]);
    FillCons(Ref(y), [], map[]);
    assert [Ref(y)] + [] == [Ref(y)] && [Ref(x)] + [Ref(y)] == [Ref(x), Ref(y)]
           && Placeholder(y) + "" == Placeholder(y);
  }

  lemma PairIsOk(x: string, y: string)
    requires IsName(x) && IsName(y) && x != y
    ensures Ok([Hole(x), Hole(y)], Draft([Ref(x), Ref(y)], [(x, x), (y, y)], {x, y}, map[x := x, y := y]))
  {
    var slots, objs := [Hole(x), Hole(y)], [(x, x), (y, y)];
    assert slots[0] == Hole(x) && slots[1] == Hole(y) && objs[0] == (x, x) && objs[1] == (y, y);
  }
}

/** Rewriting an f-string as `_tr('… %(name)s …', name=expr)` (`_fstring_call` in tools/i18n_wrap_code.py) and what the
    rewritten call evaluates to without a translation (`_tr` in app/i18n_text.py). */
module FStrings {
  import opened Text
  import opened Identifiers
  import opened PercentFormat
  import opened Quotes
  import opened Placeholders

  // ------------------------------------------------------------------ f-strings and their value

  datatype Conversion = Direct | Str | Repr | Ascii
  datatype Spec = NoSpec | Static(text: string) | Dynamic

  /** The values of an `ast.JoinedStr`. `expr` is the unparsed source of the expression. */
  datatype Part = Literal(text: string) | Hole(expr: string, conv: Conversion, spec: Spec) | Unknown

  /** What the rewriting accepts. */
  predicate Supported(p: Part) {
    match p
    case Literal(_) => true
    case Hole(expr, _, spec) => '\n' !in expr && !spec.Dynamic?
    case Unknown => false
  }

  /** Evaluation of pure expressions over some universe of objects, with the built-in functions. */
  datatype Env<!V> = Env(
    eval: string -> V,
    str: V -> string,
    repr: V -> string,
    ascii: V -> string,
    format: (V, string) -> string,
    lift: string -> V)              // a string as an object

  function ConvertedValue<V>(env: Env<V>, h: Part): V
    requires h.Hole?
  {
    var v := env.eval(h.expr);
    match h.conv
    case Direct => v
    case Str => env.lift(env.str(v))
    case Repr => env.lift(env.repr(v))
    case Ascii => env.lift(env.ascii(v))
  }

  /** What a part contributes: a hole is `format(converted, spec)`, with the empty spec by default. */
  function PartValue<V>(env: Env<V>, p: Part): string {
    match p
    case Literal(s) => s
    case Hole(_, _, spec) => env.format(ConvertedValue(env, p), if spec.Static? then spec.text else "")
    case Unknown => ""
  }

  function FStringValue<V>(env: Env<V>, parts: seq<Part>): string {
    if parts == [] then "" else PartValue(env, parts[0]) + FStringValue(env, parts[1..])
  }

  // ------------------------------------------------------------------ the rewritten call

  function ConvertedText(h: Part): string
    requires h.Hole?
  {
    match h.conv
    case Direct => h.expr
    case Str => "str(" + h.expr + ")"
    case Repr => "repr(" + h.expr + ")"
    case Ascii => "ascii(" + h.expr + ")"
  }

  /** The source text of the keyword argument for a hole. */
  function ValueText(h: Part): string
    requires h.Hole?
  {
    if h.spec.Static? then "format(" + ConvertedText(h) + ", " + PyQuote(h.spec.text) + ")" else ConvertedText(h)
  }

  datatype TrCall = TrCall(msgid: string, kwargs: seq<(string, string)>)

  /** The texts the keyword arguments format to with %s; a later argument of the same name would win. */
  function KeywordTexts<V>(env: Env<V>, kwargs: seq<(string, string)>): map<string, string> {
    if kwargs == [] then map[]
    else
      var last := kwargs[|kwargs| - 1];
      KeywordTexts(env, kwargs[..|kwargs| - 1])[last.0 := env.str(env.eval(last.1))]
  }

  /** `_tr(msgid, **kw)` with no translation active; None stands for its fallback after a formatting error. */
  function Untranslated<V>(env: Env<V>, call: TrCall): Option<string> {
    if call.kwargs == [] then Some(call.msgid) else Format(call.msgid, KeywordTexts(env, call.kwargs))
  }

  // ------------------------------------------------------------------ what the rewriting establishes

  function RenderItem(it: Item): string {
    if it.Lit? then Double(it.text) else "%(" + it.name + ")s"
  }

  /** The joined message: literals with doubled percent signs, holes as placeholders. */
  function Render(items: seq<Item>): string {
    if items == [] then "" else RenderItem(items[0]) + Render(items[1..])
  }

  /** What a part contributes to the message, if it is supported. */
  function Read(p: Part): Option<Slot> {
    if !Supported(p) then None else Some(if p.Literal? then Words(p.text) else Placeholders.Hole(ValueText(p)))
  }

  /** Lines 250-254. */
  function CallOf(d: Draft): TrCall {
    TrCall(if d.kwargs == [] then Undouble(Render(d.items)) else Render(d.items), d.kwargs)
  }

  /** The call is the one for some consistent naming of the f-string's holes. */
  ghost predicate Rewrites(parts: seq<Part>, call: TrCall) {
    exists d :: Drafts(parts, Read, d) && call == CallOf(d)
  }

  /** Values of other kinds, expressions on several lines, and format specs that are computed. */
  predicate IsUnsupported(p: Part) { p.Unknown? || (p.Hole? && ('\n' in p.expr || p.spec.Dynamic?)) }

  function BaseNames(hint: string -> string, keywords: set<string>): Part -> string
    requires forall e :: hint(e) == "" || IsIdentifier(hint(e))
  {
    (p: Part) => if p.Hole? then CleanName(hint(p.expr), keywords) else FALLBACK
  }

  /** `_fstring_call`. `hint` is the name its regular expressions suggest for an expression. */
  method FStringCall(parts: seq<Part>, hint: string -> string, keywords: set<string>) returns (r: Option<TrCall>)
    requires forall e :: hint(e) == "" || IsIdentifier(hint(e))
    ensures r.None? <==> exists i :: 0 <= i < |parts| && IsUnsupported(parts[i])
    ensures r.Some? ==> Rewrites(parts, r.value) && AllNamed(parts, Read, BaseNames(hint, keywords), r.value.kwargs)
  {
    var d := DraftFor(parts, Read, BaseNames(hint, keywords));
    if d.None? {
      var i :| 0 <= i < |parts| && Read(parts[i]).None?;
      return None;
    }
    assert forall i :: 0 <= i < |parts| ==> Read(parts[i]).Some?;
    r := Some(CallOf(d.value));
  }

  // ------------------------------------------------------------------ meaning is preserved

  /** Calls of the built-in functions, as Python evaluates their source: `str`, `repr` and `ascii` of any expression,
      and `format` of any expression with a string literal. (They are not shadowed.) */
  ghost predicate BuiltIns<V(!new)>(env: Env<V>) {
    && (forall e :: env.eval("str(" + e + ")") == env.lift(env.str(env.eval(e))))
    && (forall e :: env.eval("repr(" + e + ")") == env.lift(env.repr(env.eval(e))))
    && (forall e :: env.eval("ascii(" + e + ")") == env.lift(env.ascii(env.eval(e))))
    && (forall e, q :: PyLiteral(q).Some? ==>
          env.eval("format(" + e + ", " + q + ")") == env.lift(env.format(env.eval(e), PyLiteral(q).value)))
  }

  /** A string is its own `str` and formats to itself. */
  ghost predicate StringsAreStrings<V(!new)>(env: Env<V>) {
    forall s :: env.str(env.lift(s)) == s && env.format(env.lift(s), "") == s
  }

  /** What the rewriting relies on: Python's built-in functions, and that a value which is written without conversion
      and spec formats like its `str`. */
  ghost predicate Faithful<V(!new)>(env: Env<V>, parts: seq<Part>) {
    && BuiltIns(env) && StringsAreStrings(env)
    && forall i :: 0 <= i < |parts| && parts[i].Hole? && parts[i].conv.Direct? && parts[i].spec.NoSpec? ==>
         FormatsPlain(env, parts[i].expr)
  }

  predicate FormatsPlain<V>(env: Env<V>, expr: string) { env.format(env.eval(expr), "") == env.str(env.eval(expr)) }

  lemma ConvertedIs<V(!new)>(env: Env<V>, h: Part)
    requires h.Hole? && BuiltIns(env)
    ensures env.eval(ConvertedText(h)) == ConvertedValue(env, h)
  {
  }

  lemma HoleValue<V(!new)>(env: Env<V>, h: Part)
    requires h.Hole? && Supported(h) && BuiltIns(env) && StringsAreStrings(env)
    requires h.conv.Direct? && h.spec.NoSpec? ==> FormatsPlain(env, h.expr)
    ensures env.str(env.eval(ValueText(h))) == PartValue(env, h)
  {
    ConvertedIs(env, h);
    if h.spec.Static? {
      var e, q := ConvertedText(h), PyQuote(h.spec.text);
      PyLiteralOfQuote(h.spec.text);
      assert env.eval("format(" + e + ", " + q + ")") == env.lift(env.format(env.eval(e), h.spec.text));
    }
  }

  lemma {:induction false} KeywordLookup<V>(env: Env<V>, kwargs: seq<(string, string)>, k: nat)
    requires k < |kwargs| && forall i, j :: 0 <= i < j < |kwargs| ==> kwargs[i].0 != kwargs[j].0
    ensures kwargs[k].0 in KeywordTexts(env, kwargs)
            && KeywordTexts(env, kwargs)[kwargs[k].0] == env.str(env.eval(kwargs[k].1))
  {
    var n := |kwargs| - 1;
    if k < n {
      KeywordLookup(env, kwargs[..n], k);
      assert kwargs[..n][k] == kwargs[k] && kwargs[k].0 != kwargs[n].0;
    }
  }

  lemma {:induction false} FormatRendered<V(!new)>(env: Env<V>, parts: seq<Part>, items: seq<Item>,
                                                   names: map<string, string>,
                                             kwargs: seq<(string, string)>)
    requires AllRead(parts, Read) && Matches(SlotsOf(parts, Read), items, names) && Binds(names, kwargs)
             && Faithful(env, parts)
    ensures Format(Render(items), KeywordTexts(env, kwargs)) == Some(FStringValue(env, parts))
  {
    if parts != [] {
      var p, it, kw := parts[0], items[0], KeywordTexts(env, kwargs);
      DraftsTail(parts, Read, items, names);
      FormatRendered(env, parts[1..], items[1..], names, kwargs);
      if p.Literal? {
        FormatDoubled(p.text, Render(items[1..]), kw);
      } else {
        var text := ValueText(p);
        var k :| 0 <= k < |kwargs| && kwargs[k] == (names[text], text);
        KeywordLookup(env, kwargs, k);
        HoleValue(env, p);
        FormatPlaceholder(names[text], Render(items[1..]), kw);
      }
    }
  }

  /** With no hole, un-doubling the message gives the text itself. */
  lemma {:induction false} NoHoles<V>(env: Env<V>, parts: seq<Part>, items: seq<Item>, names: map<string, string>)
    requires AllRead(parts, Read) && Matches(SlotsOf(parts, Read), items, names) && names == map[]
    ensures Render(items) == Double(FStringValue(env, parts))
  {
    if parts != [] {
      DraftsTail(parts, Read, items, names);
      NoHoles(env, parts[1..], items[1..], names);
      DoubleAppend(PartValue(env, parts[0]), FStringValue(env, parts[1..]));
    }
  }

  /** The rewritten call, untranslated, has the value of the f-string: for every list of parts the rewriting accepts and
      every environment of pure expressions. */
  lemma RewritingPreservesMeaning<V(!new)>(env: Env<V>, parts: seq<Part>, call: TrCall)
    requires Rewrites(parts, call) && Faithful(env, parts)
    ensures Untranslated(env, call) == Some(FStringValue(env, parts))
  {
    var d :| Drafts(parts, Read, d) && call == CallOf(d);
    if d.kwargs == [] {
      assert d.names == map[];
      NoHoles(env, parts, d.items, d.names);
      UndoubleDouble(FStringValue(env, parts));
    } else {
      FormatRendered(env, parts, d.items, d.names, d.kwargs);
    }
  }

  /** The call is the one for a lone plain hole. */
  lemma PlainHoleRewrites(expr: string, name: string)
    requires IsName(name) && '\n' !in expr
    ensures Rewrites([Part.Hole(expr, Direct, NoSpec)], TrCall("%(" + name + ")s", [(name, expr)]))
  {
    var p := Part.Hole(expr, Direct, NoSpec);
    var parts, d := [p], Draft([Ref(name)], [(name, expr)], {name}, map[expr := name]);
    var slots := [Placeholders.Hole(expr)];
    assert Read(p) == Some(slots[0]);
    assert AllRead(parts, Read) && SlotsOf(parts, Read) == slots;
    assert slots[0] == Placeholders.Hole(expr) && d.kwargs[0] == (name, expr);
    assert Ok(slots, d);
    assert Render([Ref(name)]) == RenderItem(Ref(name)) + Render([]);
    assert RenderItem(Ref(name)) + "" == RenderItem(Ref(name));
    assert Drafts(parts, Read, d);
  }

  /** The law about values without a spec is needed: for a lone plain hole the meaning is preserved if and only if it
      holds at that value. */
  lemma PlainHoleIff<V(!new)>(env: Env<V>, expr: string, name: string)
    requires IsName(name)
    ensures Untranslated(env, TrCall("%(" + name + ")s", [(name, expr)]))
            == Some(FStringValue(env, [Part.Hole(expr, Direct, NoSpec)]))
            <==> env.format(env.eval(expr), "") == env.str(env.eval(expr))
    ensures '\n' !in expr ==> Rewrites([Part.Hole(expr, Direct, NoSpec)], TrCall("%(" + name + ")s", [(name, expr)]))
  {
    if '\n' !in expr { PlainHoleRewrites(expr, name); }
    var kwargs := [(name, expr)];
    KeywordLookup(env, kwargs, 0);
    FormatPlaceholder(name, "", KeywordTexts(env, kwargs));
    assert "%(" + name + ")s" + "" == "%(" + name + ")s";
    var parts := [Part.Hole(expr, Direct, NoSpec)];
    assert parts[1..] == [] && FStringValue(env, parts) == PartValue(env, parts[0]) + "" == PartValue(env, parts[0]);
    assert env.str(env.eval(expr)) + "" == env.str(env.eval(expr));
  }
}

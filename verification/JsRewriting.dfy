/** From the tokenizer to the rewriting (`_js_tpl_to_call` in tools/i18n_wrap_code.py on a token of
    tools/i18n_inventory.py): a template token of closed text, its parts, the call it becomes and the value of
    both. */
module JsRewriting {
  import opened Text
  import opened Identifiers
  import opened Placeholders
  import opened JsTemplates
  import opened JsObjects
  import opened JsObjectProofs
  import L = JsLexer
  import P = JsLexerProofs

  // ------------------------------------------------------------------ the text of a call and its meaning

  /** The pairs of a rewritten call are names with the stripped texts of holes. */
  lemma RewrittenIsPlain(parts: seq<Part>, call: HrtCall, k: nat)
    requires Rewrites(parts, call) && k < |call.objs|
    ensures Plain(call.objs[k])
  {
    var d :| Drafts(parts, Read, d) && call == HrtCall(Fill(d.items, map[]), d.kwargs);
    var slots, expr := SlotsOf(parts, Read), call.objs[k].1;
    ArgumentIsHole(slots, d, k);
    var i :| 0 <= i < |slots| && slots[i] == Hole(expr);
    HoleIsPlain(parts[i], expr);
  }

  lemma ArgumentIsHole(slots: seq<Slot>, d: Draft, k: nat)
    requires Ok(slots, d) && k < |d.kwargs|
    ensures IsName(d.kwargs[k].0) && Hole(d.kwargs[k].1) in slots
  {
  }

  lemma HoleIsPlain(p: Part, expr: string)
    requires Read(p) == Some(Hole(expr))
    ensures expr != "" && Strip(expr) == expr && '`' !in expr && '\n' !in expr
  {
    StripTwice(p.source);
  }

  /** The text of the call is read as the call, and the call has the value of the literal. */
  ghost predicate KeepsMeaning(fn: string, key: NumberKey, abc: Alphabet, env: string -> JsValue, parts: seq<Part>,
                               call: HrtCall, order: seq<(string, string)>)
  {
    ReadCall(CallText(fn, call), fn, key, abc) == Some(call)
      && Shim(call.msgid, order, env) == TemplateValue(env, parts)
  }

  /** With no dictionary and values in which no placeholder begins, the text that is written in place of the literal
      is read as the call it was printed from and has the value of the literal, if and only if no raw text holds a
      carriage return, no hole is undefined, and every pair can be printed: its expression is closed and balanced by
      itself, without a comma outside brackets and without a line comment, its name is an identifier or a number that
      is its own key, and a name that is printed alone is not reserved. */
  lemma MeaningPreservedIff(fn: string, key: NumberKey, abc: Alphabet, env: string -> JsValue, parts: seq<Part>,
                            call: HrtCall, order: seq<(string, string)>)
    requires IsIdentifier(fn) && Rewrites(parts, call) && IsOrderOf(order, call.objs) && HarmlessValues(env, call.objs)
    ensures KeepsMeaning(fn, key, abc, env, parts, call, order)
            <==> NoRawReturns(parts) && AllDefined(env, parts) && AllPrintable(call.objs, key, abc)
  {
    forall k | 0 <= k < |call.objs| ensures Plain(call.objs[k]) { RewrittenIsPlain(parts, call, k); }
    ReadsBackIff(fn, call, key, abc);
    ValuePreservedIff(env, parts, call, order);
  }

  // ------------------------------------------------------------------ tokens of the lexer

  /** A part of a token as the loop reads it, `src[a:b]`. */
  function PartOf(s: string, p: L.Part): Part {
    if p.Text? then Raw(L.Slice(s, p.start, p.end)) else Code(L.Slice(s, p.start, p.end))
  }

  function PartsOf(s: string, parts: seq<L.Part>): (r: seq<Part>)
    ensures |r| == |parts|
  {
    seq(|parts|, i requires 0 <= i < |parts| => PartOf(s, parts[i]))
  }

  /** The source of a part and of a literal, between its back quotes. */
  function Written(p: Part): string { if p.Raw? then p.text else "${" + p.source + "}" }

  function LiteralText(parts: seq<Part>): string {
    if parts == [] then "" else Written(parts[0]) + LiteralText(parts[1..])
  }

  /** Text, hole, text, …, text. */
  ghost predicate TextsAndHoles(parts: seq<Part>)
    decreases |parts|
  {
    parts != [] && parts[0].Raw? && (|parts| == 1 || (parts[1].Code? && TextsAndHoles(parts[2..])))
  }

  lemma {:induction false} PartsAreWritten(s: string, parts: seq<L.Part>)
    ensures LiteralText(PartsOf(s, parts)) == P.PartsText(s, parts)
  {
    if parts != [] {
      assert PartsOf(s, parts)[1..] == PartsOf(s, parts[1..]);
      PartsAreWritten(s, parts[1..]);
    }
  }

  lemma {:induction false} PartsTakeTurns(s: string, parts: seq<L.Part>, lo: nat, hi: nat)
    requires P.Alternates(s, parts, lo, hi)
    ensures TextsAndHoles(PartsOf(s, parts))
    decreases |parts|
  {
    if |parts| > 1 {
      PartsTakeTurns(s, parts[2..], parts[1].end + 1, hi);
      assert PartsOf(s, parts)[2..] == PartsOf(s, parts[2..]);
    }
  }

  /** The parts the rewriting reads are texts and holes in turn, and they spell the text between lo and hi. */
  ghost predicate Spells(s: string, parts: seq<L.Part>, lo: nat, hi: nat) {
    lo <= hi <= |s| && TextsAndHoles(PartsOf(s, parts)) && LiteralText(PartsOf(s, parts)) == s[lo..hi]
  }

  lemma AlternatingSpells(s: string, parts: seq<L.Part>, lo: nat, hi: nat)
    requires P.Alternates(s, parts, lo, hi)
    ensures Spells(s, parts, lo, hi)
  {
    LiteralOfParts(s, parts, lo, hi);
    PartsTakeTurns(s, parts, lo, hi);
  }

  lemma TokenParts(x: L.Source, t: L.Tok)
    requires L.InText(x) && L.Whole(x).closed && t in L.Flatten(L.Whole(x).forest) && t.kind.Tpl?
    ensures P.PartsTile(x.text, t) && Spells(x.text, t.parts, t.start + 1, t.end - 1)
  {
    assert P.PartsTile(x.text, t) by { P.TemplatesAreTheirParts(x, t); }
    AlternatingSpells(x.text, t.parts, t.start + 1, t.end - 1);
  }

  lemma LiteralOfParts(s: string, parts: seq<L.Part>, lo: nat, hi: nat)
    requires P.Alternates(s, parts, lo, hi)
    ensures lo <= hi <= |s| && LiteralText(PartsOf(s, parts)) == s[lo..hi]
  {
    var text := P.PartsText(s, parts);
    assert lo <= hi <= |s| && text == s[lo..hi] by { P.PartsAreTheTemplate(s, parts, lo, hi); }
    assert LiteralText(PartsOf(s, parts)) == text by { PartsAreWritten(s, parts); }
  }

  function AlphabetOf(x: L.Source): Alphabet { Alphabet(x.letter, x.alnum) }

  /** Every template token of closed text, at any depth, and any call it may be rewritten to: the parts the rewriting
      reads are texts and holes in turn and spell what stands between the back quotes; and with values in which no
      placeholder begins, the text that is written keeps the meaning of the literal under exactly the condition
      above. */
  lemma TokenKeepsMeaningIff(x: L.Source, t: L.Tok, fn: string, key: NumberKey, call: HrtCall, env: string -> JsValue,
                             order: seq<(string, string)>)
    requires L.InText(x) && L.Whole(x).closed && t in L.Flatten(L.Whole(x).forest) && t.kind.Tpl? && IsIdentifier(fn)
    requires Rewrites(PartsOf(x.text, t.parts), call) && IsOrderOf(order, call.objs) && HarmlessValues(env, call.objs)
    ensures P.PartsTile(x.text, t) && Spells(x.text, t.parts, t.start + 1, t.end - 1)
    ensures var parts := PartsOf(x.text, t.parts);
            KeepsMeaning(fn, key, AlphabetOf(x), env, parts, call, order)
            <==> NoRawReturns(parts) && AllDefined(env, parts) && AllPrintable(call.objs, key, AlphabetOf(x))
  {
    TokenParts(x, t);
    MeaningPreservedIff(fn, key, AlphabetOf(x), env, PartsOf(x.text, t.parts), call, order);
  }

  /** In every environment without undefined holes and without placeholders in values, whatever the order of the
      properties. */
  ghost predicate AlwaysKeepsMeaning(fn: string, key: NumberKey, abc: Alphabet, parts: seq<Part>, call: HrtCall) {
    forall env, order :: IsOrderOf(order, call.objs) && HarmlessValues(env, call.objs) && AllDefined(env, parts) ==>
      KeepsMeaning(fn, key, abc, env, parts, call, order)
  }

  /** `_js_tpl_to_call` on a token: what it returns is the text of a call that has these properties. */
  method TokenCall(x: L.Source, t: L.Tok, fn: string, hint: string -> string, keywords: set<string>,
                   ghost key: NumberKey)
    returns (r: Option<string>)
    requires L.InText(x) && L.Whole(x).closed && t in L.Flatten(L.Whole(x).forest) && t.kind.Tpl? && IsIdentifier(fn)
    requires forall e :: hint(e) == "" || IsIdentifier(hint(e))
    ensures P.PartsTile(x.text, t) && Spells(x.text, t.parts, t.start + 1, t.end - 1)
    ensures var parts := PartsOf(x.text, t.parts);
            r.Some? ==> exists call ::
              && Rewrites(parts, call) && AllNamed(parts, Read, BaseNames(hint, keywords), call.objs)
              && !HasTag(call.msgid) && r.value == CallText(fn, call)
              && (NoRawReturns(parts) && AllPrintable(call.objs, key, AlphabetOf(x)) ==>
                  AlwaysKeepsMeaning(fn, key, AlphabetOf(x), parts, call))
    ensures var parts := PartsOf(x.text, t.parts);
            r.None? ==> (exists i :: 0 <= i < |parts| && !Readable(parts[i]))
                        || exists call :: Rewrites(parts, call) && HasTag(call.msgid)
  {
    ghost var parts := PartsOf(x.text, t.parts);
    r := TemplateCall(PartsOf(x.text, t.parts), fn, hint, keywords);
    TokenParts(x, t);
    if r.Some? {
      ghost var call :| Rewrites(parts, call) && AllNamed(parts, Read, BaseNames(hint, keywords), call.objs)
                        && !HasTag(call.msgid) && r.value == CallText(fn, call);
      PrintableKeepsMeaning(fn, key, AlphabetOf(x), parts, call);
    }
  }

  lemma PrintableKeepsMeaning(fn: string, key: NumberKey, abc: Alphabet, parts: seq<Part>, call: HrtCall)
    requires IsIdentifier(fn) && Rewrites(parts, call)
    ensures NoRawReturns(parts) && AllPrintable(call.objs, key, abc) ==> AlwaysKeepsMeaning(fn, key, abc, parts, call)
  {
    if NoRawReturns(parts) && AllPrintable(call.objs, key, abc) {
      forall env, order | IsOrderOf(order, call.objs) && HarmlessValues(env, call.objs) && AllDefined(env, parts)
        ensures KeepsMeaning(fn, key, abc, env, parts, call, order)
      {
        MeaningPreservedIff(fn, key, abc, env, parts, call, order);
      }
    }
  }
}

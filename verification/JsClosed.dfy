/** Which texts the tokenizer of tools/i18n_inventory.py reads to the end without anything left open, said of the list
    of tokens and the text alone. */
module JsClosed {
  import opened JsLexer
  import opened JsTokenLaws

  /** A hole ends at a brace, and the last text of a template at a back quote. */
  predicate PartEnded(x: Source, p: Part, last: bool)
    requires InText(x)
  {
    (p.Expr? ==> p.end < x.end && x.text[p.end] == '}')
    && (last ==> p.Text? && p.end < x.end && x.text[p.end] == '`')
  }

  ghost predicate PartsEnded(x: Source, ps: seq<Part>)
    requires InText(x)
  {
    forall k :: 0 <= k < |ps| ==> PartEnded(x, ps[k], k == |ps| - 1)
  }

  /** The token has its own end in the text. */
  ghost predicate Ended(x: Source, t: Tok)
    requires InText(x)
  {
    t.start < x.end && if t.kind.Tpl? then PartsEnded(x, t.parts) else Closes(x, t)
  }

  ghost predicate AllEnded(x: Source, toks: seq<Tok>)
    requires InText(x)
  {
    forall k :: 0 <= k < |toks| ==> Ended(x, toks[k])
  }

  lemma EndedAppend(x: Source, a: seq<Tok>, b: seq<Tok>)
    requires InText(x)
    ensures AllEnded(x, a + b) <==> AllEnded(x, a) && AllEnded(x, b)
  {
    var c := a + b;
    assert forall k :: 0 <= k < |a| ==> c[k] == a[k];
    assert forall k :: 0 <= k < |b| ==> c[|a| + k] == b[k];
  }

  lemma TreeEnded(x: Source, t: Tok, holes: Holes, rest: Forest)
    requires InText(x)
    ensures AllEnded(x, Flatten(Tree(t, holes, rest)))
            <==> Ended(x, t) && AllEnded(x, FlattenHoles(holes)) && AllEnded(x, Flatten(rest))
  {
    EndedAppend(x, [t], FlattenHoles(holes));
    EndedAppend(x, [t] + FlattenHoles(holes), Flatten(rest));
    assert AllEnded(x, [t]) <==> Ended(x, [t][0]);
  }

  lemma HoleEnded(x: Source, text: Part, hole: Part, more: seq<Part>)
    requires InText(x) && text.Text? && hole.Expr? && more != []
    ensures PartsEnded(x, [text, hole] + more) <==> PartEnded(x, hole, false) && PartsEnded(x, more)
  {
    var ps := [text, hole] + more;
    assert ps[0] == text && ps[1] == hole && forall k :: 0 <= k < |more| ==> ps[k + 2] == more[k];
    assert PartsEnded(x, ps) ==> PartEnded(x, ps[1], false);
    if PartsEnded(x, ps) {
      forall k | 0 <= k < |more| ensures PartEnded(x, more[k], k == |more| - 1) {
        assert PartEnded(x, ps[k + 2], k == |more| - 1);
      }
    }
  }

  /** A scan is closed exactly when every token in it has its own end and, in a hole, it stopped at a brace. */
  ghost predicate Agrees(x: Source, until: bool, r: Lexed)
    requires InText(x)
  {
    && (r.closed <==> AllEnded(x, Flatten(r.forest)) && (until ==> r.close < x.end))
    && (until && r.close < x.end ==> x.text[r.close] == '}')
  }

  /** The same of the rest of a template. */
  ghost predicate BodyAgrees(x: Source, b: Body)
    requires InText(x)
  {
    b.parts != [] && (b.closed <==> PartsEnded(x, b.parts) && AllEnded(x, FlattenHoles(b.holes)))
  }

  lemma LastAgrees(x: Source, seg: nat, j: nat, stop: nat)
    requires InText(x)
    ensures BodyAgrees(x, Body([Text(seg, j)], NoHoles, stop, j < x.end && x.text[j] == '`'))
  {
    var ps := [Text(seg, j)];
    assert PartsEnded(x, ps) ==> PartEnded(x, ps[0], true);
  }

  lemma HoleAgrees(x: Source, text: Part, start: nat, e: Lexed, r: Body)
    requires InText(x) && text.Text? && Agrees(x, true, e) && BodyAgrees(x, r)
    ensures BodyAgrees(x, Body([text, Expr(start, e.close)] + r.parts, Hole(e.forest, r.holes), r.stop,
                               e.closed && r.closed))
  {
    HoleEnded(x, text, Expr(start, e.close), r.parts);
    EndedAppend(x, Flatten(e.forest), FlattenHoles(r.holes));
  }

  lemma {:induction false} LexClosedIff(x: Source, i: nat, depth: nat, until: bool, level: nat, ok: bool)
    requires InText(x) && i <= x.end
    ensures Agrees(x, until, Lex(ScannerOf(x), i, depth, until, level, ok))
    decreases x.end - i, 1
  {
    var y := ScannerOf(x);
    if i == x.end {
    } else if IsBlank(x.text[i]) {
      LexClosedIff(x, i + 1, depth, until, level, ok);
    } else if x.text[i] == '`' {
      var b := Template(y, i + 1, i + 1, depth);
      var t := TemplateTok(y, i, b, depth);
      var ok' := y.regexOk(ok, t, b.holes);
      TemplateClosedIff(x, i + 1, i + 1, depth);
      LexClosedIff(x, t.end, depth, until, level, ok');
      TreeEnded(x, t, b.holes, Lex(y, t.end, depth, until, level, ok').forest);
    } else if !(until && x.text[i] == '}' && level == 0) {
      LeafClosed(x, i, depth, until, level, ok);
    }
  }

  lemma {:induction false} LeafClosed(x: Source, i: nat, depth: nat, until: bool, level: nat, ok: bool)
    requires InText(x) && i < x.end && !IsBlank(x.text[i]) && x.text[i] != '`'
    requires !(until && x.text[i] == '}' && level == 0)
    ensures Agrees(x, until, Lex(ScannerOf(x), i, depth, until, level, ok))
    decreases x.end - i, 0
  {
    var y, s, level' := ScannerOf(x), LeafAt(x, i, ok), LevelAfter(x.text[i], until, level);
    var t := Tok(s.kind, i, s.end, [], depth);
    var r := Lex(y, s.end, depth, until, level', y.regexOk(ok, t, NoHoles));
    LeafClosedIff(x, i, ok, depth);
    TreeEnded(x, t, NoHoles, r.forest);
    if s.end <= x.end { LexClosedIff(x, s.end, depth, until, level', y.regexOk(ok, t, NoHoles)); }
  }

  lemma {:induction false} TemplateClosedIff(x: Source, j: nat, seg: nat, depth: nat)
    requires InText(x)
    ensures BodyAgrees(x, Template(ScannerOf(x), j, seg, depth))
    decreases x.end - j
  {
    var y := ScannerOf(x);
    if j >= x.end || x.text[j] == '`' {
      LastAgrees(x, seg, if j >= x.end then x.end else j, j);
    } else if x.text[j] == '\\' {
      TemplateClosedIff(x, j + 2, seg, depth);
    } else if x.text[j] == '$' && j + 1 < x.end && x.text[j + 1] == '{' {
      LexClosedIff(x, j + 2, depth + 1, true, 0, true);
      var close := Lex(y, j + 2, depth + 1, true, 0, true).close;
      TemplateClosedIff(x, close + 1, close + 1, depth);
      HoleStep(x, j, seg, depth);
    } else {
      TemplateClosedIff(x, j + 1, seg, depth);
    }
  }

  lemma HoleStep(x: Source, j: nat, seg: nat, depth: nat)
    requires InText(x) && j + 1 < x.end && x.text[j] == '$' && x.text[j + 1] == '{'
    requires var e := Lex(ScannerOf(x), j + 2, depth + 1, true, 0, true);
             Agrees(x, true, e) && BodyAgrees(x, Template(ScannerOf(x), e.close + 1, e.close + 1, depth))
    ensures BodyAgrees(x, Template(ScannerOf(x), j, seg, depth))
  {
    var e := Lex(ScannerOf(x), j + 2, depth + 1, true, 0, true);
    HoleAgrees(x, Text(seg, j), j + 2, e, Template(ScannerOf(x), e.close + 1, e.close + 1, depth));
  }

  /** A text is closed exactly when each of its tokens has its own end in it. */
  lemma ClosedIff(x: Source)
    requires InText(x)
    ensures Whole(x).closed <==> AllEnded(x, Flatten(Whole(x).forest))
  {
    LexClosedIff(x, 0, 0, false, 0, true);
  }
}

/** The loops of `_js_tok` (tools/i18n_inventory.py), shown to list the tokens of `JsLexer.Lex`. */
module JsTokenizer {
  import opened Text
  import opened Identifiers
  import opened JsLexer
  import opened JsTokenLaws

  method ScanString(x: Source, i: nat) returns (j: nat)
    requires InText(x) && i < x.end
    ensures j == QuotedString(x, i).end
  {
    var c := x.text[i];
    j := i + 1;
    while j < x.end && x.text[j] != c && x.text[j] != '\n'
      invariant StringStop(x, i + 1, c) == StringStop(x, j, c)
    {
      if x.text[j] == '\\' { j := j + 1; }
      j := j + 1;
    }
    j := Min(j + 1, x.end);
  }

  method ScanRun(x: Source, from: nat, p: char -> bool) returns (j: nat)
    requires InText(x)
    ensures j == RunEnd(x, from, p)
  {
    j := from;
    while j < x.end && p(x.text[j])
      invariant RunEnd(x, from, p) == RunEnd(x, j, p)
    {
      j := j + 1;
    }
  }

  method ScanRegexBody(x: Source, i: nat) returns (j: nat)
    requires InText(x) && i < x.end
    ensures j == RegexStop(x, i + 1, false)
  {
    j := i + 1;
    var inClass := false;
    while j < x.end && x.text[j] != '\n'
      invariant RegexStop(x, i + 1, false) == RegexStop(x, j, inClass)
    {
      var ch := x.text[j];
      if ch == '\\' {
        j := j + 2;
        continue;
      }
      if ch == '[' {
        inClass := true;
      } else if ch == ']' {
        inClass := false;
      } else if ch == '/' && !inClass {
        break;
      }
      j := j + 1;
    }
  }

  /** Any token but a template. */
  method ScanLeaf(x: Source, i: nat, regexOk: bool) returns (kind: Kind, end: nat)
    requires InText(x) && i < x.end
    ensures kind == LeafAt(x, i, regexOk).kind && end == LeafAt(x, i, regexOk).end
  {
    var c := x.text[i];
    if c == '/' && i + 1 < x.end && x.text[i + 1] == '/' {
      return Comment, LineComment(x, i).end;
    }
    if c == '/' && i + 1 < x.end && x.text[i + 1] == '*' {
      return Comment, BlockComment(x, i).end;
    }
    if c == '\'' || c == '"' {
      end := ScanString(x, i);
      return Str, end;
    }
    if c == '/' && regexOk {
      var stop := ScanRegexBody(x, i);
      end := ScanRun(x, stop + 1, Letters(x));
      return Regex, end;
    }
    if StartsName(c) {
      end := ScanRun(x, i + 1, ContinuesName);
      return Ident, end;
    }
    if IsDigit(c) {
      end := ScanRun(x, i + 1, NumberChars(x));
      return Num, end;
    }
    return Punct, i + PunctLength(x.text, i);
  }

  // ------------------------------------------------------------------ when a slash starts a regular expression

  /** `prev_sig`, walking back over the comments. */
  method PrevSig(toks: seq<Tok>) returns (r: Option<Tok>)
    ensures r == LastSig(toks)
  {
    var k := |toks|;
    assert toks[..k] == toks;
    while k > 0
      invariant k <= |toks| && LastSig(toks[..k]) == LastSig(toks)
    {
      k := k - 1;
      assert toks[..k + 1][..k] == toks[..k];
      if !toks[k].kind.Comment? { return Some(toks[k]); }
    }
    assert toks[..k] == [];
    return None;
  }

  // ------------------------------------------------------------------ the two loops

  /** The tokens listed so far, followed by those of the rest, are those of the whole. */
  ghost predicate Ahead(whole: Lexed, toks: seq<Tok>, rest: Lexed) {
    whole.close == rest.close && Flatten(whole.forest) == toks + Flatten(rest.forest)
  }

  ghost function RestOf(x: Source, i: nat, depth: nat, until: bool, level: nat, toks: seq<Tok>): Lexed
    requires InText(x)
  {
    Lex(ScannerOf(x), i, depth, until, level, RegexOk(x, true, toks))
  }

  lemma LeafStep(x: Source, i: nat, depth: nat, until: bool, level: nat, toks: seq<Tok>, whole: Lexed)
    requires InText(x) && i < x.end && !IsBlank(x.text[i]) && x.text[i] != '`'
    requires !(until && x.text[i] == '}' && level == 0) && Ahead(whole, toks, RestOf(x, i, depth, until, level, toks))
    ensures var s := LeafAt(x, i, RegexOk(x, true, toks)); var more := toks + [Tok(s.kind, i, s.end, [], depth)];
            Ahead(whole, more, RestOf(x, s.end, depth, until, LevelAfter(x.text[i], until, level), more))
  {
    var ok := RegexOk(x, true, toks);
    var s := ScannerOf(x).leaf(i, ok);
    var tok := Tok(s.kind, i, s.end, [], depth);
    RegexOkAppend(x, true, toks, [tok]);
    assert [tok] + FlattenHoles(NoHoles) == [tok];
    var rest := RestOf(x, s.end, depth, until, LevelAfter(x.text[i], until, level), toks + [tok]);
    Assoc(toks, [tok], Flatten(rest.forest));
  }

  lemma TemplateStep(x: Source, i: nat, depth: nat, until: bool, level: nat, toks: seq<Tok>, whole: Lexed,
                     parts: seq<Part>, inner: seq<Tok>, end: nat)
    requires InText(x) && i < x.end && x.text[i] == '`' && Ahead(whole, toks, RestOf(x, i, depth, until, level, toks))
    requires var b := Template(ScannerOf(x), i + 1, i + 1, depth);
             parts == b.parts && inner == FlattenHoles(b.holes) && end == TemplateTok(ScannerOf(x), i, b, depth).end
    ensures var more := toks + [Tok(Tpl, i, end, parts, depth)] + inner;
            Ahead(whole, more, RestOf(x, end, depth, until, level, more))
  {
    var t := Tok(Tpl, i, end, parts, depth);
    var added := [t] + inner;
    Assoc(toks, [t], inner);
    RegexOkAppend(x, true, toks, added);
    var rest := RestOf(x, end, depth, until, level, toks + added);
    Assoc(toks, added, Flatten(rest.forest));
  }

  /** One round of the loop at a back quote. */
  method AddTemplate(x: Source, i: nat, depth: nat, until: bool, level: nat, toks: seq<Tok>, ghost whole: Lexed)
    returns (toks': seq<Tok>, i': nat)
    requires InText(x) && i < x.end && x.text[i] == '`' && Ahead(whole, toks, RestOf(x, i, depth, until, level, toks))
    ensures i < i' && Ahead(whole, toks', RestOf(x, i', depth, until, level, toks'))
    decreases x.end - i, 3
  {
    var parts, inner, end := ScanTemplate(x, i, depth);
    TemplateStep(x, i, depth, until, level, toks, whole, parts, inner, end);
    toks' := toks + [Tok(Tpl, i, end, parts, depth)] + inner;
    i' := end;
  }

  /** One round of the loop at any other token. */
  method AddLeaf(x: Source, i: nat, depth: nat, until: bool, level: nat, toks: seq<Tok>, ghost whole: Lexed)
    returns (toks': seq<Tok>, i': nat)
    requires InText(x) && i < x.end && !IsBlank(x.text[i]) && x.text[i] != '`'
    requires !(until && x.text[i] == '}' && level == 0) && Ahead(whole, toks, RestOf(x, i, depth, until, level, toks))
    ensures i < i' && Ahead(whole, toks', RestOf(x, i', depth, until, LevelAfter(x.text[i], until, level), toks'))
  {
    var p := PrevSig(toks);
    var kind, end := ScanLeaf(x, i, p.None? || RegexAfter(x, p.value));
    LeafStep(x, i, depth, until, level, toks, whole);
    toks' := toks + [Tok(kind, i, end, [], depth)];
    i' := end;
  }

  lemma BlankStep(x: Source, i: nat, depth: nat, until: bool, level: nat, toks: seq<Tok>)
    requires InText(x) && i < x.end && IsBlank(x.text[i])
    ensures RestOf(x, i, depth, until, level, toks) == RestOf(x, i + 1, depth, until, level, toks)
  {
  }

  lemma LastStep(x: Source, i: nat, depth: nat, until: bool, level: nat, toks: seq<Tok>, whole: Lexed)
    requires InText(x) && Ahead(whole, toks, RestOf(x, i, depth, until, level, toks))
    requires i >= x.end || (until && x.text[i] == '}' && level == 0)
    ensures toks == Flatten(whole.forest) && whole.close == if i >= x.end then x.end else i
  {
    assert toks + [] == toks;
  }

  lemma Finish(x: Source, start: nat, i: nat, depth: nat, until: bool, level: nat, toks: seq<Tok>)
    requires InText(x) && (i >= x.end || (until && x.text[i] == '}' && level == 0))
    requires Ahead(Lex(ScannerOf(x), start, depth, until, 0, true), toks, RestOf(x, i, depth, until, level, toks))
    ensures var r := Lex(ScannerOf(x), start, depth, until, 0, true);
            toks == Flatten(r.forest) && r.close == (if i >= x.end then x.end else i) && ListRead(x, toks, depth)
  {
    LastStep(x, i, depth, until, level, toks, Lex(ScannerOf(x), start, depth, until, 0, true));
    ListsAreRead(x, start, depth, until);
  }

  /** `_js_tok`: the tokens from `start` on, and where the scan stopped. */
  method JsTok(x: Source, start: nat, depth: nat, until: bool) returns (toks: seq<Tok>, close: nat)
    requires InText(x)
    ensures var r := Lex(ScannerOf(x), start, depth, until, 0, true); toks == Flatten(r.forest) && close == r.close
    ensures ListRead(x, toks, depth)
    decreases x.end - start, 4
  {
    ghost var whole := Lex(ScannerOf(x), start, depth, until, 0, true);
    toks := [];
    var i, level: nat := start, 0;
    while i < x.end
      invariant start <= i && Ahead(whole, toks, RestOf(x, i, depth, until, level, toks))
    {
      var c := x.text[i];
      if IsBlank(c) {
        BlankStep(x, i, depth, until, level, toks);
        i := i + 1;
      } else if c == '`' {
        toks, i := AddTemplate(x, i, depth, until, level, toks, whole);
      } else if until && c == '}' && level == 0 {
        Finish(x, start, i, depth, until, level, toks);
        return toks, i;
      } else {
        toks, i := AddLeaf(x, i, depth, until, level, toks, whole);
        level := LevelAfter(c, until, level);
      }
    }
    Finish(x, start, i, depth, until, level, toks);
    close := x.end;
  }

  /** The parts, holes and stop of a template: those read so far, followed by those of the rest. */
  ghost predicate BodyAhead(whole: Body, parts: seq<Part>, inner: seq<Tok>, rest: Body) {
    && whole.stop == rest.stop && whole.parts == parts + rest.parts
    && FlattenHoles(whole.holes) == inner + FlattenHoles(rest.holes)
  }

  lemma HoleStep(y: Scanner, j: nat, seg: nat, depth: nat, whole: Body, parts: seq<Part>, inner: seq<Tok>,
                 sub: seq<Tok>, close: nat)
    requires Sound(y) && j + 1 < y.end && y.text[j] == '$' && y.text[j + 1] == '{'
    requires BodyAhead(whole, parts, inner, Template(y, j, seg, depth))
    requires var e := Lex(y, j + 2, depth + 1, true, 0, true); sub == Flatten(e.forest) && close == e.close
    ensures BodyAhead(whole, parts + [Text(seg, j), Expr(j + 2, close)], inner + sub,
                      Template(y, close + 1, close + 1, depth))
  {
    var rest := Template(y, close + 1, close + 1, depth);
    Assoc(parts, [Text(seg, j), Expr(j + 2, close)], rest.parts);
    Assoc(inner, sub, FlattenHoles(rest.holes));
  }

  lemma BodyEnds(y: Scanner, j: nat, seg: nat, depth: nat, whole: Body, parts: seq<Part>, inner: seq<Tok>)
    requires Sound(y) && (j >= y.end || y.text[j] == '`') && BodyAhead(whole, parts, inner, Template(y, j, seg, depth))
    ensures whole.parts == parts + [Text(seg, Min(j, y.end))] && FlattenHoles(whole.holes) == inner && whole.stop == j
  {
    assert inner + [] == inner;
  }

  /** A hole that opens at j, behind text from seg: its two parts and its tokens are added. */
  method ScanHole(x: Source, j: nat, seg: nat, depth: nat, parts: seq<Part>, inner: seq<Tok>, ghost whole: Body)
    returns (parts': seq<Part>, inner': seq<Tok>, j': nat)
    requires InText(x) && j + 1 < x.end && x.text[j] == '$' && x.text[j + 1] == '{'
    requires BodyAhead(whole, parts, inner, Template(ScannerOf(x), j, seg, depth))
    ensures j < j' && BodyAhead(whole, parts', inner', Template(ScannerOf(x), j', j', depth))
    decreases x.end - j, 1
  {
    var sub, close := JsTok(x, j + 2, depth + 1, true);
    HoleStep(ScannerOf(x), j, seg, depth, whole, parts, inner, sub, close);
    parts' := parts + [Text(seg, j), Expr(j + 2, close)];
    inner' := inner + sub;
    j' := close + 1;
  }

  /** The template that opens at i: its parts, the tokens of its holes, and its end. */
  method ScanTemplate(x: Source, i: nat, depth: nat) returns (parts: seq<Part>, inner: seq<Tok>, end: nat)
    requires InText(x) && i < x.end
    ensures var b := Template(ScannerOf(x), i + 1, i + 1, depth);
            parts == b.parts && inner == FlattenHoles(b.holes) && end == TemplateTok(ScannerOf(x), i, b, depth).end
    decreases x.end - i, 2
  {
    ghost var y := ScannerOf(x);
    ghost var whole := Template(y, i + 1, i + 1, depth);
    ghost var rest := whole;
    parts, inner := [], [];
    var j: nat, seg: nat := i + 1, i + 1;
    while j < x.end && x.text[j] != '`'
      invariant i < j && rest == Template(y, j, seg, depth)
      invariant BodyAhead(whole, parts, inner, rest)
    {
      if x.text[j] == '\\' {
        j := j + 2;
        continue;
      }
      if x.text[j] == '$' && j + 1 < x.end && x.text[j + 1] == '{' {
        parts, inner, j := ScanHole(x, j, seg, depth, parts, inner, whole);
        seg := j;
        rest := Template(y, j, seg, depth);
        continue;
      }
      j := j + 1;
    }
    BodyEnds(y, j, seg, depth, whole, parts, inner);
    parts := parts + [Text(seg, Min(j, x.end))];
    end := Min(j + 1, x.end);
  }

  /** `js_tokenize(src)`. */
  method Tokenize(x: Source) returns (toks: seq<Tok>)
    requires InText(x)
    ensures toks == Flatten(Whole(x).forest) && ListRead(x, toks, 0)
  {
    var close;
    toks, close := JsTok(x, 0, 0, false);
  }
}

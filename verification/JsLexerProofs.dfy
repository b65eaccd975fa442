/** What the tokens of closed JavaScript text look like: they nest properly, cover everything but white space, and every
    hole of a template ends at its own closing brace. */
module JsLexerProofs {
  import opened Text
  import opened JsLexer
  import opened Quotes
  import W = JsTokenLaws

  ghost predicate Blank(x: Scanner, lo: nat, hi: nat)
    requires Sound(x)
  {
    lo <= hi <= x.end && forall p :: lo <= p < hi ==> W.WhiteSpace(x.text[p])
  }

  ghost predicate IsPunct(x: Scanner, t: Tok, c: char)
    requires Sound(x)
  {
    t.kind.Punct? && t.end == t.start + 1 <= x.end && x.text[t.start] == c
  }

  /** The braces among these tokens match, when `level` are already open. (Holes of templates are not looked into.) */
  ghost predicate Balanced(x: Scanner, f: Forest, level: nat)
    requires Sound(x)
  {
    match f
    case Done => level == 0
    case Tree(t, _, rest) =>
      if IsPunct(x, t, '{') then Balanced(x, rest, level + 1)
      else if IsPunct(x, t, '}') then level > 0 && Balanced(x, rest, level - 1)
      else Balanced(x, rest, level)
  }

  /** Template text from a to b, read with escapes: no back quote and no opening of a hole. */
  ghost predicate PlainText(x: Scanner, a: nat, b: nat)
    requires Sound(x)
    decreases b - a
  {
    a <= b < x.end
    && (a == b
        || (x.text[a] == '\\' && PlainText(x, a + 2, b))
        || (&& x.text[a] != '\\' && x.text[a] != '`' && !(x.text[a] == '$' && x.text[a + 1] == '{')
            && PlainText(x, a + 1, b)))
  }

  /** The tokens lie in order between lo and hi with only white space between them, all at this depth; templates are
      well formed; only templates have parts. */
  ghost predicate Ordered(x: Scanner, f: Forest, lo: nat, hi: nat, depth: nat)
    requires Sound(x)
    decreases f
  {
    match f
    case Done => Blank(x, lo, hi)
    case Tree(t, holes, rest) =>
      && t.depth == depth && t.start < t.end <= hi && Blank(x, lo, t.start)
      && (if t.kind.Tpl? then
            && t.start + 2 <= t.end <= x.end && x.text[t.start] == '`' && x.text[t.end - 1] == '`'
            && Tiles(x, t.parts, holes, t.start + 1, t.end - 1, depth)
          else holes.NoHoles? && t.parts == [])
      && Ordered(x, rest, t.end, hi, depth)
  }

  /** The parts alternate text and hole and cover lo to hi: each hole stands between `${` and `}`, its tokens are in
      order inside it and their braces match, so its closing brace is the one that belongs to it. */
  ghost predicate Tiles(x: Scanner, parts: seq<Part>, holes: Holes, lo: nat, hi: nat, depth: nat)
    requires Sound(x)
    decreases holes
  {
    match holes
    case NoHoles => parts == [Text(lo, hi)] && PlainText(x, lo, hi)
    case Hole(inside, more) =>
      && |parts| >= 3 && parts[0] == Text(lo, parts[0].end) && parts[1] == Expr(parts[0].end + 2, parts[1].end)
      && PlainText(x, lo, parts[0].end) && parts[1].start <= parts[1].end < hi <= x.end
      && x.text[parts[0].end] == '$' && x.text[parts[0].end + 1] == '{' && x.text[parts[1].end] == '}'
      && Ordered(x, inside, parts[1].start, parts[1].end, depth + 1) && Balanced(x, inside, 0)
      && Tiles(x, parts[2..], more, parts[1].end + 1, hi, depth)
  }

  // ------------------------------------------------------------------ the tokenizer produces such tokens

  /** What a closed scan guarantees. */
  ghost predicate Good(x: Scanner, f: Forest, close: nat, lo: nat, depth: nat, until: bool, level: nat)
    requires Sound(x)
  {
    && Ordered(x, f, lo, close, depth)
    && (!until ==> close == x.end)
    && (until ==> close < x.end && x.text[close] == '}' && Balanced(x, f, level))
  }

  lemma GoodLeaf(x: Scanner, i: nat, s: Leaf, rest: Forest, close: nat, lo: nat, depth: nat, until: bool, level: nat)
    requires Sound(x) && i < x.end && s.closed && !(until && x.text[i] == '}' && level == 0)
    ensures Blank(x, lo, i) && SoundLeaf(x.text, x.end, i, s) && s.end <= close
            && Good(x, rest, close, s.end, depth, until, LevelAfter(x.text[i], until, level))
            ==> Good(x, Tree(Tok(s.kind, i, s.end, [], depth), NoHoles, rest), close, lo, depth, until, level)
  {
  }

  lemma GoodTemplate(x: Scanner, i: nat, b: Body, rest: Forest, close: nat, lo: nat, depth: nat, until: bool,
                     level: nat)
    requires Sound(x) && i < b.stop < x.end && x.text[i] == '`' && x.text[b.stop] == '`'
    ensures Blank(x, lo, i) && Tiles(x, b.parts, b.holes, i + 1, b.stop, depth) && b.stop + 1 <= close
            && Good(x, rest, close, b.stop + 1, depth, until, level)
            ==> Good(x, Tree(TemplateTok(x, i, b, depth), b.holes, rest), close, lo, depth, until, level)
  {
  }

  lemma {:induction false} LexIsOrdered(x: Scanner, i: nat, depth: nat, until: bool, level: nat, regexOk: bool, lo: nat)
    requires Sound(x) && i <= x.end && Blank(x, lo, i) && Lex(x, i, depth, until, level, regexOk).closed
    ensures var r := Lex(x, i, depth, until, level, regexOk); Good(x, r.forest, r.close, lo, depth, until, level)
    decreases x.end - i, 1
  {
    if i == x.end {
    } else if IsBlank(x.text[i]) {
      LexIsOrdered(x, i + 1, depth, until, level, regexOk, lo);
    } else if x.text[i] == '`' {
      TemplateIsOrdered(x, i, depth, until, level, regexOk, lo);
    } else if until && x.text[i] == '}' && level == 0 {
    } else {
      LeafIsOrdered(x, i, depth, until, level, regexOk, lo);
    }
  }

  lemma {:induction false} TemplateIsOrdered(x: Scanner, i: nat, depth: nat, until: bool, level: nat, regexOk: bool,
                                             lo: nat)
    requires Sound(x) && i < x.end && Blank(x, lo, i) && x.text[i] == '`'
             && Lex(x, i, depth, until, level, regexOk).closed
    ensures var r := Lex(x, i, depth, until, level, regexOk); Good(x, r.forest, r.close, lo, depth, until, level)
    decreases x.end - i, 0
  {
    var b := Template(x, i + 1, i + 1, depth);
    TemplateTiles(x, i + 1, i + 1, depth);
    var tok := TemplateTok(x, i, b, depth);
    assert [Text(i + 1, b.parts[0].end)] + b.parts[1..] == b.parts;
    var ok := x.regexOk(regexOk, tok, b.holes);
    LexIsOrdered(x, tok.end, depth, until, level, ok, tok.end);
    var r := Lex(x, tok.end, depth, until, level, ok);
    GoodTemplate(x, i, b, r.forest, r.close, lo, depth, until, level);
  }

  lemma {:induction false} LeafIsOrdered(x: Scanner, i: nat, depth: nat, until: bool, level: nat, regexOk: bool,
                                         lo: nat)
    requires Sound(x) && i < x.end && Blank(x, lo, i) && Lex(x, i, depth, until, level, regexOk).closed
    requires !IsBlank(x.text[i]) && x.text[i] != '`' && !(until && x.text[i] == '}' && level == 0)
    ensures var r := Lex(x, i, depth, until, level, regexOk); Good(x, r.forest, r.close, lo, depth, until, level)
    decreases x.end - i, 0
  {
    var s := x.leaf(i, regexOk);
    assert SoundLeaf(x.text, x.end, i, s);
    var level', ok := LevelAfter(x.text[i], until, level),
      x.regexOk(regexOk, Tok(s.kind, i, s.end, [], depth), NoHoles);
    LexIsOrdered(x, s.end, depth, until, level', ok, s.end);
    var r := Lex(x, s.end, depth, until, level', ok);
    GoodLeaf(x, i, s, r.forest, r.close, lo, depth, until, level);
  }

  /** Tiling does not depend on where the first text part starts, as long as it is plain. */
  lemma TilesFrom(x: Scanner, rest: seq<Part>, holes: Holes, lo: nat, lo': nat, e: nat, hi: nat, depth: nat)
    requires Sound(x) && Tiles(x, [Text(lo, e)] + rest, holes, lo, hi, depth) && PlainText(x, lo', e)
    ensures Tiles(x, [Text(lo', e)] + rest, holes, lo', hi, depth)
  {
    var p, q := [Text(lo, e)] + rest, [Text(lo', e)] + rest;
    if holes.Hole? {
      assert p[1] == q[1] && p[2..] == rest[1..] == q[2..];
    } else {
      assert p[0] == Text(lo, hi) && |p| == 1;
      assert rest == [];
    }
  }

  /** The template body, read from j on with its first text part starting at seg, tiles what is before its back
      quote. */
  ghost predicate TilesBody(x: Scanner, r: Body, j: nat, seg: nat, depth: nat)
    requires Sound(x)
  {
    && j <= r.stop < x.end && x.text[r.stop] == '`' && r.parts != [] && r.parts[0] == Text(seg, r.parts[0].end)
    && PlainText(x, j, r.parts[0].end)
    && Tiles(x, [Text(j, r.parts[0].end)] + r.parts[1..], r.holes, j, r.stop, depth)
  }

  lemma TilesBodyFrom(x: Scanner, r: Body, k: nat, j: nat, seg: nat, depth: nat)
    requires Sound(x) && j < k && TilesBody(x, r, k, seg, depth)
    requires x.text[j] != '`' && !(x.text[j] == '$' && j + 1 < x.end && x.text[j + 1] == '{')
    requires k == if x.text[j] == '\\' then j + 2 else j + 1
    ensures TilesBody(x, r, j, seg, depth)
  {
    assert PlainText(x, j, r.parts[0].end);
    TilesFrom(x, r.parts[1..], r.holes, k, j, r.parts[0].end, r.stop, depth);
  }

  lemma {:induction false} TemplateTiles(x: Scanner, j: nat, seg: nat, depth: nat)
    requires Sound(x) && Template(x, j, seg, depth).closed
    ensures TilesBody(x, Template(x, j, seg, depth), j, seg, depth)
    decreases x.end - j
  {
    var r := Template(x, j, seg, depth);
    if x.text[j] == '`' {
      assert r.parts[1..] == [];
    } else if x.text[j] == '$' && j + 1 < x.end && x.text[j + 1] == '{' {
      var e := Lex(x, j + 2, depth + 1, true, 0, true);
      LexIsOrdered(x, j + 2, depth + 1, true, 0, true, j + 2);
      TemplateTiles(x, e.close + 1, e.close + 1, depth);
      TilesHole(x, j, seg, e, Template(x, e.close + 1, e.close + 1, depth), depth);
    } else {
      var k := if x.text[j] == '\\' then j + 2 else j + 1;
      TemplateTiles(x, k, seg, depth);
      TilesBodyFrom(x, r, k, j, seg, depth);
    }
  }

  lemma TilesHole(x: Scanner, j: nat, seg: nat, e: Lexed, t: Body, depth: nat)
    requires Sound(x) && j + 2 <= e.close < t.stop < x.end && x.text[j] == '$' && x.text[j + 1] == '{' && t.parts != []
    ensures Good(x, e.forest, e.close, j + 2, depth + 1, true, 0) && t.parts[0].start == e.close + 1 && t.parts[0].Text?
            && Tiles(x, [Text(e.close + 1, t.parts[0].end)] + t.parts[1..], t.holes, e.close + 1, t.stop, depth)
            ==> Tiles(x, [Text(j, j)] + ([Text(seg, j), Expr(j + 2, e.close)] + t.parts)[1..], Hole(e.forest, t.holes),
                      j, t.stop, depth)
  {
    if t.parts[0].start == e.close + 1 && t.parts[0].Text? {
      assert [Text(e.close + 1, t.parts[0].end)] + t.parts[1..] == t.parts;
      var p := [Text(j, j)] + ([Text(seg, j), Expr(j + 2, e.close)] + t.parts)[1..];
      assert p == [Text(j, j), Expr(j + 2, e.close)] + t.parts && p[2..] == t.parts;
    }
  }

  /** The whole text: when everything is closed, the tokens are those of a well-formed forest that covers it. */
  lemma ClosedTextNests(x: Source)
    requires InText(x) && Whole(x).closed
    ensures Ordered(ScannerOf(x), Whole(x).forest, 0, x.end, 0)
  {
    LexIsOrdered(ScannerOf(x), 0, 0, false, 0, true, 0);
  }

  // ------------------------------------------------------------------ what that says about the list of tokens

  ghost predicate Within(ts: seq<Tok>, lo: nat, hi: nat, depth: nat) {
    forall k :: 0 <= k < |ts| ==> lo <= ts[k].start < ts[k].end <= hi && ts[k].depth >= depth
  }

  ghost predicate InHoleOf(parts: seq<Part>, u: Tok) {
    exists k :: 0 <= k < |parts| && parts[k].Expr? && parts[k].start <= u.start && u.end <= parts[k].end
  }

  /** The later token starts later, and behind the earlier one or inside one of its holes. */
  ghost predicate AfterOrInside(t: Tok, u: Tok) {
    t.start < u.start && (t.end <= u.start || (t.kind.Tpl? && u.depth > t.depth && InHoleOf(t.parts, u)))
  }

  ghost predicate Nested(ts: seq<Tok>) {
    forall i, j :: 0 <= i < j < |ts| ==> AfterOrInside(ts[i], ts[j])
  }

  lemma NestedAppend(a: seq<Tok>, b: seq<Tok>, lo: nat, mid: nat, hi: nat, da: nat, db: nat)
    requires Nested(a) && Nested(b) && Within(a, lo, mid, da) && Within(b, mid, hi, db) && lo <= mid <= hi
    ensures Nested(a + b) && Within(a + b, lo, hi, if da < db then da else db)
  {
    var ts := a + b;
    forall i, j | 0 <= i < j < |ts| ensures AfterOrInside(ts[i], ts[j]) {
      if i < |a| && |a| <= j { assert ts[i] == a[i] && ts[j] == b[j - |a|]; }
    }
  }

  lemma TemplateNests(t: Tok, inner: seq<Tok>)
    requires t.kind.Tpl? && t.start < t.end && Nested(inner) && Within(inner, t.start + 1, t.end - 1, t.depth + 1)
    requires forall k :: 0 <= k < |inner| ==> InHoleOf(t.parts, inner[k])
    ensures Nested([t] + inner) && Within([t] + inner, t.start, t.end, t.depth)
  {
    var both := [t] + inner;
    forall i, j | 0 <= i < j < |both| ensures AfterOrInside(both[i], both[j]) {
      assert both[j] == inner[j - 1];
      if i > 0 { assert both[i] == inner[i - 1]; }
    }
  }

  lemma {:induction false} ForestNests(x: Scanner, f: Forest, lo: nat, hi: nat, depth: nat)
    requires Sound(x) && Ordered(x, f, lo, hi, depth)
    ensures Nested(Flatten(f)) && Within(Flatten(f), lo, hi, depth)
    decreases f
  {
    if f.Tree? {
      var t := f.tok;
      ForestNests(x, f.rest, t.end, hi, depth);
      if t.kind.Tpl? {
        HolesNest(x, t.parts, f.holes, t.start + 1, t.end - 1, depth);
        TemplateNests(t, FlattenHoles(f.holes));
        NestedAppend([t] + FlattenHoles(f.holes), Flatten(f.rest), lo, t.end, hi, depth, depth);
      } else {
        assert [t] + FlattenHoles(f.holes) == [t];
        NestedAppend([t], Flatten(f.rest), lo, t.end, hi, depth, depth);
      }
    }
  }

  lemma {:induction false} HolesNest(x: Scanner, parts: seq<Part>, holes: Holes, lo: nat, hi: nat, depth: nat)
    requires Sound(x) && Tiles(x, parts, holes, lo, hi, depth)
    ensures Nested(FlattenHoles(holes)) && Within(FlattenHoles(holes), lo, hi, depth + 1)
    ensures forall k :: 0 <= k < |FlattenHoles(holes)| ==> InHoleOf(parts, FlattenHoles(holes)[k])
    decreases holes
  {
    if holes.Hole? {
      var e := parts[1];
      var first, more := Flatten(holes.inside), FlattenHoles(holes.more);
      ForestNests(x, holes.inside, e.start, e.end, depth + 1);
      HolesNest(x, parts[2..], holes.more, e.end + 1, hi, depth);
      NestedAppend(first, more, lo, e.end + 1, hi, depth + 1, depth + 1);
      forall k | 0 <= k < |first + more| ensures InHoleOf(parts, (first + more)[k]) {
        if k >= |first| {
          var m :| 0 <= m < |parts[2..]| && parts[2..][m].Expr? && parts[2..][m].start <= more[k - |first|].start
            && more[k - |first|].end <= parts[2..][m].end;
          assert parts[m + 2] == parts[2..][m];
        }
      }
    }
  }

  /** The list `js_tokenize` returns for closed text is start-ordered and properly nested. */
  lemma ClosedTokensNest(x: Source)
    requires InText(x) && Whole(x).closed
    ensures Nested(Flatten(Whole(x).forest)) && Within(Flatten(Whole(x).forest), 0, x.end, 0)
  {
    ClosedTextNests(x);
    ForestNests(ScannerOf(x), Whole(x).forest, 0, x.end, 0);
  }

  // ------------------------------------------------------------------ the parts are the template

  ghost function PartText(s: string, p: Part): string {
    if p.Text? then Slice(s, p.start, p.end) else "${" + Slice(s, p.start, p.end) + "}"
  }

  ghost function PartsText(s: string, parts: seq<Part>): string {
    if parts == [] then "" else PartText(s, parts[0]) + PartsText(s, parts[1..])
  }

  /** The parts alternate text and hole, from lo to hi, with `${` before and `}` behind each hole. */
  ghost predicate Alternates(s: string, parts: seq<Part>, lo: nat, hi: nat)
    decreases |parts|
  {
    && |parts| >= 1 && parts[0] == Text(lo, parts[0].end)
    && (if |parts| == 1 then lo <= parts[0].end == hi <= |s|
        else
          && parts[1] == Expr(parts[0].end + 2, parts[1].end)
          && lo <= parts[0].end && parts[1].start <= parts[1].end < hi <= |s|
          && s[parts[0].end] == '$' && s[parts[0].end + 1] == '{' && s[parts[1].end] == '}'
          && Alternates(s, parts[2..], parts[1].end + 1, hi))
  }

  lemma {:induction false} TilesAlternate(x: Scanner, parts: seq<Part>, holes: Holes, lo: nat, hi: nat, depth: nat)
    requires Sound(x) && Tiles(x, parts, holes, lo, hi, depth)
    ensures Alternates(x.text, parts, lo, hi)
    decreases holes
  {
    if holes.Hole? { TilesAlternate(x, parts[2..], holes.more, parts[1].end + 1, hi, depth); }
  }

  lemma HoleText(s: string, b: nat, c: nat, hi: nat)
    requires b + 2 <= c < hi <= |s| && s[b] == '$' && s[b + 1] == '{' && s[c] == '}'
    ensures "${" + s[b + 2..c] + "}" + s[c + 1..hi] == s[b..hi]
  {
    assert s[b..b + 2] == "${" && s[c..c + 1] == "}";
    SliceJoin(s, b, b + 2, c);
    SliceJoin(s, b, c, c + 1);
    SliceJoin(s, b, c + 1, hi);
  }

  /** Put back together, the parts of a template are what stands between its back quotes. */
  lemma {:induction false} PartsAreTheTemplate(s: string, parts: seq<Part>, lo: nat, hi: nat)
    requires Alternates(s, parts, lo, hi)
    ensures lo <= hi <= |s| && PartsText(s, parts) == s[lo..hi]
    decreases |parts|
  {
    if |parts| == 1 {
      assert PartsText(s, parts) == s[lo..hi] + "" == s[lo..hi];
    } else {
      var b, c := parts[0].end, parts[1].end;
      PartsAreTheTemplate(s, parts[2..], c + 1, hi);
      HoleText(s, b, c, hi);
      SliceJoin(s, lo, b, hi);
      assert parts[1..][0] == parts[1] && parts[1..][1..] == parts[2..];
      assert PartText(s, parts[0]) == s[lo..b] && PartText(s, parts[1]) == "${" + s[b + 2..c] + "}";
      assert PartsText(s, parts[1..]) == s[b..hi];
    }
  }

  /** A template stands between back quotes and its parts tile what is between them. */
  ghost predicate PartsTile(s: string, t: Tok) {
    t.kind.Tpl? ==>
      && t.start + 2 <= t.end <= |s| && s[t.start] == '`' && s[t.end - 1] == '`'
      && Alternates(s, t.parts, t.start + 1, t.end - 1)
  }

  ghost predicate AllTile(s: string, ts: seq<Tok>) {
    forall k :: 0 <= k < |ts| ==> PartsTile(s, ts[k])
  }

  lemma AllTileAppend(s: string, a: seq<Tok>, b: seq<Tok>)
    ensures AllTile(s, a) && AllTile(s, b) ==> AllTile(s, a + b)
  {
  }

  lemma {:induction false} ForestAlternates(x: Scanner, f: Forest, lo: nat, hi: nat, depth: nat)
    requires Sound(x) && Ordered(x, f, lo, hi, depth)
    ensures AllTile(x.text, Flatten(f))
    decreases f
  {
    if f.Tree? {
      ForestAlternates(x, f.rest, f.tok.end, hi, depth);
      if f.tok.kind.Tpl? {
        TilesAlternate(x, f.tok.parts, f.holes, f.tok.start + 1, f.tok.end - 1, depth);
        HolesAlternate(x, f.tok.parts, f.holes, f.tok.start + 1, f.tok.end - 1, depth);
      }
      assert PartsTile(x.text, f.tok);
      AllTileAppend(x.text, [f.tok], FlattenHoles(f.holes));
      AllTileAppend(x.text, [f.tok] + FlattenHoles(f.holes), Flatten(f.rest));
    }
  }

  lemma {:induction false} HolesAlternate(x: Scanner, parts: seq<Part>, holes: Holes, lo: nat, hi: nat, depth: nat)
    requires Sound(x) && Tiles(x, parts, holes, lo, hi, depth)
    ensures AllTile(x.text, FlattenHoles(holes))
    decreases holes
  {
    if holes.Hole? {
      ForestAlternates(x, holes.inside, parts[1].start, parts[1].end, depth + 1);
      HolesAlternate(x, parts[2..], holes.more, parts[1].end + 1, hi, depth);
      AllTileAppend(x.text, Flatten(holes.inside), FlattenHoles(holes.more));
    }
  }

  lemma ClosedTemplatesTile(x: Source)
    requires InText(x) && Whole(x).closed
    ensures AllTile(x.text, Flatten(Whole(x).forest))
  {
    ClosedTextNests(x);
    ForestAlternates(ScannerOf(x), Whole(x).forest, 0, x.end, 0);
  }

  /** Every template token of closed text, at any depth: its parts alternate, and put together they are its interior. */
  lemma TemplatesAreTheirParts(x: Source, t: Tok)
    requires InText(x) && Whole(x).closed && t in Flatten(Whole(x).forest) && t.kind.Tpl?
    ensures PartsTile(x.text, t) && PartsText(x.text, t.parts) == x.text[t.start + 1..t.end - 1]
  {
    assert PartsTile(x.text, t) by { ClosedTemplatesTile(x); }
    PartsAreTheTemplate(x.text, t.parts, t.start + 1, t.end - 1);
  }

  // ------------------------------------------------------------------ js_quote

  /** Read with escapes, the text holds no single quote and no line end. */
  ghost predicate QuoteSafe(w: string)
    decreases |w|
  {
    || w == ""
    || (w[0] == '\\' && |w| >= 2 && QuoteSafe(w[2..]))
    || (w[0] != '\\' && w[0] != '\'' && w[0] != '\n' && QuoteSafe(w[1..]))
  }

  lemma {:induction false} QuoteSafeAppend(a: string, b: string)
    requires QuoteSafe(a) && QuoteSafe(b)
    ensures QuoteSafe(a + b)
    decreases |a|
  {
    if a == "" {
      assert a + b == b;
    } else {
      var k := if a[0] == '\\' then 2 else 1;
      assert (a + b)[k..] == a[k..] + b;
      QuoteSafeAppend(a[k..], b);
    }
  }

  lemma {:induction false} HexIsSafe(h: string)
    requires AllHex(h)
    ensures QuoteSafe(h)
  {
    if h != "" {
      assert IsHex(h[0]);
      HexIsSafe(h[1..]);
    }
  }

  lemma EscapeIsSafe(c: char)
    ensures QuoteSafe(JsEscape(c))
  {
    var e := JsEscape(c);
    if c == '\U{2028}' || c == '\U{2029}' {
      assert e[2..] == Hex4(c as int);
      HexIsSafe(e[2..]);
    } else {
      assert |e| == 2 ==> e[2..] == "";
      assert |e| == 1 ==> e[1..] == "";
    }
  }

  lemma {:induction false} BodyIsSafe(s: string)
    ensures QuoteSafe(JsBody(s))
  {
    if s != "" {
      BodyIsSafe(s[1..]);
      EscapeIsSafe(s[0]);
      QuoteSafeAppend(JsEscape(s[0]), JsBody(s[1..]));
    }
  }

  lemma {:induction false} StopsBehindBody(x: Source, j: nat, w: string)
    requires InText(x) && QuoteSafe(w) && j + |w| < x.end && x.text[j + |w|] == '\''
    requires forall k :: 0 <= k < |w| ==> x.text[j + k] == w[k]
    ensures StringStop(x, j, '\'') == j + |w|
    decreases |w|
  {
    if w != "" {
      assert x.text[j + 0] == w[0];
      var k := if w[0] == '\\' then 2 else 1;
      assert forall m :: 0 <= m < |w[k..]| ==> x.text[j + (k + m)] == w[k + m] == w[k..][m];
      StopsBehindBody(x, j + k, w[k..]);
    }
  }

  lemma QuoteChars(t: string, i: nat, w: string)
    requires StartsAt(t, i, "'" + w + "'")
    ensures i + |w| + 2 <= |t| && t[i] == '\'' && t[i + 1 + |w|] == '\''
            && forall k :: 0 <= k < |w| ==> t[i + 1 + k] == w[k]
    ensures t[i + 1..i + 1 + |w|] == w
  {
    var q := "'" + w + "'";
    StartsAtChars(t, i, q);
    assert t[i + 0] == q[0] && t[i + (1 + |w|)] == q[1 + |w|];
    forall k | 0 <= k < |w| ensures t[i + 1 + k] == w[k] { assert t[i + (k + 1)] == q[k + 1]; }
  }

  lemma QuotedStringEnds(x: Source, i: nat, w: string)
    requires InText(x) && QuoteSafe(w) && i + |w| + 2 <= x.end && x.text[i] == '\'' && x.text[i + 1 + |w|] == '\''
    requires forall k :: 0 <= k < |w| ==> x.text[i + 1 + k] == w[k]
    ensures QuotedString(x, i) == Leaf(Str, i + |w| + 2, true)
  {
    StopsBehindBody(x, i + 1, w);
  }

  /** Wherever `js_quote(s)` stands in a text, the tokenizer reads it as one closed string token. */
  lemma QuotedIsOneToken(x: Source, i: nat, s: string, regexOk: bool)
    requires InText(x) && StartsAt(x.text, i, JsQuote(s)) && i + |JsQuote(s)| <= x.end
    ensures LeafAt(x, i, regexOk) == Leaf(Str, i + |JsQuote(s)|, true)
    ensures x.text[i + 1..i + |JsQuote(s)| - 1] == JsBody(s)
  {
    BodyIsSafe(s);
    QuoteChars(x.text, i, JsBody(s));
    QuotedStringEnds(x, i, JsBody(s));
  }

  /** Lexing `js_quote(s)` gives one string token over the whole text, and unescaping what it holds gives s back. */
  lemma QuoteRoundTrip(s: string, letter: char -> bool, alnum: char -> bool)
    ensures var q := JsQuote(s); var x := Source(q, |q|, letter, alnum);
            && Flatten(Whole(x).forest) == [Tok(Str, 0, |q|, [], 0)] && Whole(x).closed
            && JsUnescape(q[1..|q| - 1]) == Decoded(s)
  {
    var q := JsQuote(s);
    var x := Source(q, |q|, letter, alnum);
    assert q[0..0 + |q|] == q;
    QuotedIsOneToken(x, 0, s, true);
    UnescapeQuoted(s);
    var y := ScannerOf(x);
    var t := Tok(Str, 0, |q|, [], 0);
    assert y.leaf(0, true) == Leaf(Str, |q|, true);
    assert Lex(y, |q|, 0, false, 0, y.regexOk(true, t, NoHoles)) == Lexed(Done, |q|, true);
    assert Lex(y, 0, 0, false, 0, true) == Lexed(Tree(t, NoHoles, Done), |q|, true);
  }
}

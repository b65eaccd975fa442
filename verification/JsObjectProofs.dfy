/** Why the text of a rewritten call (`_js_tpl_to_call` in tools/i18n_wrap_code.py) is read back as the call exactly
    when all its pairs can be printed: tokens are found in their places, values end where they should, and entries
    follow each other. */
module JsObjectProofs {
  import opened Text
  import opened Identifiers
  import opened Quotes
  import opened JsTemplates
  import opened JsLeaves
  import opened JsObjects
  import L = JsLexer
  import P = JsLexerProofs

  // ------------------------------------------------------------------ the tokenizer, token by token

  /** A scan of a text: what is found from a position on, when a slash there may (or may not) start a regular
      expression. */
  type Scan = (nat, bool) -> L.Lexed

  ghost function ScanOf(x: L.Source): Scan
    requires L.InText(x)
  {
    (i: nat, ok: bool) => L.Lex(L.ScannerOf(x), i, 0, false, 0, ok)
  }

  function LeafTok(s: L.Leaf, i: nat): L.Tok { L.Tok(s.kind, i, s.end, [], 0) }

  /** What the tokenizer does at one position. */
  ghost predicate Law(x: L.Source, scan: Scan, i: nat, ok: bool)
    requires L.InText(x)
  {
    var r := scan(i, ok);
    if i >= x.end then r.forest == L.Done && (r.closed <==> i == x.end)
    else if L.IsBlank(x.text[i]) then r == scan(i + 1, ok)
    else if x.text[i] == '`' then
      r.forest.Tree? && r.forest.tok.start == i < r.forest.tok.end
        && exists ok' :: r.forest.rest == scan(r.forest.tok.end, ok').forest
    else
      var s := L.LeafAt(x, i, ok);
      var next := scan(s.end, L.RegexOk(x, ok, [LeafTok(s, i)]));
      r.forest == L.Tree(LeafTok(s, i), L.NoHoles, next.forest) && (r.closed <==> s.closed && next.closed)
  }

  ghost predicate Laws(x: L.Source, scan: Scan) {
    L.InText(x) && forall i, ok {:trigger Law(x, scan, i, ok)} :: Law(x, scan, i, ok)
  }

  lemma LexLaw(x: L.Source, i: nat, ok: bool)
    requires L.InText(x)
    ensures Law(x, ScanOf(x), i, ok)
  {
    if i >= x.end || L.IsBlank(x.text[i]) {
      LexNoToken(x, i, ok);
    } else if x.text[i] == '`' {
      LexTemplate(x, i, ok);
    } else {
      LexLeaf(x, i, ok);
    }
  }

  lemma LexNoToken(x: L.Source, i: nat, ok: bool)
    requires L.InText(x) && (i >= x.end || L.IsBlank(x.text[i]))
    ensures Law(x, ScanOf(x), i, ok)
  {
    if i < x.end { LexBlank(L.ScannerOf(x), i, ok); } else { LexPast(L.ScannerOf(x), i, ok); }
  }

  lemma LexPast(y: L.Scanner, i: nat, ok: bool)
    requires L.Sound(y) && i >= y.end
    ensures L.Lex(y, i, 0, false, 0, ok) == L.Lexed(L.Done, y.end, i == y.end)
  {
  }

  lemma LexBlank(y: L.Scanner, i: nat, ok: bool)
    requires L.Sound(y) && i < y.end && L.IsBlank(y.text[i])
    ensures L.Lex(y, i, 0, false, 0, ok) == L.Lex(y, i + 1, 0, false, 0, ok)
  {
  }

  lemma LexTemplate(x: L.Source, i: nat, ok: bool)
    requires L.InText(x) && i < x.end && x.text[i] == '`'
    ensures Law(x, ScanOf(x), i, ok)
  {
    var y := L.ScannerOf(x);
    var b := L.Template(y, i + 1, i + 1, 0);
    var t := L.TemplateTok(y, i, b, 0);
    assert ScanOf(x)(i, ok).forest.rest == ScanOf(x)(t.end, y.regexOk(ok, t, b.holes)).forest;
  }

  lemma LexLeaf(x: L.Source, i: nat, ok: bool)
    requires L.InText(x) && i < x.end && !L.IsBlank(x.text[i]) && x.text[i] != '`'
    ensures var s := L.LeafAt(x, i, ok);
            var next := ScanOf(x)(s.end, L.RegexOk(x, ok, [LeafTok(s, i)]));
            var r := ScanOf(x)(i, ok);
            r.forest == L.Tree(LeafTok(s, i), L.NoHoles, next.forest) && (r.closed <==> s.closed && next.closed)
  {
    var y, s := L.ScannerOf(x), L.LeafAt(x, i, ok);
    assert y.leaf(i, ok) == s;
    assert [LeafTok(s, i)] + L.FlattenHoles(L.NoHoles) == [LeafTok(s, i)];
    assert y.regexOk(ok, LeafTok(s, i), L.NoHoles) == L.RegexOk(x, ok, [LeafTok(s, i)]);
  }

  lemma LexLaws(x: L.Source)
    requires L.InText(x)
    ensures Laws(x, ScanOf(x))
  {
    forall i: nat, ok ensures Law(x, ScanOf(x), i, ok) { LexLaw(x, i, ok); }
  }

  /** A character that is a token of its own. */
  predicate Single(c: char) { c == ',' || c == ':' || c == '(' || c == ')' || c == '{' || c == '}' }

  lemma SingleLeaf(x: L.Source, i: nat, ok: bool)
    requires L.InText(x) && i < x.end && Single(x.text[i])
    ensures L.LeafAt(x, i, ok) == L.Leaf(L.Punct, i + 1, true)
  {
    forall k | 0 <= k < |L.PUNCT3| ensures !StartsAt(x.text, i, L.PUNCT3[k]) { assert L.PUNCT3[k][0] != x.text[i]; }
    forall k | 0 <= k < |L.PUNCT2| ensures !StartsAt(x.text, i, L.PUNCT2[k]) { assert L.PUNCT2[k][0] != x.text[i]; }
  }

  function SingleTok(i: nat): L.Tok { L.Tok(L.Punct, i, i + 1, [], 0) }

  lemma LastOfOne(t: L.Tok)
    ensures L.LastSig([t]) == if t.kind.Comment? then None else Some(t)
  {
    assert [t][..0] == [];
  }

  lemma SingleMark(x: L.Source, i: nat, ok: bool)
    requires L.InText(x) && i < x.end && Single(x.text[i])
    ensures Mark(x, SingleTok(i)) == x.text[i]
    ensures L.RegexOk(x, ok, [SingleTok(i)]) <==> x.text[i] != ')' && x.text[i] != '}'
  {
    assert x.text[i..i + 1] == [x.text[i]];
    LastOfOne(SingleTok(i));
  }

  lemma ScanSingle(x: L.Source, scan: Scan, i: nat, ok: bool)
    requires Laws(x, scan) && i < x.end && Single(x.text[i])
    ensures scan(i, ok).forest == L.Tree(SingleTok(i), L.NoHoles,
                                         scan(i + 1, x.text[i] != ')' && x.text[i] != '}').forest)
    ensures Mark(x, SingleTok(i)) == x.text[i]
  {
    SingleLeaf(x, i, ok);
    SingleMark(x, i, ok);
    assert Law(x, scan, i, ok);
  }

  /** What ends a value is found behind where the scan starts. */
  lemma {:induction false} EndsLater(x: L.Source, scan: Scan, i: nat, ok: bool, open: string)
    requires Laws(x, scan)
    ensures var r := ValueEnd(x, scan(i, ok).forest, open); r.Some? ==> r.value.0.start >= i
    decreases x.end - i
  {
    assert Law(x, scan, i, ok);
    if i < x.end {
      if L.IsBlank(x.text[i]) {
        EndsLater(x, scan, i + 1, ok, open);
      } else {
        var t := scan(i, ok).forest.tok;
        var ok' :| scan(i, ok).forest.rest == scan(t.end, ok').forest;
        if Enter(Mark(x, t), open).Some? { EndsLater(x, scan, t.end, ok', Enter(Mark(x, t), open).value); }
      }
    }
  }

  // ------------------------------------------------------------------ an expression in its place

  /** A token of the expression has the same text in its place. */
  lemma TokInContext(x: L.Source, e: L.Source, a: nat, s: L.Leaf, i: nat, ok: bool)
    requires Embedded(x, e, a) && i < s.end <= |e.text|
    ensures var t, u := LeafTok(s, i), L.Tok(s.kind, a + i, a + s.end, [], 0);
            && Mark(x, u) == Mark(e, t) && L.RegexOk(x, ok, [u]) == L.RegexOk(e, ok, [t])
  {
    var t, u := LeafTok(s, i), L.Tok(s.kind, a + i, a + s.end, [], 0);
    assert x.text[a + i..a + s.end] == e.text[i..s.end];
    assert L.Value(x, u) == L.Value(e, t);
    LastOfOne(t);
    LastOfOne(u);
  }

  /** From its position i on, the expression ends in its place where it was meant to end if and only if, read by
      itself, what is left of it is closed and balanced. */
  ghost predicate EndsAsMeant(x: L.Source, sx: Scan, e: L.Source, se: Scan, a: nat, i: nat, ok: bool, open: string)
    requires Embedded(x, e, a)
  {
    var b, r := a + |e.text|, ValueEnd(x, sx(a + i, ok).forest, open);
    if se(i, ok).closed && Balanced(e, se(i, ok).forest, open)
    then r == Some((SingleTok(b), sx(b + 1, x.text[b] == ',').forest))
    else r.Some? ==> r.value.0.start != b
  }

  lemma EndsAtEnd(x: L.Source, sx: Scan, e: L.Source, se: Scan, a: nat, ok: bool, open: string)
    requires Embedded(x, e, a) && Laws(x, sx) && Laws(e, se)
    ensures EndsAsMeant(x, sx, e, se, a, |e.text|, ok, open)
  {
    var b := a + |e.text|;
    assert Law(e, se, |e.text|, ok);
    ScanSingle(x, sx, b, ok);
    if open != "" && Enter(x.text[b], open).Some? {
      EndsLater(x, sx, b + 1, x.text[b] == ',', Enter(x.text[b], open).value);
    }
  }

  lemma EndsOverrun(x: L.Source, sx: Scan, e: L.Source, se: Scan, a: nat, i: nat, ok: bool, open: string)
    requires Embedded(x, e, a) && Laws(x, sx) && Laws(e, se) && i < |e.text| && !L.IsBlank(e.text[i])
    requires !L.LeafAt(e, i, ok).closed || IsLineComment(e, i)
    ensures EndsAsMeant(x, sx, e, se, a, i, ok, open)
  {
    assert x.text[a + i] == e.text[i];
    var t := L.LeafAt(x, a + i, ok);
    LeafInContext(x, e, a, i, ok);
    assert IsLineComment(e, i) ==> L.LeafAt(e, i, ok).kind.Comment?;
    assert Law(e, se, i, ok) && Law(x, sx, a + i, ok);
    EndsLater(x, sx, t.end, L.RegexOk(x, ok, [LeafTok(t, a + i)]), open);
  }

  /** The token s at i of the expression is found by itself and in its place. */
  ghost predicate SameTok(x: L.Source, sx: Scan, e: L.Source, se: Scan, a: nat, i: nat, s: L.Leaf, ok: bool,
                          ok': bool) {
    var t, u := LeafTok(s, i), L.Tok(s.kind, a + i, a + s.end, [], 0);
    && se(i, ok).forest == L.Tree(t, L.NoHoles, se(s.end, ok').forest) && se(i, ok).closed == se(s.end, ok').closed
    && sx(a + i, ok).forest == L.Tree(u, L.NoHoles, sx(a + s.end, ok').forest) && Mark(x, u) == Mark(e, t)
  }

  lemma FindsSameTok(x: L.Source, sx: Scan, e: L.Source, se: Scan, a: nat, i: nat, ok: bool)
    requires Embedded(x, e, a) && Laws(x, sx) && Laws(e, se) && i < |e.text| && !L.IsBlank(e.text[i])
    requires L.LeafAt(e, i, ok).closed && !IsLineComment(e, i)
    ensures var s := L.LeafAt(e, i, ok); SameTok(x, sx, e, se, a, i, s, ok, L.RegexOk(e, ok, [LeafTok(s, i)]))
  {
    assert x.text[a + i] == e.text[i];
    var s := L.LeafAt(e, i, ok);
    assert L.LeafAt(x, a + i, ok) == L.Leaf(s.kind, a + s.end, true) by { LeafInContext(x, e, a, i, ok); }
    TokInContext(x, e, a, s, i, ok);
    assert Law(e, se, i, ok) && Law(x, sx, a + i, ok);
  }

  lemma EndsBehindToken(x: L.Source, sx: Scan, e: L.Source, se: Scan, a: nat, i: nat, s: L.Leaf, ok: bool, ok': bool,
                        open: string)
    requires Embedded(x, e, a) && i < s.end <= |e.text| && !(s.kind.Comment? && IsLineComment(e, i))
    requires SameTok(x, sx, e, se, a, i, s, ok, ok')
    requires var m := Mark(e, LeafTok(s, i));
             Enter(m, open).Some? ==> EndsAsMeant(x, sx, e, se, a, s.end, ok', Enter(m, open).value)
    ensures EndsAsMeant(x, sx, e, se, a, i, ok, open)
  {
  }

  lemma {:induction false} ArgumentEnds(x: L.Source, sx: Scan, e: L.Source, se: Scan, a: nat, i: nat, ok: bool,
                                        open: string)
    requires Embedded(x, e, a) && Laws(x, sx) && Laws(e, se) && i <= |e.text|
    ensures EndsAsMeant(x, sx, e, se, a, i, ok, open)
    decreases |e.text| - i
  {
    if i == |e.text| {
      EndsAtEnd(x, sx, e, se, a, ok, open);
    } else if L.IsBlank(e.text[i]) {
      assert x.text[a + i] == e.text[i];
      assert Law(e, se, i, ok) && Law(x, sx, a + i, ok);
      ArgumentEnds(x, sx, e, se, a, i + 1, ok, open);
    } else if !L.LeafAt(e, i, ok).closed || IsLineComment(e, i) {
      EndsOverrun(x, sx, e, se, a, i, ok, open);
    } else {
      var s := L.LeafAt(e, i, ok);
      var m, ok' := Mark(e, LeafTok(s, i)), L.RegexOk(e, ok, [LeafTok(s, i)]);
      if Enter(m, open).Some? { ArgumentEnds(x, sx, e, se, a, s.end, ok', Enter(m, open).value); }
      FindsSameTok(x, sx, e, se, a, i, ok);
      EndsBehindToken(x, sx, e, se, a, i, s, ok, ok', open);
    }
  }

  // ------------------------------------------------------------------ one property

  lemma {:induction false} RunThrough(x: L.Source, j: nat, n: nat, p: char -> bool)
    requires L.InText(x) && j <= n < x.end && (forall k :: j <= k < n ==> p(x.text[k])) && !p(x.text[n])
    ensures L.RunEnd(x, j, p) == n
    decreases n - j
  {
    if j < n { RunThrough(x, j + 1, n, p); }
  }

  /** A name is one token, in front of punctuation that is a token of its own. */
  lemma NameLeaf(x: L.Source, i: nat, name: string, ok: bool)
    requires L.InText(x) && IsName(name) && StartsAt(x.text, i, name) && i + |name| < x.end
             && Single(x.text[i + |name|])
    ensures L.LeafAt(x, i, ok) == L.Leaf(if IsDigit(name[0]) then L.Num else L.Ident, i + |name|, true)
    ensures !L.IsBlank(x.text[i]) && x.text[i] != '`' && L.Slice(x.text, i, i + |name|) == name
  {
    StartsAtChars(x.text, i, name);
    var n := i + |name|;
    assert x.text[i] == name[0] && IsNameChar(name[0]);
    forall k | i <= k < n ensures L.ContinuesName(x.text[k]) && L.ContinuesNumber(x, x.text[k]) {
      assert x.text[i + (k - i)] == name[k - i] && IsNameChar(name[k - i]);
    }
    if IsDigit(name[0]) {
      RunThrough(x, i + 1, n, L.NumberChars(x));
    } else {
      RunThrough(x, i + 1, n, L.ContinuesName);
    }
  }

  function NameTok(i: nat, name: string): L.Tok
    requires name != ""
  {
    L.Tok(if IsDigit(name[0]) then L.Num else L.Ident, i, i + |name|, [], 0)
  }

  lemma ScanName(x: L.Source, scan: Scan, i: nat, name: string, ok: bool) returns (ok': bool)
    requires Laws(x, scan) && IsName(name) && StartsAt(x.text, i, name) && i + |name| < x.end
             && Single(x.text[i + |name|])
    ensures scan(i, ok).forest == L.Tree(NameTok(i, name), L.NoHoles, scan(i + |name|, ok').forest)
    ensures L.Value(x, NameTok(i, name)) == name && Mark(x, NameTok(i, name)) == ' '
  {
    NameLeaf(x, i, name, ok);
    assert Law(x, scan, i, ok);
    ok' := L.RegexOk(x, ok, [NameTok(i, name)]);
  }

  lemma OuterCharacters(t: string)
    requires t != "" && Strip(t) == t
    ensures !IsSpace(t[0]) && !IsSpace(t[|t| - 1])
  {
    var a, b := SpaceEnd(t, 0), SpaceStart(t, |t|);
    assert a < b;
    assert |t[a..b]| == b - a;
  }

  /** A stretch that starts with a blank in front of the expression has the expression as its stripped text only if it
      ends right behind it, when a comma or a brace follows. */
  lemma StretchIsExpr(s: string, p: nat, expr: string, c: nat)
    requires expr != "" && Strip(expr) == expr && p + 1 + |expr| < |s| && s[p] == ' '
             && s[p + 1..p + 1 + |expr|] == expr
    requires !IsSpace(s[p + 1 + |expr|]) && p <= c
    ensures Strip(L.Slice(s, p, c)) == expr <==> c == p + 1 + |expr|
  {
    var b := p + 1 + |expr|;
    OuterCharacters(expr);
    if c < b {
      var w := L.Slice(s, p, c);
      assert |w| == c - p && (w != "" ==> w[0] == ' ');
      ShorterStretch(w);
    } else {
      StretchFrom(s, p, expr, L.Min(c, |s|));
    }
  }

  /** A stretch that goes as far as the expression, or on. */
  lemma StretchFrom(s: string, p: nat, expr: string, end: nat)
    requires expr != "" && !IsSpace(expr[0]) && !IsSpace(expr[|expr| - 1]) && p + 1 + |expr| <= end <= |s|
    requires s[p] == ' ' && s[p + 1..p + 1 + |expr|] == expr && (p + 1 + |expr| < |s| ==> !IsSpace(s[p + 1 + |expr|]))
    ensures Strip(s[p..end]) == expr <==> end == p + 1 + |expr|
  {
    var n, w := |expr|, s[p..end];
    var v := s[p + 1..p + 1 + n];
    assert forall k :: 0 <= k < n ==> v[k] == w[k + 1];
    assert v == expr && w[0] == s[p] && w[n] == v[n - 1];
    assert w[1..n + 1] == v;
    if |w| == n + 1 {
      StripBetween(w, 1, n + 1);
    } else {
      assert w[n + 1] == s[p + 1 + n];
      LongerStretch(w, n);
    }
  }

  lemma ShorterStretch(w: string)
    requires w != "" ==> w[0] == ' '
    ensures w == "" ==> Strip(w) == ""
    ensures w != "" ==> |Strip(w)| < |w|
  {
    if w != "" { assert SpaceEnd(w, 0) >= 1; }
  }

  lemma LongerStretch(w: string, n: nat)
    requires n >= 1 && |w| >= n + 2 && w[0] == ' ' && !IsSpace(w[1]) && !IsSpace(w[n + 1])
    ensures |Strip(w)| > n
  {
    assert SpaceEnd(w, 0) == 1;
    assert SpaceStart(w, |w|) >= n + 2;
  }

  /** What comes of an entry: it is read as it is, up to b, or not at all, or something else is read. */
  ghost predicate ReadsAs(x: L.Source, r: Option<Entry>, e: (string, string), good: bool, b: nat, after: L.Forest) {
    if good then r.Some? && PairOf(x, r.value) == e && r.value.stop == SingleTok(b) && r.value.rest == after
    else r.Some? ==> PairOf(x, r.value) != e
  }

  /** A scan of the expression by itself. */
  lemma ArgumentScan(expr: string, abc: Alphabet) returns (se: Scan)
    ensures Laws(SourceOf(expr, abc), se)
    ensures IsArgument(expr, abc) <==> ArgumentBy(expr, abc, se)
  {
    LexLaws(SourceOf(expr, abc));
    se := ScanOf(SourceOf(expr, abc));
  }

  ghost predicate ArgumentBy(expr: string, abc: Alphabet, se: Scan) {
    se(0, true).closed && Balanced(SourceOf(expr, abc), se(0, true).forest, "")
  }

  function EntryEnd(i: nat, e: (string, string)): nat { i + |e.0| + if e.0 == e.1 then 0 else 2 + |e.1| }

  /** The pair is printed from i to b. */
  predicate EntryStands(s: string, i: nat, e: (string, string), b: nat) {
    var p := i + |e.0| + 1;
    && b == EntryEnd(i, e) <= |s| && StartsAt(s, i, e.0)
    && (e.0 != e.1 ==> s[p - 1] == ':' && s[p] == ' ' && s[p + 1..b] == e.1)
  }

  /** A pair printed with its colon, in tokens. */
  ghost predicate LongTokens(x: L.Source, f: L.Forest, t: L.Tok, colon: L.Tok, rest: L.Forest, name: string,
                             key: NumberKey) {
    && f == L.Tree(t, L.NoHoles, L.Tree(colon, L.NoHoles, rest)) && !colon.kind.Comment? && Mark(x, colon) == ':'
    && (KeyOf(x, t, key) == Some(name) <==> NameReads(name, key))
  }

  lemma LongEntry(x: L.Source, f: L.Forest, t: L.Tok, colon: L.Tok, rest: L.Forest, e: (string, string), argument: bool,
                  b: nat, after: L.Forest, key: NumberKey)
    requires LongTokens(x, f, t, colon, rest, e.0, key)
    requires ReadsAs(x, ReadValue(x, colon.end, KeyOf(x, t, key), rest), e, argument
                     && KeyOf(x, t, key) == Some(e.0), b, after)
    ensures ReadsAs(x, ReadEntry(x, f, key), e, argument && NameReads(e.0, key), b, after)
  {
    ReadColon(x, f, t, colon, rest, key);
  }

  lemma LongEntryTokens(x: L.Source, scan: Scan, i: nat, e: (string, string), b: nat, ok: bool, key: NumberKey,
                        abc: Alphabet, se: Scan)
    returns (t: L.Tok, colon: L.Tok, rest: L.Forest)
    requires Laws(x, scan) && x.letter == abc.letter && x.alnum == abc.alnum && Plain(e) && e.0 != e.1
    requires EntryStands(x.text, i, e, b) && b < x.end && (x.text[b] == ',' || x.text[b] == '}')
    requires Laws(SourceOf(e.1, abc), se)
    ensures LongTokens(x, scan(i, ok).forest, t, colon, rest, e.0, key)
    ensures ReadsAs(x, ReadValue(x, colon.end, KeyOf(x, t, key), rest), e, ArgumentBy(e.1, abc, se)
                    && KeyOf(x, t, key) == Some(e.0), b, scan(b + 1, x.text[b] == ',').forest)
  {
    var p := i + |e.0| + 1;
    t, colon, rest := NameTok(i, e.0), SingleTok(p - 1), scan(p, true).forest;
    LongEntryScan(x, scan, i, e, b, ok);
    LongEntryValue(x, scan, i, e, b, abc, se, KeyOf(x, t, key));
  }

  lemma ReadColon(x: L.Source, f: L.Forest, t: L.Tok, colon: L.Tok, rest: L.Forest, key: NumberKey)
    requires f == L.Tree(t, L.NoHoles, L.Tree(colon, L.NoHoles, rest)) && !colon.kind.Comment? && Mark(x, colon) == ':'
    ensures ReadEntry(x, f, key) == ReadValue(x, colon.end, KeyOf(x, t, key), rest)
  {
  }

  lemma ReadAlone(x: L.Source, f: L.Forest, t: L.Tok, stop: L.Tok, rest: L.Forest, key: NumberKey)
    requires f == L.Tree(t, L.NoHoles, L.Tree(stop, L.NoHoles, rest)) && !stop.kind.Comment?
    requires Mark(x, stop) == ',' || Mark(x, stop) == '}'
    ensures var w := L.Value(x, t);
            ReadEntry(x, f, key) == if t.kind.Ident? && w !in RESERVED then Some(Alone(w, stop, rest)) else None
  {
  }

  lemma LongEntryScan(x: L.Source, scan: Scan, i: nat, e: (string, string), b: nat, ok: bool)
    requires Laws(x, scan) && Plain(e) && e.0 != e.1 && EntryStands(x.text, i, e, b) && b < x.end
    ensures var p, t := i + |e.0| + 1, NameTok(i, e.0);
            && scan(i, ok).forest == L.Tree(t, L.NoHoles, L.Tree(SingleTok(p - 1), L.NoHoles, scan(p, true).forest))
            && L.Value(x, t) == e.0 && Mark(x, t) == ' ' && Mark(x, SingleTok(p - 1)) == ':'
  {
    var p := i + |e.0| + 1;
    var ok' := ScanName(x, scan, i, e.0, ok);
    ScanSingle(x, scan, p - 1, ok');
  }

  lemma LongEntryValue(x: L.Source, scan: Scan, i: nat, e: (string, string), b: nat, abc: Alphabet, se: Scan,
                       name: Option<string>)
    requires Laws(x, scan) && x.letter == abc.letter && x.alnum == abc.alnum && e.0 != e.1 && e.1 != ""
             && Strip(e.1) == e.1 && '`' !in e.1 && '\n' !in e.1
    requires EntryStands(x.text, i, e, b) && b < x.end && (x.text[b] == ',' || x.text[b] == '}')
    requires Laws(SourceOf(e.1, abc), se)
    ensures var p := i + |e.0| + 1;
            ReadsAs(x, ReadValue(x, p, name, scan(p, true).forest), e, ArgumentBy(e.1, abc, se) && name == Some(e.0), b,
                    scan(b + 1, x.text[b] == ',').forest)
  {
    ValueStands(x.text, i, e, b);
    BehindColon(x, scan, i + |e.0| + 1, e, b, abc, se, name);
  }

  lemma ValueStands(s: string, i: nat, e: (string, string), b: nat)
    requires EntryStands(s, i, e, b) && e.0 != e.1
    ensures var p := i + |e.0| + 1;
            b == p + 1 + |e.1| <= |s| && s[p] == ' ' && s[p + 1..b] == e.1
  {
  }

  lemma BehindColon(x: L.Source, scan: Scan, p: nat, e: (string, string), b: nat, abc: Alphabet, se: Scan,
                    name: Option<string>)
    requires Laws(x, scan) && x.letter == abc.letter && x.alnum == abc.alnum && Laws(SourceOf(e.1, abc), se)
    requires e.1 != "" && Strip(e.1) == e.1 && '`' !in e.1 && '\n' !in e.1
    requires b == p + 1 + |e.1| < x.end <= |x.text| && x.text[p] == ' ' && x.text[p + 1..b] == e.1
    requires x.text[b] == ',' || x.text[b] == '}'
    ensures ReadsAs(x, ReadValue(x, p, name, scan(p, true).forest), e, ArgumentBy(e.1, abc, se) && name == Some(e.0), b,
                    scan(b + 1, x.text[b] == ',').forest)
  {
    var f, after, argument := scan(p, true).forest, scan(b + 1, x.text[b] == ',').forest, ArgumentBy(e.1, abc, se);
    assert ValueEndsAt(x, f, p, argument, b, after) by { ValueOfEntry(x, scan, p, e.1, abc, se); }
    ValueReadsAs(x, f, p, e, b, after, name, argument);
  }

  lemma ValueReadsAs(x: L.Source, f: L.Forest, p: nat, e: (string, string), b: nat, after: L.Forest,
                     name: Option<string>, argument: bool)
    requires e.1 != "" && Strip(e.1) == e.1 && b == p + 1 + |e.1| < |x.text| && x.text[p] == ' '
             && x.text[p + 1..b] == e.1 && !IsSpace(x.text[b])
    requires ValueEndsAt(x, f, p, argument, b, after)
    ensures ReadsAs(x, ReadValue(x, p, name, f), e, argument && name == Some(e.0), b, after)
  {
    var v := ValueEnd(x, f, "");
    if v.Some? { StretchIsExpr(x.text, p, e.1, v.value.0.start); }
  }

  /** The value that starts at p or later ends at b if and only if it is one. */
  ghost predicate ValueEndsAt(x: L.Source, f: L.Forest, p: nat, argument: bool, b: nat, after: L.Forest) {
    var v := ValueEnd(x, f, "");
    && (v.Some? ==> v.value.0.start >= p)
    && if argument then v == Some((SingleTok(b), after)) else v.Some? ==> v.value.0.start != b
  }

  /** The value behind a colon and a blank. */
  lemma ValueOfEntry(x: L.Source, scan: Scan, p: nat, expr: string, abc: Alphabet, se: Scan)
    requires Laws(x, scan) && Laws(SourceOf(expr, abc), se) && x.letter == abc.letter && x.alnum == abc.alnum
             && '`' !in expr && '\n' !in expr
    requires p + 1 + |expr| < x.end && x.text[p] == ' ' && x.text[p + 1..p + 1 + |expr|] == expr
    requires x.text[p + 1 + |expr|] == ',' || x.text[p + 1 + |expr|] == '}'
    ensures var b := p + 1 + |expr|;
            ValueEndsAt(x, scan(p, true).forest, p, ArgumentBy(expr, abc, se), b, scan(b + 1, x.text[b] == ',').forest)
  {
    var e := SourceOf(expr, abc);
    var w := x.text[p + 1..p + 1 + |expr|];
    assert forall k :: 0 <= k < |expr| ==> w[k] == x.text[p + 1 + k];
    assert Embedded(x, e, p + 1);
    ArgumentEnds(x, scan, e, se, p + 1, 0, true, "");
    assert Law(x, scan, p, true);
    EndsLater(x, scan, p, true, "");
  }

  /** A name printed alone. */
  lemma ShortEntry(x: L.Source, scan: Scan, i: nat, e: (string, string), b: nat, ok: bool, key: NumberKey,
                   abc: Alphabet)
    requires Laws(x, scan) && Plain(e) && e.0 == e.1
    requires EntryStands(x.text, i, e, b) && b < x.end && (x.text[b] == ',' || x.text[b] == '}')
    ensures ReadsAs(x, ReadEntry(x, scan(i, ok).forest, key), e, Printable(e, key, abc), b,
                    scan(b + 1, x.text[b] == ',').forest)
  {
    var ok' := ScanName(x, scan, i, e.0, ok);
    ScanSingle(x, scan, b, ok');
    ReadAlone(x, scan(i, ok).forest, NameTok(i, e.0), SingleTok(b), scan(b + 1, x.text[b] == ',').forest, key);
  }

  /** Any entry. */
  lemma EntryReads(x: L.Source, scan: Scan, i: nat, e: (string, string), b: nat, ok: bool, key: NumberKey,
                   abc: Alphabet)
    requires Laws(x, scan) && x.letter == abc.letter && x.alnum == abc.alnum && Plain(e)
    requires EntryStands(x.text, i, e, b) && b < x.end && (x.text[b] == ',' || x.text[b] == '}')
    ensures ReadsAs(x, ReadEntry(x, scan(i, ok).forest, key), e, Printable(e, key, abc), b,
                    scan(b + 1, x.text[b] == ',').forest)
  {
    if e.0 == e.1 {
      ShortEntry(x, scan, i, e, b, ok, key, abc);
    } else {
      var se := ArgumentScan(e.1, abc);
      var t, colon, rest := LongEntryTokens(x, scan, i, e, b, ok, key, abc, se);
      LongEntry(x, scan(i, ok).forest, t, colon, rest, e, ArgumentBy(e.1, abc, se), b,
                scan(b + 1, x.text[b] == ',').forest, key);
    }
  }

  // ------------------------------------------------------------------ all properties

  /** What the reader makes of entries: the pairs and what is behind the closing brace, or something else. */
  ghost predicate ReadsAllAs(r: Option<(seq<(string, string)>, L.Forest)>, objs: seq<(string, string)>, good: bool,
                             after: L.Forest) {
    if good then r == Some((objs, after)) else r.Some? ==> r.value.0 != objs
  }

  /** What is read first is the first entry. */
  lemma FirstPair(x: L.Source, f: L.Forest, key: NumberKey)
    requires StartsEntry(x, f)
    ensures var r, q := ReadEntry(x, f, key), ReadEntries(x, f, key);
            q.Some? ==> r.Some? && q.value.0 != [] && q.value.0[0] == PairOf(x, r.value)
  {
  }

  /** The last entry. */
  lemma LastEntry(x: L.Source, f: L.Forest, e: (string, string), good: bool, b: nat, after: L.Forest, key: NumberKey)
    requires IsEntry(x, f, e, good, b, after, key) && Mark(x, SingleTok(b)) == '}'
    ensures ReadsAllAs(ReadEntries(x, f, key), [e], good, after)
  {
    FirstPair(x, f, key);
  }

  /** An entry with more behind it. */
  lemma FirstEntry(x: L.Source, f: L.Forest, e: (string, string), good: bool, b: nat, next: L.Forest,
                   objs: seq<(string, string)>, all: bool, after: L.Forest, key: NumberKey)
    requires IsEntry(x, f, e, good, b, next, key) && Mark(x, SingleTok(b)) == ','
    requires ReadsAllAs(ReadEntries(x, next, key), objs, all, after)
    ensures ReadsAllAs(ReadEntries(x, f, key), [e] + objs, good && all, after)
  {
    FirstPair(x, f, key);
    if good {
      assert forall q: seq<(string, string)> :: [e] + q == [e] + objs ==>
               q == ([e] + q)[1..] == ([e] + objs)[1..] == objs;
    }
  }

  /** An entry is read here as it should be, or as something else. */
  ghost predicate IsEntry(x: L.Source, f: L.Forest, e: (string, string), good: bool, b: nat, next: L.Forest,
                          key: NumberKey) {
    StartsEntry(x, f) && ReadsAs(x, ReadEntry(x, f, key), e, good, b, next)
  }

  predicate StartsEntry(x: L.Source, f: L.Forest) { f.Tree? && !f.tok.kind.Comment? && Mark(x, f.tok) != '}' }

  lemma EntryStarts(x: L.Source, scan: Scan, i: nat, e: (string, string), b: nat, ok: bool)
    requires Laws(x, scan) && Plain(e) && EntryStands(x.text, i, e, b) && b < x.end
             && (x.text[b] == ',' || x.text[b] == '}')
    ensures StartsEntry(x, scan(i, ok).forest)
  {
    var ok' := ScanName(x, scan, i, e.0, ok);
  }

  lemma EntryHere(x: L.Source, scan: Scan, i: nat, e: (string, string), b: nat, ok: bool, key: NumberKey, abc: Alphabet,
                  good: Judgement)
    requires Laws(x, scan) && x.letter == abc.letter && x.alnum == abc.alnum && Plain(e) && Judges(good, key, abc)
    requires EntryStands(x.text, i, e, b) && b < x.end && (x.text[b] == ',' || x.text[b] == '}')
    ensures IsEntry(x, scan(i, ok).forest, e, good(e), b, scan(b + 1, x.text[b] == ',').forest, key)
    ensures Mark(x, SingleTok(b)) == x.text[b]
  {
    EntryStarts(x, scan, i, e, b, ok);
    EntryReads(x, scan, i, e, b, ok, key, abc);
    SingleMark(x, b, ok);
    assert JudgesPair(good, key, abc, e);
  }

  type Judgement = ((string, string)) -> bool

  function PlainPairs(): Judgement {
    (e: (string, string)) => Plain(e)
  }

  ghost predicate PlainsPair(plain: Judgement, e: (string, string)) { plain(e) <==> Plain(e) }

  ghost predicate Plains(plain: Judgement) { forall e {:trigger PlainsPair(plain, e)} :: PlainsPair(plain, e) }

  /** A pair, plain as `plain` says, is printed from i to b, and a comma or brace follows. */
  predicate Printed(s: string, i: nat, e: (string, string), b: nat, plain: Judgement) {
    plain(e) && EntryStands(s, i, e, b) && b < |s| && (s[b] == ',' || s[b] == '}')
  }

  /** The entries are printed from i to the closing brace at `end`, with a comma and a blank between them. */
  predicate EntriesStand(s: string, i: nat, objs: seq<(string, string)>, end: nat, plain: Judgement)
    decreases |objs|
  {
    objs != [] && end < |s| &&
    var b := EntryEnd(i, objs[0]);
    && Printed(s, i, objs[0], b, plain)
    && if |objs| == 1 then b == end && s[end] == '}'
       else s[b] == ',' && b + 1 < end && s[b + 1] == ' ' && EntriesStand(s, b + 2, objs[1..], end, plain)
  }

  /** What is known of a forest where a pair is printed: the pair, whether it is the last one, and the forest behind
      it. */
  type Reading = (L.Forest, (string, string), bool, L.Forest) -> bool

  /** The pair is read here as it is or not, as `good` says, up to a comma or, if it is the last one, a brace. */
  ghost predicate Reads(x: L.Source, key: NumberKey, good: Judgement, f: L.Forest, e: (string, string), last: bool,
                        next: L.Forest) {
    exists b: nat :: IsEntry(x, f, e, good(e), b, next, key) && Mark(x, SingleTok(b)) == if last then '}' else ','
  }

  /** Wherever a pair is printed, it is read so. */
  ghost predicate EntryLaw(s: string, scan: Scan, plain: Judgement, reading: Reading, i: nat, e: (string, string),
                           ok: bool) {
    var b := EntryEnd(i, e);
    Printed(s, i, e, b, plain) ==>
      reading(scan(i, ok).forest, e, s[b] == '}', scan(b + 1, s[b] == ',').forest)
  }

  ghost predicate EntryLaws(s: string, scan: Scan, plain: Judgement, reading: Reading) {
    forall i, e, ok {:trigger EntryLaw(s, scan, plain, reading, i, e, ok)} ::
      EntryLaw(s, scan, plain, reading, i, e, ok)
  }

  /** `good` says of a pair whether it can be printed. */
  ghost predicate JudgesPair(good: Judgement, key: NumberKey, abc: Alphabet, e: (string, string)) {
    good(e) <==> Printable(e, key, abc)
  }

  ghost predicate Judges(good: Judgement, key: NumberKey, abc: Alphabet) {
    forall e {:trigger JudgesPair(good, key, abc, e)} :: JudgesPair(good, key, abc, e)
  }

  ghost function Judge(key: NumberKey, abc: Alphabet): Judgement {
    (e: (string, string)) => Printable(e, key, abc)
  }

  ghost function ReadingOf(x: L.Source, key: NumberKey, good: Judgement): Reading {
    (f: L.Forest, e: (string, string), last: bool, next: L.Forest) => Reads(x, key, good, f, e, last, next)
  }

  ghost predicate ReadingHolds(reading: Reading, x: L.Source, key: NumberKey, good: Judgement, f: L.Forest,
                               e: (string, string), last: bool, next: L.Forest)
  {
    reading(f, e, last, next) <==> Reads(x, key, good, f, e, last, next)
  }

  ghost predicate Readings(reading: Reading, x: L.Source, key: NumberKey, good: Judgement) {
    forall f, e, last, next {:trigger ReadingHolds(reading, x, key, good, f, e, last, next)} ::
      ReadingHolds(reading, x, key, good, f, e, last, next)
  }

  lemma EntriesObey(x: L.Source, scan: Scan, key: NumberKey, abc: Alphabet, good: Judgement, plain: Judgement,
                    reading: Reading)
    requires Laws(x, scan) && x.letter == abc.letter && x.alnum == abc.alnum && x.end == |x.text|
    requires Judges(good, key, abc) && Plains(plain) && Readings(reading, x, key, good)
    ensures EntryLaws(x.text, scan, plain, reading)
  {
    forall i: nat, e, ok ensures EntryLaw(x.text, scan, plain, reading, i, e, ok) {
      EntryObeys(x, scan, i, e, ok, key, abc, good, plain, reading);
    }
  }

  lemma EntryObeys(x: L.Source, scan: Scan, i: nat, e: (string, string), ok: bool, key: NumberKey, abc: Alphabet,
                   good: Judgement, plain: Judgement, reading: Reading)
    requires Laws(x, scan) && x.letter == abc.letter && x.alnum == abc.alnum && x.end == |x.text|
    requires Judges(good, key, abc) && Plains(plain) && Readings(reading, x, key, good)
    ensures EntryLaw(x.text, scan, plain, reading, i, e, ok)
  {
    var b := EntryEnd(i, e);
    if Printed(x.text, i, e, b, plain) {
      assert PlainsPair(plain, e);
      PlainIsRead(x, scan, i, e, b, ok, key, abc, good, reading);
    }
  }

  lemma PlainIsRead(x: L.Source, scan: Scan, i: nat, e: (string, string), b: nat, ok: bool, key: NumberKey,
                    abc: Alphabet, good: Judgement, reading: Reading)
    requires Laws(x, scan) && x.letter == abc.letter && x.alnum == abc.alnum && Plain(e)
    requires Judges(good, key, abc) && Readings(reading, x, key, good)
    requires EntryStands(x.text, i, e, b) && b < x.end && (x.text[b] == ',' || x.text[b] == '}')
    ensures reading(scan(i, ok).forest, e, x.text[b] == '}', scan(b + 1, x.text[b] == ',').forest)
  {
    EntryHere(x, scan, i, e, b, ok, key, abc, good);
    IsReading(x, key, good, reading, scan(i, ok).forest, e, b, x.text[b] == '}', scan(b + 1, x.text[b] == ',').forest);
  }

  lemma IsReading(x: L.Source, key: NumberKey, good: Judgement, reading: Reading, f: L.Forest, e: (string, string),
                  b: nat, last: bool, next: L.Forest)
    requires IsEntry(x, f, e, good(e), b, next, key) && Mark(x, SingleTok(b)) == (if last then '}' else ',')
    requires Readings(reading, x, key, good)
    ensures reading(f, e, last, next)
  {
    assert ReadingHolds(reading, x, key, good, f, e, last, next);
    assert Reads(x, key, good, f, e, last, next);
  }

  predicate AllGood(objs: seq<(string, string)>, good: Judgement) { forall k :: 0 <= k < |objs| ==> good(objs[k]) }

  /** The entries follow each other up to the closing brace. */
  ghost predicate Chain(f: L.Forest, objs: seq<(string, string)>, reading: Reading, after: L.Forest)
    decreases |objs|
  {
    objs != [] && if |objs| == 1 then reading(f, objs[0], true, after)
                  else exists next :: reading(f, objs[0], false, next) && Chain(next, objs[1..], reading, after)
  }

  lemma {:induction false} ChainRead(x: L.Source, f: L.Forest, objs: seq<(string, string)>, key: NumberKey,
                                     good: Judgement, reading: Reading, after: L.Forest)
    requires Chain(f, objs, reading, after)
    requires Readings(reading, x, key, good)
    ensures ReadsAllAs(ReadEntries(x, f, key), objs, AllGood(objs, good), after)
    decreases |objs|
  {
    var e, rest := objs[0], objs[1..];
    AllGoodCons(objs, good);
    if |objs| == 1 {
      assert ReadingHolds(reading, x, key, good, f, e, true, after);
      var b: nat :| IsEntry(x, f, e, good(e), b, after, key) && Mark(x, SingleTok(b)) == '}';
      LastEntry(x, f, e, good(e), b, after, key);
      assert objs == [e];
    } else {
      var next :| reading(f, e, false, next) && Chain(next, rest, reading, after);
      assert ReadingHolds(reading, x, key, good, f, e, false, next);
      var b: nat :| IsEntry(x, f, e, good(e), b, next, key) && Mark(x, SingleTok(b)) == ',';
      ChainRead(x, next, rest, key, good, reading, after);
      FirstEntry(x, f, e, good(e), b, next, rest, AllGood(rest, good), after, key);
      assert objs == [e] + rest;
    }
  }

  lemma AllGoodCons(objs: seq<(string, string)>, good: Judgement)
    requires objs != []
    ensures AllGood(objs, good) <==> good(objs[0]) && AllGood(objs[1..], good)
  {
    assert forall k :: 0 <= k < |objs[1..]| ==> objs[1..][k] == objs[k + 1];
    assert forall k :: 1 <= k < |objs| ==> objs[k] == objs[1..][k - 1];
  }

  lemma {:induction false} EntriesChain(x: L.Source, scan: Scan, i: nat, objs: seq<(string, string)>, end: nat,
                                        ok: bool, reading: Reading, plain: Judgement)
    requires Laws(x, scan) && x.end == |x.text| && EntryLaws(x.text, scan, plain, reading)
             && EntriesStand(x.text, i, objs, end, plain)
    ensures Chain(scan(i, ok).forest, objs, reading, scan(end + 1, false).forest)
    decreases |objs|
  {
    var b, after := EntryEnd(i, objs[0]), scan(end + 1, false).forest;
    FirstReads(x.text, scan, i, objs, end, ok, reading, plain);
    if |objs| > 1 {
      EntriesBehind(x.text, i, objs, end, plain);
      EntriesChain(x, scan, b + 2, objs[1..], end, true, reading, plain);
      ScanBlank(x, scan, b + 1);
      ChainCons(scan(i, ok).forest, objs, reading, scan(b + 1, true).forest, after);
    } else {
      LastEnd(x.text, i, objs, end, plain);
    }
  }

  lemma ScanBlank(x: L.Source, scan: Scan, i: nat)
    requires Laws(x, scan) && i < x.end && x.text[i] == ' '
    ensures scan(i, true) == scan(i + 1, true)
  {
    assert Law(x, scan, i, true);
  }

  lemma ChainCons(f: L.Forest, objs: seq<(string, string)>, reading: Reading, next: L.Forest, after: L.Forest)
    requires |objs| > 1 && reading(f, objs[0], false, next) && Chain(next, objs[1..], reading, after)
    ensures Chain(f, objs, reading, after)
  {
  }

  lemma EntriesBehind(s: string, i: nat, objs: seq<(string, string)>, end: nat, plain: Judgement)
    requires EntriesStand(s, i, objs, end, plain) && |objs| > 1
    ensures var b := EntryEnd(i, objs[0]);
            b + 1 < |s| && s[b + 1] == ' ' && EntriesStand(s, b + 2, objs[1..], end, plain)
  {
    EntriesEnd(s, EntryEnd(i, objs[0]) + 2, objs[1..], end, plain);
  }

  lemma LastEnd(s: string, i: nat, objs: seq<(string, string)>, end: nat, plain: Judgement)
    requires EntriesStand(s, i, objs, end, plain) && |objs| == 1
    ensures end == EntryEnd(i, objs[0])
  {
  }

  lemma FirstReads(s: string, scan: Scan, i: nat, objs: seq<(string, string)>, end: nat, ok: bool, reading: Reading,
                   plain: Judgement)
    requires EntryLaws(s, scan, plain, reading) && EntriesStand(s, i, objs, end, plain)
    ensures reading(scan(i, ok).forest, objs[0], |objs| == 1, scan(EntryEnd(i, objs[0]) + 1, |objs| > 1).forest)
  {
    assert EntryLaw(s, scan, plain, reading, i, objs[0], ok);
  }

  lemma EntriesEnd(s: string, i: nat, objs: seq<(string, string)>, end: nat, plain: Judgement)
    requires EntriesStand(s, i, objs, end, plain)
    ensures i <= end
  {
  }

  // ------------------------------------------------------------------ what is printed, in its place

  lemma EntryPrinted(s: string, i: nat, e: (string, string))
    requires StartsAt(s, i, EntryText(e))
    ensures EntryStands(s, i, e, EntryEnd(i, e)) && EntryEnd(i, e) == i + |EntryText(e)|
  {
    if e.0 != e.1 {
      PiecesAt(s, i, e.0, ": ", e.1);
      StartsAtChars(s, i + |e.0|, ": ");
      assert s[i + |e.0| + 0] == ':';
    }
  }

  /** The texts stand one after the other, from i to `end`, with a comma and a blank between them. */
  predicate TextsStand(s: string, i: nat, ts: seq<string>, end: nat)
    decreases |ts|
  {
    ts != [] && StartsAt(s, i, ts[0]) &&
    var b := i + |ts[0]|;
    if |ts| == 1 then b == end
    else b + 1 < |s| && s[b] == ',' && s[b + 1] == ' ' && TextsStand(s, b + 2, ts[1..], end)
  }

  lemma {:induction false} JoinedStands(s: string, i: nat, ts: seq<string>)
    requires ts != [] && StartsAt(s, i, JoinWith(ts, ", "))
    ensures TextsStand(s, i, ts, i + |JoinWith(ts, ", ")|)
    decreases |ts|
  {
    if |ts| > 1 {
      CommaAt(s, i, ts[0], JoinWith(ts[1..], ", "));
      JoinedStands(s, i + |ts[0]| + 2, ts[1..]);
    }
  }

  /** Wherever the text stands, the pair is printed. */
  ghost predicate PrintsAs(s: string, t: string, e: (string, string)) {
    forall j: nat {:trigger StartsAt(s, j, t)} :: StartsAt(s, j, t)
      ==> EntryStands(s, j, e, EntryEnd(j, e)) && EntryEnd(j, e) == j + |t|
  }

  lemma TextsPrint(s: string, objs: seq<(string, string)>)
    ensures forall k :: 0 <= k < |objs| ==> PrintsAs(s, EntryTexts(objs)[k], objs[k])
  {
    forall k, j: nat | 0 <= k < |objs| && StartsAt(s, j, EntryTexts(objs)[k])
      ensures EntryStands(s, j, objs[k], EntryEnd(j, objs[k])) && EntryEnd(j, objs[k]) == j + |EntryTexts(objs)[k]|
    {
      EntryPrinted(s, j, objs[k]);
    }
  }

  lemma {:induction false} EntriesPrinted(s: string, i: nat, objs: seq<(string, string)>, ts: seq<string>, end: nat,
                                          plain: Judgement)
    requires objs != [] && AllGood(objs, plain) && |ts| == |objs|
             && (forall k :: 0 <= k < |objs| ==> PrintsAs(s, ts[k], objs[k]))
    requires TextsStand(s, i, ts, end) && end < |s| && s[end] == '}'
    ensures EntriesStand(s, i, objs, end, plain)
    decreases |objs|
  {
    var b := EntryEnd(i, objs[0]);
    AllGoodCons(objs, plain);
    assert PrintsAs(s, ts[0], objs[0]);
    if |objs| > 1 {
      EntriesPrinted(s, b + 2, objs[1..], ts[1..], end, plain);
      EntriesEnd(s, b + 2, objs[1..], end, plain);
    }
    StandCons(s, i, objs, end, plain);
  }

  lemma StandCons(s: string, i: nat, objs: seq<(string, string)>, end: nat, plain: Judgement)
    requires objs != [] && end < |s| && s[end] == '}' && plain(objs[0])
    requires var b := EntryEnd(i, objs[0]);
             && EntryStands(s, i, objs[0], b)
             && if |objs| == 1 then b == end
                else b + 1 < end && s[b] == ',' && s[b + 1] == ' ' && EntriesStand(s, b + 2, objs[1..], end, plain)
    ensures EntriesStand(s, i, objs, end, plain)
  {
  }

  lemma CommaAt(s: string, i: nat, a: string, c: string)
    requires StartsAt(s, i, a + ", " + c)
    ensures StartsAt(s, i, a) && StartsAt(s, i + |a| + 2, c) && i + |a| + 2 + |c| == i + |a + ", " + c|
    ensures i + |a| + 1 < |s| && s[i + |a|] == ',' && s[i + |a| + 1] == ' '
  {
    PiecesAt(s, i, a, ", ", c);
    StartsAtChars(s, i + |a|, ", ");
    assert s[i + |a| + 0] == ',';
  }

  lemma PartAt(s: string, i: nat, t: string, a: nat, b: nat)
    requires StartsAt(s, i, t) && a <= b <= |t|
    ensures StartsAt(s, i + a, t[a..b])
  {
    var u, v := s[i + a..i + b], t[a..b];
    var w := s[i..i + |t|];
    forall k | 0 <= k < b - a ensures u[k] == v[k] { assert u[k] == w[a + k]; }
  }

  lemma PiecesAt(s: string, i: nat, a: string, b: string, c: string)
    requires StartsAt(s, i, a + b + c)
    ensures StartsAt(s, i, a) && StartsAt(s, i + |a|, b) && StartsAt(s, i + |a| + |b|, c)
  {
    var t := a + b + c;
    assert t[0..|a|] == a && t[|a|..|a| + |b|] == b && t[|a| + |b|..|t|] == c;
    PartAt(s, i, t, 0, |a|);
    PartAt(s, i, t, |a|, |a| + |b|);
    PartAt(s, i, t, |a| + |b|, |t|);
  }

  // ------------------------------------------------------------------ the whole call

  lemma EntriesLinked(x: L.Source, scan: Scan, i: nat, objs: seq<(string, string)>, ok: bool, reading: Reading,
                      plain: Judgement)
    requires Laws(x, scan) && x.end == |x.text| && objs != [] && AllGood(objs, plain)
             && EntryLaws(x.text, scan, plain, reading)
    requires StartsAt(x.text, i, EntriesText(objs)) && i + |EntriesText(objs)| < |x.text|
             && x.text[i + |EntriesText(objs)|] == '}'
    ensures Chain(scan(i, ok).forest, objs, reading, scan(i + |EntriesText(objs)| + 1, false).forest)
  {
    EntriesTextStands(x.text, i, objs, plain);
    EntriesChain(x, scan, i, objs, i + |EntriesText(objs)|, ok, reading, plain);
  }

  lemma EntriesTextStands(s: string, i: nat, objs: seq<(string, string)>, plain: Judgement)
    requires objs != [] && AllGood(objs, plain)
    requires StartsAt(s, i, EntriesText(objs)) && i + |EntriesText(objs)| < |s| && s[i + |EntriesText(objs)|] == '}'
    ensures EntriesStand(s, i, objs, i + |EntriesText(objs)|, plain)
  {
    JoinedStands(s, i, EntryTexts(objs));
    TextsPrint(s, objs);
    EntriesPrinted(s, i, objs, EntryTexts(objs), i + |EntriesText(objs)|, plain);
  }

  /** The end of the call. */
  ghost predicate Closes(x: L.Source, f: L.Forest) {
    f.Tree? && !f.tok.kind.Comment? && Mark(x, f.tok) == ')' && f.rest.Done?
  }

  /** A comma and an opening brace. */
  ghost predicate OpensObject(x: L.Source, f: L.Forest, body: L.Forest) {
    && f.Tree? && !f.tok.kind.Comment? && Mark(x, f.tok) == ','
    && f.rest.Tree? && !f.rest.tok.kind.Comment? && Mark(x, f.rest.tok) == '{' && f.rest.rest == body
  }

  /** The name, the bracket and the message. */
  ghost predicate HeadTokens(x: L.Source, f: L.Forest, fn: string, msgid: string, rest: L.Forest) {
    && f.Tree? && f.rest.Tree? && f.rest.rest.Tree? && f.rest.rest.rest == rest
    && f.tok.kind.Ident? && L.Value(x, f.tok) == fn && !f.rest.tok.kind.Comment? && Mark(x, f.rest.tok) == '('
    && var m := f.rest.rest.tok;
       m.kind.Str? && m.end >= m.start + 2 && JsUnescape(L.Slice(x.text, m.start + 1, m.end - 1)) == Decoded(msgid)
  }

  lemma HeadIsRead(x: L.Source, f: L.Forest, fn: string, msgid: string, rest: L.Forest)
    requires HeadTokens(x, f, fn, msgid, rest)
    ensures ReadHead(x, f, fn) == Some((msgid, rest))
  {
  }

  /** The tokens of the call: its head, and its end or the object and the end. */
  ghost predicate CallTokens(x: L.Source, f: L.Forest, fn: string, call: HrtCall, reading: Reading) {
    exists rest :: HeadTokens(x, f, fn, call.msgid, rest) &&
      if call.objs == [] then Closes(x, rest) else HasObject(x, rest, call.objs, reading)
  }

  ghost predicate HasObject(x: L.Source, f: L.Forest, objs: seq<(string, string)>, reading: Reading) {
    exists body, after :: OpensObject(x, f, body) && Chain(body, objs, reading, after) && Closes(x, after)
  }

  /** Tokens like these are read as the call they were printed from if and only if all its pairs can be printed. */
  lemma CallIsRead(x: L.Source, f: L.Forest, fn: string, call: HrtCall, key: NumberKey, good: Judgement,
                   reading: Reading)
    requires CallTokens(x, f, fn, call, reading) && Readings(reading, x, key, good)
    ensures ReadCallFrom(x, f, fn, key) == Some(call) <==> AllGood(call.objs, good)
  {
    var rest :| HeadTokens(x, f, fn, call.msgid, rest) &&
      if call.objs == [] then Closes(x, rest) else HasObject(x, rest, call.objs, reading);
    HeadIsRead(x, f, fn, call.msgid, rest);
    if call.objs == [] {
      CloseIsRead(x, f, fn, call, rest, key);
    } else {
      var body, after :| OpensObject(x, rest, body) && Chain(body, call.objs, reading, after) && Closes(x, after);
      ChainRead(x, body, call.objs, key, good, reading, after);
      ObjectIsRead(x, rest, call, body, after, AllGood(call.objs, good), key);
    }
  }

  lemma CloseIsRead(x: L.Source, f: L.Forest, fn: string, call: HrtCall, rest: L.Forest, key: NumberKey)
    requires ReadHead(x, f, fn) == Some((call.msgid, rest)) && call.objs == [] && Closes(x, rest)
    ensures ReadCallFrom(x, f, fn, key) == Some(call)
  {
  }

  lemma ObjectIsRead(x: L.Source, rest: L.Forest, call: HrtCall, body: L.Forest, after: L.Forest, good: bool,
                     key: NumberKey)
    requires call.objs != [] && OpensObject(x, rest, body) && Closes(x, after)
    requires ReadsAllAs(ReadEntries(x, body, key), call.objs, good, after)
    ensures ReadArguments(x, rest, call.msgid, key) == Some(call) <==> good
  {
    var r := ReadEntries(x, body, key);
    assert ReadArguments(x, rest, call.msgid, key)
        == if r.None? || !IsEnd(x, SkipComments(r.value.1)) then None else Some(HrtCall(call.msgid, r.value.0));
  }

  // ------------------------------------------------------------------ the text of the call has those tokens

  /** The name, the bracket and the quoted message stand at the start. */
  predicate HeadAt(x: L.Source, fn: string, quoted: string) {
    && |fn| + 1 + |quoted| < x.end <= |x.text|
    && StartsAt(x.text, 0, fn) && x.text[|fn|] == '(' && StartsAt(x.text, |fn| + 1, quoted)
  }

  lemma HeadStands(x: L.Source, fn: string, quoted: string)
    requires StartsAt(x.text, 0, fn + "(" + quoted) && |fn| + 1 + |quoted| < x.end <= |x.text|
    ensures HeadAt(x, fn, quoted)
  {
    PiecesAt(x.text, 0, fn, "(", quoted);
    StartsAtChars(x.text, |fn|, "(");
    assert x.text[|fn| + 0] == '(';
  }

  lemma HeadScanned(x: L.Source, scan: Scan, fn: string, msgid: string, quoted: string)
    requires Laws(x, scan) && IsIdentifier(fn) && quoted == JsQuote(msgid) && HeadAt(x, fn, quoted)
    ensures HeadTokens(x, scan(0, true).forest, fn, msgid, scan(|fn| + 1 + |quoted|, false).forest)
  {
    var i := |fn| + 1;
    var ok := ScanName(x, scan, 0, fn, true);
    ScanSingle(x, scan, |fn|, ok);
    ScanQuote(x, scan, i, msgid, quoted, true);
    assert |quoted| >= 2 && JsUnescape(L.Slice(x.text, i + 1, i + |quoted| - 1)) == Decoded(msgid) by {
      QuoteMeaning(x, i, msgid, quoted);
    }
  }

  /** A quoted text is one token. */
  lemma ScanQuote(x: L.Source, scan: Scan, i: nat, s: string, quoted: string, ok: bool)
    requires Laws(x, scan) && quoted == JsQuote(s) && StartsAt(x.text, i, quoted) && i + |quoted| < x.end
    ensures scan(i, ok).forest == L.Tree(L.Tok(L.Str, i, i + |quoted|, [], 0), L.NoHoles,
                                         scan(i + |quoted|, false).forest)
  {
    var t := L.Tok(L.Str, i, i + |quoted|, [], 0);
    assert L.LeafAt(x, i, ok) == L.Leaf(L.Str, i + |quoted|, true) by { P.QuotedIsOneToken(x, i, s, ok); }
    assert x.text[i] == '\'' by { StartsAtChars(x.text, i, quoted); assert x.text[i + 0] == quoted[0]; }
    assert !L.RegexOk(x, ok, [t]) by { LastOfOne(t); }
    assert Law(x, scan, i, ok);
  }

  lemma QuoteMeaning(x: L.Source, i: nat, s: string, quoted: string)
    requires L.InText(x) && quoted == JsQuote(s) && StartsAt(x.text, i, quoted) && i + |quoted| <= x.end
    ensures |quoted| >= 2 && JsUnescape(L.Slice(x.text, i + 1, i + |quoted| - 1)) == Decoded(s)
  {
    var w := L.Slice(x.text, i + 1, i + |quoted| - 1);
    assert w == JsBody(s) by { P.QuotedIsOneToken(x, i, s, true); }
    assert JsUnescape(w) == Decoded(s) by { UnescapeQuoted(s); }
  }

  lemma CallScanned(x: L.Source, scan: Scan, fn: string, call: HrtCall, reading: Reading, plain: Judgement)
    requires Laws(x, scan) && IsIdentifier(fn) && x.text == CallText(fn, call) && x.end == |x.text|
    requires AllGood(call.objs, plain) && EntryLaws(x.text, scan, plain, reading)
    ensures CallTokens(x, scan(0, true).forest, fn, call, reading)
  {
    var quoted := JsQuote(call.msgid);
    if call.objs == [] {
      PlainCallScanned(x, scan, fn, call, quoted, reading);
    } else {
      ObjectCallScanned(x, scan, fn, call, quoted, EntriesText(call.objs), reading, plain);
    }
  }

  lemma ObjectCallScanned(x: L.Source, scan: Scan, fn: string, call: HrtCall, quoted: string, t: string,
                          reading: Reading, plain: Judgement)
    requires Laws(x, scan) && IsIdentifier(fn) && x.end == |x.text| && call.objs != [] && AllGood(call.objs, plain)
    requires EntryLaws(x.text, scan, plain, reading) && quoted == JsQuote(call.msgid) && t == EntriesText(call.objs)
    requires x.text == fn + "(" + quoted + ", {" + t + "})"
    ensures CallTokens(x, scan(0, true).forest, fn, call, reading)
  {
    var i, f := |fn| + 1 + |quoted|, scan(0, true).forest;
    var rest := scan(i, false).forest;
    CallPieces(x.text, fn + "(" + quoted, t);
    HeadStands(x, fn, quoted);
    assert HeadTokens(x, f, fn, call.msgid, rest) by { HeadScanned(x, scan, fn, call.msgid, quoted); }
    assert HasObject(x, rest, call.objs, reading) by { ObjectScanned(x, scan, i, call.objs, t, reading, plain); }
  }

  lemma PlainCallScanned(x: L.Source, scan: Scan, fn: string, call: HrtCall, quoted: string, reading: Reading)
    requires Laws(x, scan) && IsIdentifier(fn) && x.end == |x.text| && call.objs == []
    requires quoted == JsQuote(call.msgid) && x.text == fn + "(" + quoted + ")"
    ensures CallTokens(x, scan(0, true).forest, fn, call, reading)
  {
    var i := |fn| + 1 + |quoted|;
    assert x.text[0..i] == fn + "(" + quoted && x.text[i] == ')';
    HeadStands(x, fn, quoted);
    HeadScanned(x, scan, fn, call.msgid, quoted);
    ScanSingle(x, scan, i, false);
    assert Law(x, scan, i + 1, false);
    assert Closes(x, scan(i, false).forest);
  }

  lemma CallPieces(s: string, q: string, t: string)
    requires s == q + ", {" + t + "})"
    ensures StartsAt(s, 0, q) && s[|q|] == ',' && s[|q| + 1] == ' ' && s[|q| + 2] == '{' && StartsAt(s, |q| + 3, t)
    ensures var end := |q| + 3 + |t|; s[end] == '}' && s[end + 1] == ')' && |s| == end + 2
  {
    assert s[0..|q|] == q && s[|q| + 3..|q| + 3 + |t|] == t;
  }

  lemma ObjectScanned(x: L.Source, scan: Scan, i: nat, objs: seq<(string, string)>, t: string, reading: Reading,
                      plain: Judgement)
    requires Laws(x, scan) && x.end == |x.text| && objs != [] && AllGood(objs, plain)
             && EntryLaws(x.text, scan, plain, reading)
    requires var end := i + 3 + |t|;
             && t == EntriesText(objs) && |x.text| == end + 2 && x.text[i] == ',' && x.text[i + 1] == ' '
             && x.text[i + 2] == '{'
             && StartsAt(x.text, i + 3, t) && x.text[end] == '}' && x.text[end + 1] == ')'
    ensures HasObject(x, scan(i, false).forest, objs, reading)
  {
    var end := i + 3 + |t|;
    ScanSingle(x, scan, i, false);
    assert Law(x, scan, i + 1, true);
    ScanSingle(x, scan, i + 2, true);
    assert OpensObject(x, scan(i, false).forest, scan(i + 3, true).forest);
    EntriesLinked(x, scan, i + 3, objs, true, reading, plain);
    ScanSingle(x, scan, end + 1, false);
    assert Law(x, scan, end + 2, false);
    assert Closes(x, scan(end + 1, false).forest);
  }

  /** Read back, the text of a call is the call itself if and only if every pair can be printed. */
  lemma ReadsBackIff(fn: string, call: HrtCall, key: NumberKey, abc: Alphabet)
    requires IsIdentifier(fn) && forall k :: 0 <= k < |call.objs| ==> Plain(call.objs[k])
    ensures ReadCall(CallText(fn, call), fn, key, abc) == Some(call) <==> AllPrintable(call.objs, key, abc)
  {
    var x, good := SourceOf(CallText(fn, call), abc), Judge(key, abc);
    var scan, reading := ScanOf(x), ReadingOf(x, key, good);
    LexLaws(x);
    assert Judges(good, key, abc) && Plains(PlainPairs()) && Readings(reading, x, key, good);
    EntriesObey(x, scan, key, abc, good, PlainPairs(), reading);
    CallScanned(x, scan, fn, call, reading, PlainPairs());
    CallIsRead(x, scan(0, true).forest, fn, call, key, good, reading);
    assert AllGood(call.objs, good) <==> AllPrintable(call.objs, key, abc);
  }
}

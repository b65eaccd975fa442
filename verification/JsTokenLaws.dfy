/** What the tokens of `_js_tok` (tools/i18n_inventory.py) are, said of the list of tokens and the text alone: when a
    slash divides and when it starts a regular expression, and how far every token reaches. */
module JsTokenLaws {
  import opened Text
  import opened Identifiers
  import opened JsLexer

  // ------------------------------------------------------------------ slashes

  /** A slash that opens no comment. */
  predicate IsSlash(x: Source, i: nat)
    requires InText(x)
  {
    i < x.end && x.text[i] == '/' && (i + 1 < x.end ==> x.text[i + 1] != '/' && x.text[i + 1] != '*')
  }

  /** Token j is the last one that is no comment. */
  predicate LastAt(toks: seq<Tok>, j: nat) {
    j < |toks| && !toks[j].kind.Comment? && forall k :: j < k < |toks| ==> toks[k].kind.Comment?
  }

  predicate OnlyComments(toks: seq<Tok>) { forall k :: 0 <= k < |toks| ==> toks[k].kind.Comment? }

  /** Behind this token an operand may follow: it is punctuation other than a closing bracket, or one of the words that
      stand in front of an operand. */
  predicate ExpectsOperand(x: Source, p: Tok) {
    match p.kind
    case Punct => Value(x, p) != ")" && Value(x, p) != "]" && Value(x, p) != "}"
    case Ident =>
      Value(x, p) in ["return", "typeof", "instanceof", "in", "of", "new", "delete", "void", "throw", "case", "do",
                      "else", "yield", "await"]
    case _ => false
  }

  /** A slash is read as a regular expression at the start and where an operand may follow, and as punctuation
      elsewhere. */
  ghost predicate SlashRead(x: Source, before: seq<Tok>, t: Tok)
    requires InText(x)
  {
    IsSlash(x, t.start) ==>
      && (OnlyComments(before) ==> t.kind.Regex?)
      && forall j: nat :: LastAt(before, j) ==> t.kind == if ExpectsOperand(x, before[j]) then Regex else Punct
  }

  lemma {:induction false} LastSigIs(toks: seq<Tok>)
    ensures LastSig(toks).None? ==> OnlyComments(toks)
    ensures forall j: nat :: LastAt(toks, j) ==> LastSig(toks) == Some(toks[j])
  {
    if toks != [] {
      var n := |toks| - 1;
      LastSigIs(toks[..n]);
      forall j: nat | LastAt(toks, j) ensures LastSig(toks) == Some(toks[j]) {
        if j < n { assert LastAt(toks[..n], j); }
      }
    }
  }

  lemma SlashIsRead(x: Source, before: seq<Tok>, i: nat, depth: nat)
    requires InText(x) && i < x.end
    ensures var s := LeafAt(x, i, RegexOk(x, true, before)); SlashRead(x, before, Tok(s.kind, i, s.end, [], depth))
  {
    LastSigIs(before);
    if OnlyComments(before) && LastSig(before).Some? { OnlyCommentsLast(before); }
  }

  lemma {:induction false} LastSigAppend(a: seq<Tok>, b: seq<Tok>)
    ensures LastSig(a + b) == if LastSig(b).None? then LastSig(a) else LastSig(b)
  {
    if b == [] {
      assert a + b == a;
    } else {
      var n := |b| - 1;
      assert (a + b)[|a + b| - 1] == b[n] && (a + b)[..|a + b| - 1] == a + b[..n];
      LastSigAppend(a, b[..n]);
    }
  }

  lemma RegexOkAppend(x: Source, before: bool, a: seq<Tok>, b: seq<Tok>)
    ensures RegexOk(x, before, a + b) == RegexOk(x, RegexOk(x, before, a), b)
  {
    LastSigAppend(a, b);
  }

  lemma {:induction false} OnlyCommentsLast(toks: seq<Tok>)
    requires OnlyComments(toks)
    ensures LastSig(toks).None?
  {
    if toks != [] { OnlyCommentsLast(toks[..|toks| - 1]); }
  }

  // ------------------------------------------------------------------ how far a token reaches

  /** White space and line ends (sections 12.2 and 12.3 of ECMA-262) up to U+00FF, and U+FEFF. */
  predicate WhiteSpace(c: char) {
    || c == '\t' || c == '\n' || c == '\U{b}' || c == '\U{c}' || c == '\r'
    || c == ' ' || c == '\U{a0}' || c == '\U{feff}'
  }

  /** The characters of names: ASCII letters and digits, `_`, `$`, U+0001 and everything beyond ASCII. */
  predicate NameChar(c: char) {
    'a' <= c <= 'z' || 'A' <= c <= 'Z' || '0' <= c <= '9' || c == '_' || c == '$' || c == '\U{1}' || c > '\U{7f}'
  }

  predicate Digit(c: char) { '0' <= c <= '9' }

  /** The characters of numbers: of ASCII, letters, digits, the point and `_`. */
  predicate NumberChar(x: Source, c: char) {
    'a' <= c <= 'z' || 'A' <= c <= 'Z' || '0' <= c <= '9' || c == '.' || c == '_' || (c > '\U{7f}' && x.alnum(c))
  }

  predicate Letter(x: Source, c: char) { 'a' <= c <= 'z' || 'A' <= c <= 'Z' || (c > '\U{7f}' && x.letter(c)) }

  function NumberCharsOf(x: Source): char -> bool { c => NumberChar(x, c) }

  function LettersOf(x: Source): char -> bool { c => Letter(x, c) }

  predicate InLine(c: char) { c != '\n' }

  predicate Fits(x: Source, k: nat, p: char -> bool)
    requires InText(x) && k < x.end
  {
    p(x.text[k])
  }

  /** The stretch from a to e is the longest one of these characters. */
  ghost predicate LongestRun(x: Source, a: nat, e: nat, p: char -> bool)
    requires InText(x)
  {
    && a <= e && (a < e ==> e <= x.end) && (forall k: nat :: a <= k < e ==> Fits(x, k, p))
    && (e < x.end ==> !Fits(x, e, p))
  }

  /** Punctuators of three and of two characters (section 12.8 of ECMA-262; the one of four, `>>>=`, is read as two). */
  const LONG3 := ["===", "!==", "**=", "...", "<<=", ">>=", ">>>", "&&=", "||=", "??="]

  const LONG2 := ["==", "!=", "<=", ">=", "&&", "||", "??", "?.", "=>", "++", "--", "+=", "-=", "*=", "/=", "%=", "&=",
                  "|=", "^=", "<<", ">>", "**"]

  predicate OneStands(x: Source, i: nat, ps: seq<string>) { exists p | p in ps :: StartsAt(x.text, i, p) }

  /** From a to e escapes and other characters follow each other, none of them the quote q or a line end. */
  ghost predicate StringBody(x: Source, a: nat, e: nat, q: char)
    requires InText(x)
    decreases e - a
  {
    a == e || (a < e && a < x.end
    && if x.text[a] == '\\' then StringBody(x, a + 2, e, q)
      else x.text[a] != q && x.text[a] != '\n' && StringBody(x, a + 1, e, q))
  }

  /** The same for the body of a regular expression; within brackets a slash does not end it. */
  ghost predicate RegexBody(x: Source, a: nat, e: nat, bracket: bool)
    requires InText(x)
    decreases e - a
  {
    (a == e && !(bracket && e < x.end && x.text[e] == '/')) || (a < e && a < x.end
    && if x.text[a] == '\\' then RegexBody(x, a + 2, e, bracket)
       else x.text[a] != '\n' && (x.text[a] == '/' ==> bracket)
            && RegexBody(x, a + 1, e, x.text[a] == '[' || (bracket && x.text[a] != ']')))
  }

  /** From a on the text p is found first right before e. */
  ghost predicate FirstBefore(x: Source, p: string, a: nat, e: nat) {
    a <= e - |p| && StartsAt(x.text, e - |p|, p) && forall k :: a <= k < e - |p| ==> !StartsAt(x.text, k, p)
  }

  /** The body of a regular expression from i stops at m, at a slash, a line end or the end; the letters behind that
      belong to it. */
  ghost predicate RegexTo(x: Source, i: nat, m: nat, e: nat)
    requires InText(x)
  {
    && RegexBody(x, i + 1, m, false) && (m < x.end ==> x.text[m] == '/' || x.text[m] == '\n')
    && LongestRun(x, m + 1, e, LettersOf(x))
  }

  /** Between a and e the text p does not stand. */
  ghost predicate NotBefore(x: Source, p: string, a: nat, e: nat) {
    forall k :: a <= k <= e - |p| ==> !StartsAt(x.text, k, p)
  }

  /** How far a token reaches, by its first characters. */
  ghost predicate Reach(x: Source, t: Tok)
    requires InText(x) && t.start < x.end
  {
    var i, e, c := t.start, t.end, x.text[t.start];
    match t.kind
    case Comment =>
      && c == '/' && i + 1 < x.end
      && (x.text[i + 1] == '/' ==> LongestRun(x, i, e, InLine))
      && (x.text[i + 1] != '/' ==>
            x.text[i + 1] == '*' && e <= x.end
            && (FirstBefore(x, "*/", i + 2, e) || (e == x.end && NotBefore(x, "*/", i + 2, e))))
    case Str => (c == '\'' || c == '"') && exists m: nat ::
      i < m && StringBody(x, i + 1, m, c) && e == Min(m + 1, x.end)
        && (m < x.end ==> x.text[m] == c || x.text[m] == '\n')
    case Regex => IsSlash(x, i) && exists m: nat :: i < m && RegexTo(x, i, m, e)
    case Ident => NameChar(c) && !Digit(c) && LongestRun(x, i, e, NameChar)
    case Num => Digit(c) && LongestRun(x, i, e, NumberCharsOf(x))
    case Punct =>
      && c != '\'' && c != '"' && !NameChar(c) && i < e
      && (OneStands(x, i, LONG3) ==> e == i + 3)
      && (!OneStands(x, i, LONG3) && OneStands(x, i, LONG2) ==> e == i + 2)
      && (!OneStands(x, i, LONG3) && !OneStands(x, i, LONG2) ==> e == i + 1)
    case Tpl => c == '`'
  }

  lemma {:induction false} RunIsLongest(x: Source, a: nat, j: nat, p: char -> bool)
    requires InText(x) && a <= j && (a < j ==> j <= x.end) && forall k: nat :: a <= k < j ==> Fits(x, k, p)
    ensures LongestRun(x, a, RunEnd(x, j, p), p)
    decreases x.end - j
  {
    if j < x.end && p(x.text[j]) {
      assert Fits(x, j, p);
      RunIsLongest(x, a, j + 1, p);
    }
  }

  lemma SameRun(x: Source, a: nat, e: nat, p: char -> bool, q: char -> bool)
    requires InText(x) && LongestRun(x, a, e, p) && forall k: nat :: a <= k < x.end ==> Fits(x, k, p) == Fits(x, k, q)
    ensures LongestRun(x, a, e, q)
  {
  }

  lemma {:induction false} StopIsQuoted(x: Source, j: nat, q: char)
    requires InText(x) && q != '\\'
    ensures var m := StringStop(x, j, q); StringBody(x, j, m, q) && (m < x.end ==> x.text[m] == q || x.text[m] == '\n')
    decreases x.end - j
  {
    if j >= x.end || x.text[j] == q || x.text[j] == '\n' {
    } else if x.text[j] == '\\' {
      StopIsQuoted(x, j + 2, q);
    } else {
      StopIsQuoted(x, j + 1, q);
    }
  }

  lemma {:induction false} StopIsBody(x: Source, j: nat, bracket: bool)
    requires InText(x)
    ensures var m := RegexStop(x, j, bracket);
            RegexBody(x, j, m, bracket) && (m < x.end ==> x.text[m] == '/' || x.text[m] == '\n')
    decreases x.end - j
  {
    if j >= x.end || x.text[j] == '\n' {
    } else if x.text[j] == '\\' {
      StopIsBody(x, j + 2, bracket);
    } else if x.text[j] == '/' && !bracket {
    } else {
      StopIsBody(x, j + 1, if x.text[j] == '[' then true else if x.text[j] == ']' then false else bracket);
    }
  }

  lemma LineCommentReaches(x: Source, i: nat)
    requires InText(x) && i + 1 < x.end && x.text[i] == '/' && x.text[i + 1] == '/'
    ensures LongestRun(x, i, LineComment(x, i).end, InLine)
  {
    var e := LineComment(x, i).end;
    forall k | i <= k < e ensures x.text[k] != '\n' {
      if x.text[k] == '\n' { assert x.text[k..k + 1] == "\n" && StartsAt(x.text, k, "\n"); }
    }
    if e < x.end { assert StartsAt(x.text, e, "\n") && x.text[e..e + 1][0] == x.text[e]; }
  }

  lemma BlockCommentReaches(x: Source, i: nat, depth: nat)
    requires InText(x) && i + 1 < x.end && x.text[i] == '/' && x.text[i + 1] == '*'
    ensures Reach(x, Tok(Comment, i, BlockComment(x, i).end, [], depth))
  {
  }

  lemma StringReaches(x: Source, i: nat, depth: nat)
    requires InText(x) && i < x.end && (x.text[i] == '\'' || x.text[i] == '"')
    ensures Reach(x, Tok(Str, i, QuotedString(x, i).end, [], depth))
  {
    StopIsQuoted(x, i + 1, x.text[i]);
  }

  lemma RegexReaches(x: Source, i: nat, depth: nat)
    requires InText(x) && IsSlash(x, i)
    ensures Reach(x, Tok(Regex, i, RegexLiteral(x, i).end, [], depth))
  {
    var m := RegexStop(x, i + 1, false);
    StopIsBody(x, i + 1, false);
    RunIsLongest(x, m + 1, m + 1, Letters(x));
    SameRun(x, m + 1, RunEnd(x, m + 1, Letters(x)), Letters(x), LettersOf(x));
    assert RegexTo(x, i, m, RegexLiteral(x, i).end);
  }

  lemma WordReaches(x: Source, i: nat, depth: nat)
    requires InText(x) && i < x.end
    ensures StartsName(x.text[i]) ==> Reach(x, Tok(Ident, i, RunEnd(x, i + 1, ContinuesName), [], depth))
    ensures IsDigit(x.text[i]) ==> Reach(x, Tok(Num, i, RunEnd(x, i + 1, NumberChars(x)), [], depth))
  {
    if StartsName(x.text[i]) {
      RunIsLongest(x, i, i + 1, ContinuesName);
      SameRun(x, i, RunEnd(x, i + 1, ContinuesName), ContinuesName, NameChar);
    }
    if IsDigit(x.text[i]) {
      RunIsLongest(x, i, i + 1, NumberChars(x));
      SameRun(x, i, RunEnd(x, i + 1, NumberChars(x)), NumberChars(x), NumberCharsOf(x));
    }
  }

  lemma OneStandsIff(x: Source, i: nat, ps: seq<string>)
    ensures OneStands(x, i, ps) <==> StartsWithAny(x.text, i, ps)
  {
    if p :| p in ps && StartsAt(x.text, i, p) {
      var k :| 0 <= k < |ps| && ps[k] == p;
      assert StartsAt(x.text, i, ps[k]);
    }
  }

  lemma PunctReaches(x: Source, i: nat, depth: nat)
    requires InText(x) && i < x.end && !ContinuesName(x.text[i]) && x.text[i] !in "'\"`"
    ensures Reach(x, Tok(Punct, i, i + PunctLength(x.text, i), [], depth))
  {
    assert LONG3 == PUNCT3 && LONG2 == PUNCT2;
    OneStandsIff(x, i, LONG3);
    OneStandsIff(x, i, LONG2);
  }

  lemma LeafReaches(x: Source, i: nat, ok: bool, depth: nat)
    requires InText(x) && i < x.end && x.text[i] != '`'
    ensures var s := LeafAt(x, i, ok); Reach(x, Tok(s.kind, i, s.end, [], depth))
  {
    var c, s := x.text[i], LeafAt(x, i, ok);
    var next := if i + 1 < x.end then x.text[i + 1] else ' ';
    if c == '/' && next == '/' {
      LineCommentReaches(x, i);
    } else if c == '/' && next == '*' {
      BlockCommentReaches(x, i, depth);
    } else if c == '\'' || c == '"' {
      StringReaches(x, i, depth);
    } else if c == '/' && ok {
      RegexReaches(x, i, depth);
    } else if StartsName(c) || IsDigit(c) {
      WordReaches(x, i, depth);
    } else {
      PunctReaches(x, i, depth);
    }
  }

  // ------------------------------------------------------------------ which tokens are closed

  /** The token has its own end in the text: a line comment has it anywhere, a block comment, a string and a regular
      expression need their mark, and all others must lie in front of the end of the text. */
  ghost predicate Closes(x: Source, t: Tok)
    requires InText(x) && t.start < x.end
  {
    var i, e, c := t.start, t.end, x.text[t.start];
    match t.kind
    case Comment => i + 1 < x.end && (x.text[i + 1] == '/' || FirstBefore(x, "*/", i + 2, e))
    case Str => i + 2 <= e <= x.end && x.text[e - 1] == c && StringBody(x, i + 1, e - 1, c)
    case Regex =>
      exists m: nat :: i < m < x.end && x.text[m] == '/' && RegexBody(x, i + 1, m, false)
                       && LongestRun(x, m + 1, e, LettersOf(x))
    case _ => e <= x.end
  }

  lemma {:induction false} BodyStops(x: Source, a: nat, m: nat, q: char)
    requires InText(x) && q != '\\' && m < x.end && StringBody(x, a, m, q) && x.text[m] == q
    ensures StringStop(x, a, q) == m
    decreases m - a
  {
    if a != m { BodyStops(x, if x.text[a] == '\\' then a + 2 else a + 1, m, q); }
  }

  lemma {:induction false} RegexStops(x: Source, a: nat, m: nat, bracket: bool)
    requires InText(x) && m < x.end && RegexBody(x, a, m, bracket) && x.text[m] == '/'
    ensures RegexStop(x, a, bracket) == m
    decreases m - a
  {
    if a != m {
      var c := x.text[a];
      if c == '\\' {
        RegexStops(x, a + 2, m, bracket);
      } else {
        RegexStops(x, a + 1, m, c == '[' || (bracket && c != ']'));
      }
    }
  }

  lemma {:induction false} RunsAreEqual(x: Source, j: nat, e: nat, p: char -> bool)
    requires InText(x) && LongestRun(x, j, e, p)
    ensures RunEnd(x, j, p) == e
    decreases e - j
  {
    if j < e {
      assert Fits(x, j, p);
      RunsAreEqual(x, j + 1, e, p);
    }
  }

  lemma StringClosedIff(x: Source, i: nat, depth: nat)
    requires InText(x) && i < x.end && (x.text[i] == '\'' || x.text[i] == '"')
    ensures var s := QuotedString(x, i); s.closed <==> Closes(x, Tok(Str, i, s.end, [], depth))
  {
    var s, c := QuotedString(x, i), x.text[i];
    StopIsQuoted(x, i + 1, c);
    if Closes(x, Tok(Str, i, s.end, [], depth)) { BodyStops(x, i + 1, s.end - 1, c); }
  }

  lemma RegexClosedIff(x: Source, i: nat, depth: nat)
    requires InText(x) && IsSlash(x, i)
    ensures var s := RegexLiteral(x, i); s.closed <==> Closes(x, Tok(Regex, i, s.end, [], depth))
  {
    var s, t := RegexLiteral(x, i), Tok(Regex, i, RegexLiteral(x, i).end, [], depth);
    var stop := RegexStop(x, i + 1, false);
    if s.closed {
      StopIsBody(x, i + 1, false);
      RunIsLongest(x, stop + 1, stop + 1, Letters(x));
      SameRun(x, stop + 1, s.end, Letters(x), LettersOf(x));
    }
    if Closes(x, t) {
      var m: nat :| i < m < x.end && x.text[m] == '/' && RegexBody(x, i + 1, m, false)
                    && LongestRun(x, m + 1, s.end, LettersOf(x));
      RegexStops(x, i + 1, m, false);
    }
  }

  lemma CommentClosedIff(x: Source, i: nat, depth: nat)
    requires InText(x) && i + 1 < x.end && x.text[i] == '/' && (x.text[i + 1] == '/' || x.text[i + 1] == '*')
    ensures var s := LeafAt(x, i, true); s.closed <==> Closes(x, Tok(Comment, i, s.end, [], depth))
  {
  }

  /** A token counts as closed exactly when it has its own end in the text. */
  lemma LeafClosedIff(x: Source, i: nat, ok: bool, depth: nat)
    requires InText(x) && i < x.end && x.text[i] != '`'
    ensures var s := LeafAt(x, i, ok); s.closed <==> Closes(x, Tok(s.kind, i, s.end, [], depth))
  {
    var c := x.text[i];
    var next := if i + 1 < x.end then x.text[i + 1] else ' ';
    if c == '/' && (next == '/' || next == '*') {
      CommentClosedIff(x, i, depth);
    } else if c == '\'' || c == '"' {
      StringClosedIff(x, i, depth);
    } else if c == '/' && ok {
      RegexClosedIff(x, i, depth);
    }
  }

  // ------------------------------------------------------------------ every token of a list

  /** What is said of a token, given those listed before it in its call. */
  type Judgement = (seq<Tok>, Tok) -> bool

  /** All tokens of a call, and of the calls for the holes below, are as they should be. */
  ghost predicate AllRead(good: Judgement, before: seq<Tok>, f: Forest, depth: nat)
    decreases f
  {
    match f
    case Done => true
    case Tree(t, holes, rest) =>
      && t.depth == depth && good(before, t) && HolesRead(good, holes, depth + 1)
      && AllRead(good, before + ([t] + FlattenHoles(holes)), rest, depth)
  }

  ghost predicate HolesRead(good: Judgement, h: Holes, depth: nat)
    decreases h
  {
    match h
    case NoHoles => true
    case Hole(inside, more) => AllRead(good, [], inside, depth) && HolesRead(good, more, depth)
  }

  /** The token that is read at i, behind these tokens, is as it should be. */
  predicate Judged(x: Source, good: Judgement, before: seq<Tok>, i: nat, depth: nat)
    requires InText(x)
  {
    i < x.end && x.text[i] != '`' && !IsBlank(x.text[i]) ==>
      var s := LeafAt(x, i, RegexOk(x, true, before)); good(before, Tok(s.kind, i, s.end, [], depth))
  }

  ghost predicate Judges(x: Source, good: Judgement)
    requires InText(x)
  {
    && (forall before, i: nat, depth: nat {:trigger Judged(x, good, before, i, depth)} :: Judged(x, good, before, i,
      depth))
    && (forall before, t: Tok :: t.kind.Tpl? && t.start < x.end && x.text[t.start] == '`' ==> good(before, t))
  }

  lemma TreeRead(good: Judgement, before: seq<Tok>, t: Tok, holes: Holes, rest: Forest, depth: nat)
    requires t.depth == depth && good(before, t) && HolesRead(good, holes, depth + 1)
    requires AllRead(good, before + ([t] + FlattenHoles(holes)), rest, depth)
    ensures AllRead(good, before, Tree(t, holes, rest), depth)
  {
  }

  lemma {:induction false} LexReads(x: Source, good: Judgement, i: nat, depth: nat, until: bool, level: nat,
                                    before: seq<Tok>)
    requires InText(x) && Judges(x, good)
    ensures AllRead(good, before, Lex(ScannerOf(x), i, depth, until, level, RegexOk(x, true, before)).forest, depth)
    decreases x.end - i, 1
  {
    var y, ok := ScannerOf(x), RegexOk(x, true, before);
    if i >= x.end {
    } else if IsBlank(x.text[i]) {
      LexReads(x, good, i + 1, depth, until, level, before);
    } else if x.text[i] == '`' {
      var b := Template(y, i + 1, i + 1, depth);
      var t := TemplateTok(y, i, b, depth);
      TemplateReads(x, good, i + 1, i + 1, depth);
      RegexOkAppend(x, true, before, [t] + FlattenHoles(b.holes));
      LexReads(x, good, t.end, depth, until, level, before + ([t] + FlattenHoles(b.holes)));
      TreeRead(good, before, t, b.holes, Lex(y, t.end, depth, until, level, y.regexOk(ok, t, b.holes)).forest, depth);
    } else if until && x.text[i] == '}' && level == 0 {
    } else {
      LeafReads(x, good, i, depth, until, level, before);
    }
  }

  lemma {:induction false} LeafReads(x: Source, good: Judgement, i: nat, depth: nat, until: bool, level: nat,
                                     before: seq<Tok>)
    requires InText(x) && Judges(x, good) && i < x.end && !IsBlank(x.text[i]) && x.text[i] != '`'
    requires !(until && x.text[i] == '}' && level == 0)
    ensures AllRead(good, before, Lex(ScannerOf(x), i, depth, until, level, RegexOk(x, true, before)).forest, depth)
    decreases x.end - i, 0
  {
    var y, ok := ScannerOf(x), RegexOk(x, true, before);
    var s, level' := LeafAt(x, i, ok), LevelAfter(x.text[i], until, level);
    var t := Tok(s.kind, i, s.end, [], depth);
    assert [t] + FlattenHoles(NoHoles) == [t];
    RegexOkAppend(x, true, before, [t] + FlattenHoles(NoHoles));
    LexReads(x, good, s.end, depth, until, level', before + ([t] + FlattenHoles(NoHoles)));
    assert Judged(x, good, before, i, depth);
    TreeRead(good, before, t, NoHoles, Lex(y, s.end, depth, until, level', y.regexOk(ok, t, NoHoles)).forest, depth);
  }

  lemma {:induction false} TemplateReads(x: Source, good: Judgement, j: nat, seg: nat, depth: nat)
    requires InText(x) && Judges(x, good)
    ensures HolesRead(good, Template(ScannerOf(x), j, seg, depth).holes, depth + 1)
    decreases x.end - j
  {
    if j >= x.end || x.text[j] == '`' {
    } else if x.text[j] == '\\' {
      TemplateReads(x, good, j + 2, seg, depth);
    } else if x.text[j] == '$' && j + 1 < x.end && x.text[j + 1] == '{' {
      LexReads(x, good, j + 2, depth + 1, true, 0, []);
      var e := Lex(ScannerOf(x), j + 2, depth + 1, true, 0, true);
      TemplateReads(x, good, e.close + 1, e.close + 1, depth);
    } else {
      TemplateReads(x, good, j + 1, seg, depth);
    }
  }

  lemma {:induction false} FlatReads(good: Judgement, before: seq<Tok>, f: Forest, depth: nat)
    requires AllRead(good, before, f, depth)
    ensures ListGood(good, before, Flatten(f), depth)
    decreases f
  {
    if f.Tree? {
      FlatReads(good, before + ([f.tok] + FlattenHoles(f.holes)), f.rest, depth);
      HolesAreDeeper(good, f.holes, depth + 1);
      ListAppends(good, before, f.tok, FlattenHoles(f.holes), Flatten(f.rest), depth);
    }
  }

  ghost predicate ListGood(good: Judgement, before: seq<Tok>, toks: seq<Tok>, depth: nat) {
    forall k :: 0 <= k < |toks| ==>
      toks[k].depth >= depth && (toks[k].depth == depth ==> good(before + toks[..k], toks[k]))
  }

  lemma ListAppends(good: Judgement, before: seq<Tok>, t: Tok, inner: seq<Tok>, rest: seq<Tok>, depth: nat)
    requires t.depth == depth && good(before, t) && forall k :: 0 <= k < |inner| ==> inner[k].depth > depth
    requires ListGood(good, before + ([t] + inner), rest, depth)
    ensures ListGood(good, before, [t] + inner + rest, depth)
  {
    var first := [t] + inner;
    var all := first + rest;
    forall k | 0 <= k < |all|
      ensures all[k].depth >= depth && (all[k].depth == depth ==> good(before + all[..k], all[k]))
    {
      if k == 0 {
        assert before + all[..0] == before;
      } else if k < |first| {
        assert all[k] == inner[k - 1];
      } else {
        assert before + all[..k] == before + first + rest[..k - |first|];
      }
    }
  }

  lemma {:induction false} HolesAreDeeper(good: Judgement, h: Holes, depth: nat)
    requires HolesRead(good, h, depth)
    ensures forall k :: 0 <= k < |FlattenHoles(h)| ==> FlattenHoles(h)[k].depth >= depth
    decreases h
  {
    if h.Hole? {
      FlatReads(good, [], h.inside, depth);
      HolesAreDeeper(good, h.more, depth);
    }
  }

  // ------------------------------------------------------------------ the laws

  ghost predicate TokenRead(x: Source, before: seq<Tok>, t: Tok)
    requires InText(x)
  {
    t.start < x.end && !WhiteSpace(x.text[t.start]) && SlashRead(x, before, t) && Reach(x, t)
  }

  ghost function Reading(x: Source): Judgement
    requires InText(x)
  {
    (before, t) => TokenRead(x, before, t)
  }

  /** Said of the list: every token of the call's own depth is read with regard to all tokens listed before it. */
  ghost predicate ListRead(x: Source, toks: seq<Tok>, depth: nat)
    requires InText(x)
  {
    forall k :: 0 <= k < |toks| ==>
      toks[k].depth >= depth && (toks[k].depth == depth ==> TokenRead(x, toks[..k], toks[k]))
  }

  lemma ReadingJudges(x: Source)
    requires InText(x)
    ensures Judges(x, Reading(x))
  {
    forall before, i: nat, depth: nat ensures Judged(x, Reading(x), before, i, depth) {
      if i < x.end && x.text[i] != '`' && !IsBlank(x.text[i]) {
        SlashIsRead(x, before, i, depth);
        LeafReaches(x, i, RegexOk(x, true, before), depth);
      }
    }
  }

  /** The tokens of every call, `_js_tok(src, start, end, depth, until)`; the holes of a template are calls
      themselves. */
  lemma ListsAreRead(x: Source, start: nat, depth: nat, until: bool)
    requires InText(x)
    ensures ListRead(x, Flatten(Lex(ScannerOf(x), start, depth, until, 0, true).forest), depth)
  {
    ReadingJudges(x);
    LexReads(x, Reading(x), start, depth, until, 0, []);
    var f := Lex(ScannerOf(x), start, depth, until, 0, true).forest;
    FlatReads(Reading(x), [], f, depth);
    forall k | 0 <= k < |Flatten(f)| ensures [] + Flatten(f)[..k] == Flatten(f)[..k] {}
  }
}

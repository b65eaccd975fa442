/** The tolerant JavaScript tokenizer `_js_tok` of tools/i18n_inventory.py: strings, templates nested to any depth,
    comments, regular expressions, names, numbers and punctuation. */
module JsLexer {
  import opened Text
  import opened Identifiers

  // ------------------------------------------------------------------ the text and its characters

  /** The text, where to stop, and Python's `isalpha` and `isalnum` beyond ASCII. */
  datatype Source = Source(text: string, end: nat, letter: char -> bool, alnum: char -> bool)

  predicate InText(x: Source) { x.end <= |x.text| }

  predicate IsBlank(c: char) {
    c == ' ' || '\t' <= c <= '\r' || c == '\U{a0}' || c == '\U{feff}'
  }

  predicate IsAlpha(x: Source, c: char) { IsLetter(c) || (c > '\U{7f}' && x.letter(c)) }

  predicate IsAlnum(x: Source, c: char) { IsLetter(c) || IsDigit(c) || (c > '\U{7f}' && x.alnum(c)) }

  predicate StartsName(c: char) { IsLetter(c) || c == '_' || c == '$' || c == '\U{1}' || c > '\U{7f}' }

  predicate ContinuesName(c: char) { StartsName(c) || IsDigit(c) }

  predicate ContinuesNumber(x: Source, c: char) { IsAlnum(x, c) || c == '.' || c == '_' }

  function Letters(x: Source): char -> bool { c => IsAlpha(x, c) }

  function NumberChars(x: Source): char -> bool { c => ContinuesNumber(x, c) }

  const KEYWORDS_BEFORE_REGEX :=
    {"return", "typeof", "instanceof", "in", "of", "new", "delete", "void", "throw", "case", "do", "else", "yield",
     "await"}

  const PUNCT3 := ["===", "!==", "**=", "...", "<<=", ">>=", ">>>", "&&=", "||=", "??="]

  const PUNCT2 := ["==", "!=", "<=", ">=", "&&", "||", "??", "?.", "=>", "++", "--", "+=", "-=", "*=", "/=", "%=", "&=",
                   "|=", "^=", "<<", ">>", "**"]

  // ------------------------------------------------------------------ tokens

  datatype Kind = Str | Tpl | Comment | Regex | Punct | Ident | Num

  datatype Part = Text(start: nat, end: nat) | Expr(start: nat, end: nat)

  datatype Tok = Tok(kind: Kind, start: nat, end: nat, parts: seq<Part>, depth: nat)

  /** Python's src[a:b]. */
  function Slice(s: string, a: nat, b: nat): string {
    var hi := if b < |s| then b else |s|;
    if a <= hi then s[a..hi] else ""
  }

  function Value(x: Source, t: Tok): string { Slice(x.text, t.start, t.end) }

  /** The last token that is not a comment (`prev_sig`). */
  function LastSig(toks: seq<Tok>): Option<Tok> {
    if toks == [] then None
    else if !toks[|toks| - 1].kind.Comment? then Some(toks[|toks| - 1])
    else LastSig(toks[..|toks| - 1])
  }

  /** A slash after this token starts a regular expression. */
  predicate RegexAfter(x: Source, t: Tok) {
    || (t.kind.Punct? && Value(x, t) != ")" && Value(x, t) != "]" && Value(x, t) != "}")
    || (t.kind.Ident? && Value(x, t) in KEYWORDS_BEFORE_REGEX)
  }

  /** A slash after these tokens does, when it would (or would not) have done so before them. */
  predicate RegexOk(x: Source, before: bool, toks: seq<Tok>) {
    if LastSig(toks).None? then before else RegexAfter(x, LastSig(toks).value)
  }

  // ------------------------------------------------------------------ single tokens

  /** Where the string opened with q stops: at the quote, a line end, or past the text. */
  function StringStop(x: Source, j: nat, q: char): (r: nat)
    requires InText(x)
    ensures j <= r
    decreases x.end - j
  {
    if j >= x.end || x.text[j] == q || x.text[j] == '\n' then j
    else if x.text[j] == '\\' then StringStop(x, j + 2, q)
    else StringStop(x, j + 1, q)
  }

  function RegexStop(x: Source, j: nat, inClass: bool): (r: nat)
    requires InText(x)
    ensures j <= r
    decreases x.end - j
  {
    if j >= x.end || x.text[j] == '\n' then j
    else if x.text[j] == '\\' then RegexStop(x, j + 2, inClass)
    else if x.text[j] == '/' && !inClass then j
    else RegexStop(x, j + 1, if x.text[j] == '[' then true else if x.text[j] == ']' then false else inClass)
  }

  /** The end of the run of characters that satisfy p. */
  function RunEnd(x: Source, j: nat, p: char -> bool): (r: nat)
    requires InText(x)
    ensures j <= r && (j <= x.end ==> r <= x.end)
    decreases x.end - j
  {
    if j < x.end && p(x.text[j]) then RunEnd(x, j + 1, p) else j
  }

  predicate StartsWithAny(s: string, i: nat, ps: seq<string>) {
    exists k :: 0 <= k < |ps| && StartsAt(s, i, ps[k])
  }

  function PunctLength(s: string, i: nat): (n: nat)
    ensures 1 <= n <= 3
  {
    if StartsWithAny(s, i, PUNCT3) then 3 else if StartsWithAny(s, i, PUNCT2) then 2 else 1
  }

  function Min(a: nat, b: nat): nat { if a < b then a else b }

  /** A token that is not a template: its kind, its end, and whether it was closed before the end of the text. */
  datatype Leaf = Leaf(kind: Kind, end: nat, closed: bool)

  function LineComment(x: Source, i: nat): (r: Leaf)
    requires InText(x) && i < x.end && x.text[i] == '/'
    ensures i < r.end <= x.end
  {
    var j := Find(x.text, "\n", i);
    assert x.text[i..i + 1][0] == '/';
    Leaf(Comment, if j.None? || j.value > x.end then x.end else j.value, true)
  }

  function BlockComment(x: Source, i: nat): (r: Leaf)
    requires InText(x) && i < x.end
    ensures i < r.end <= x.end
  {
    var j := Find(x.text, "*/", i + 2);
    if j.None? || j.value + 2 > x.end then Leaf(Comment, x.end, false) else Leaf(Comment, j.value + 2, true)
  }

  function QuotedString(x: Source, i: nat): (r: Leaf)
    requires InText(x) && i < x.end
    ensures i < r.end <= x.end
  {
    var stop := StringStop(x, i + 1, x.text[i]);
    Leaf(Str, Min(stop + 1, x.end), stop < x.end && x.text[stop] == x.text[i])
  }

  function RegexLiteral(x: Source, i: nat): (r: Leaf)
    requires InText(x) && i < x.end
    ensures i < r.end && (r.closed ==> r.end <= x.end)
  {
    var stop := RegexStop(x, i + 1, false);
    Leaf(Regex, RunEnd(x, stop + 1, Letters(x)), stop < x.end && x.text[stop] == '/')
  }

  function LeafAt(x: Source, i: nat, regexOk: bool): (r: Leaf)
    requires InText(x) && i < x.end
    ensures i < r.end && (r.closed ==> r.end <= x.end) && !r.kind.Tpl?
  {
    var c := x.text[i];
    if c == '/' && i + 1 < x.end && x.text[i + 1] == '/' then LineComment(x, i)
    else if c == '/' && i + 1 < x.end && x.text[i + 1] == '*' then BlockComment(x, i)
    else if c == '\'' || c == '"' then QuotedString(x, i)
    else if c == '/' && regexOk then RegexLiteral(x, i)
    else if StartsName(c) then Leaf(Ident, RunEnd(x, i + 1, ContinuesName), true)
    else if IsDigit(c) then Leaf(Num, RunEnd(x, i + 1, NumberChars(x)), true)
    else Leaf(Punct, i + PunctLength(x.text, i), i + PunctLength(x.text, i) <= x.end)
  }

  // ------------------------------------------------------------------ the whole text

  /** The text, where to stop, how simple tokens are read, and when a slash starts a regular expression. */
  datatype Scanner = Scanner(text: string, end: nat, leaf: (nat, bool) -> Leaf, regexOk: (bool, Tok, Holes) -> bool)

  /** What nesting relies on: tokens are not empty, closed ones stay in the text, and a brace is a token of its own. */
  ghost predicate Sound(x: Scanner) {
    x.end <= |x.text| && forall i: nat, ok :: i < x.end ==> SoundLeaf(x.text, x.end, i, x.leaf(i, ok))
  }

  predicate SoundLeaf(text: string, end: nat, i: nat, s: Leaf)
    requires i < |text|
  {
    && i < s.end && (s.closed ==> s.end <= end) && !s.kind.Tpl?
    && (text[i] == '{' || text[i] == '}' ==> s == Leaf(Punct, i + 1, true))
  }

  function Leaves(x: Source): (nat, bool) -> Leaf
    requires InText(x)
  {
    (i: nat, ok: bool) => if i < x.end then LeafAt(x, i, ok) else Leaf(Punct, i + 1, false)
  }

  function ScannerOf(x: Source): (y: Scanner)
    requires InText(x)
    ensures Sound(y)
  {
    LeavesAreSound(x);
    Scanner(x.text, x.end, Leaves(x), (before, tok, holes) => RegexOk(x, before, [tok] + FlattenHoles(holes)))
  }

  lemma BraceIsOneToken(x: Source, i: nat, regexOk: bool)
    requires InText(x) && i < x.end && (x.text[i] == '{' || x.text[i] == '}')
    ensures LeafAt(x, i, regexOk) == Leaf(Punct, i + 1, true)
  {
    forall k | 0 <= k < |PUNCT3| ensures !StartsAt(x.text, i, PUNCT3[k]) { assert PUNCT3[k][0] != x.text[i]; }
    forall k | 0 <= k < |PUNCT2| ensures !StartsAt(x.text, i, PUNCT2[k]) { assert PUNCT2[k][0] != x.text[i]; }
  }

  lemma LeavesAreSound(x: Source)
    requires InText(x)
    ensures forall i: nat, ok :: i < x.end ==> SoundLeaf(x.text, x.end, i, Leaves(x)(i, ok))
  {
    forall i: nat, ok | i < x.end ensures SoundLeaf(x.text, x.end, i, Leaves(x)(i, ok)) {
      if x.text[i] == '{' || x.text[i] == '}' { BraceIsOneToken(x, i, ok); }
    }
  }

  /** Tokens in order; the tokens of the holes of a template hang below it, one forest per hole. */
  datatype Forest = Done | Tree(tok: Tok, holes: Holes, rest: Forest)
  datatype Holes = NoHoles | Hole(inside: Forest, more: Holes)

  /** The order in which the tokenizer lists them: a template before the tokens of its holes. */
  function Flatten(f: Forest): seq<Tok> {
    match f
    case Done => []
    case Tree(t, holes, rest) => [t] + FlattenHoles(holes) + Flatten(rest)
  }

  function FlattenHoles(h: Holes): seq<Tok> {
    match h
    case NoHoles => []
    case Hole(inside, more) => Flatten(inside) + FlattenHoles(more)
  }

  /** The tokens, where the scan stopped, and whether everything that was opened was closed. */
  datatype Lexed = Lexed(forest: Forest, close: nat, closed: bool)
  datatype Body = Body(parts: seq<Part>, holes: Holes, stop: nat, closed: bool)

  function LevelAfter(c: char, until: bool, level: nat): nat {
    if until && c == '{' then level + 1 else if until && c == '}' && level > 0 then level - 1 else level
  }

  function TemplateTok(x: Scanner, i: nat, b: Body, depth: nat): Tok {
    Tok(Tpl, i, Min(b.stop + 1, x.end), b.parts, depth)
  }

  /** Tokens from i on. With `until` the scan stops at the brace that closes the hole; `level` braces are open in it. */
  function Lex(x: Scanner, i: nat, depth: nat, until: bool, level: nat, regexOk: bool): (r: Lexed)
    requires Sound(x)
    ensures i <= x.end ==> i <= r.close <= x.end
    decreases x.end - i
  {
    if i >= x.end then Lexed(Done, x.end, !until && i == x.end)
    else if IsBlank(x.text[i]) then Lex(x, i + 1, depth, until, level, regexOk)
    else if x.text[i] == '`' then
      var b := Template(x, i + 1, i + 1, depth);
      var tok := TemplateTok(x, i, b, depth);
      var r := Lex(x, tok.end, depth, until, level, x.regexOk(regexOk, tok, b.holes));
      Lexed(Tree(tok, b.holes, r.forest), r.close, b.closed && r.closed)
    else if until && x.text[i] == '}' && level == 0 then Lexed(Done, i, true)
    else
      var s := x.leaf(i, regexOk);
      var tok := Tok(s.kind, i, s.end, [], depth);
      var r := Lex(x, s.end, depth, until, LevelAfter(x.text[i], until, level), x.regexOk(regexOk, tok, NoHoles));
      Lexed(Tree(tok, NoHoles, r.forest), r.close, s.closed && r.closed)
  }

  /** The rest of a template from j on, when the text before the next hole started at seg. */
  function Template(x: Scanner, j: nat, seg: nat, depth: nat): (r: Body)
    requires Sound(x)
    ensures j <= r.stop
    decreases x.end - j
  {
    if j >= x.end then Body([Text(seg, x.end)], NoHoles, j, false)
    else if x.text[j] == '`' then Body([Text(seg, j)], NoHoles, j, true)
    else if x.text[j] == '\\' then Template(x, j + 2, seg, depth)
    else if x.text[j] == '$' && j + 1 < x.end && x.text[j + 1] == '{' then
      var e := Lex(x, j + 2, depth + 1, true, 0, true);
      var r := Template(x, e.close + 1, e.close + 1, depth);
      Body([Text(seg, j), Expr(j + 2, e.close)] + r.parts, Hole(e.forest, r.holes), r.stop, e.closed && r.closed)
    else Template(x, j + 1, seg, depth)
  }

  /** The forest of the whole text. */
  ghost function Whole(x: Source): Lexed
    requires InText(x)
  {
    Lex(ScannerOf(x), 0, 0, false, 0, true)
  }
}

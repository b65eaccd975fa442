/** Reading the text of a rewritten call back (`_js_tpl_to_call` in tools/i18n_wrap_code.py prints the object literal
    at lines 536-546): which calls JavaScript reading as the message and the pairs they were printed from. */
module JsObjects {
  import opened Text
  import opened Identifiers
  import opened Placeholders
  import opened Quotes
  import opened JsTemplates
  import opened JsLeaves
  import L = JsLexer

  /** The words that are never identifiers (section 12.7.2 of ECMA-262). */
  const RESERVED :=
    {"break", "case", "catch", "class", "const", "continue", "debugger", "default", "delete", "do", "else", "enum",
     "export", "extends", "false", "finally", "for", "function", "if", "import", "in", "instanceof", "new", "null",
     "return", "super", "switch", "this", "throw", "true", "try", "typeof", "var", "void", "while", "with"}

  /** The property name that a numeric literal stands for, None if it is no literal. */
  type NumberKey = string -> Option<string>

  /** Decimal integers of at most 15 digits are their own names; a literal that is its own name is a decimal integer
      without leading zeros. (Longer ones are rounded, which is left open.) */
  ghost predicate KeyLaws(key: NumberKey) {
    && (forall s :: PlainInteger(s) && |s| <= 15 ==> key(s) == Some(s))
    && (forall s :: IsName(s) && key(s) == Some(s) ==> PlainInteger(s))
  }

  predicate PlainInteger(s: string) { s != "" && AllDigits(s) && (|s| == 1 || s[0] != '0') }

  // ------------------------------------------------------------------ a value and where it ends

  /** The character of a punctuation token of one character, or a blank. */
  function Mark(x: L.Source, t: L.Tok): char {
    if t.kind.Punct? && |L.Value(x, t)| == 1 then L.Value(x, t)[0] else ' '
  }

  /** The brackets still to be closed, innermost first, behind this character; None if it closes the wrong one. */
  function Enter(c: char, open: string): Option<string> {
    if c == '(' then Some(")" + open)
    else if c == '[' then Some("]" + open)
    else if c == '{' then Some("}" + open)
    else if c == ')' || c == ']' || c == '}' then if open != "" && open[0] == c then Some(open[1..]) else None
    else Some(open)
  }

  /** The comma or brace that ends the value, and what is behind it. */
  function ValueEnd(x: L.Source, f: L.Forest, open: string): (r: Option<(L.Tok, L.Forest)>)
    ensures r.Some? ==> Length(r.value.1) < Length(f)
  {
    match f
    case Done => None
    case Tree(t, _, rest) =>
      if open == "" && (Mark(x, t) == ',' || Mark(x, t) == '}') then Some((t, rest))
      else if Enter(Mark(x, t), open).None? then None
      else ValueEnd(x, rest, Enter(Mark(x, t), open).value)
  }

  function Length(f: L.Forest): nat { if f.Done? then 0 else 1 + Length(f.rest) }

  /** An expression by itself: its brackets match, and it has no comma outside them and no line comment (which would
      run on over what is printed behind it). */
  predicate Balanced(x: L.Source, f: L.Forest, open: string) {
    match f
    case Done => open == ""
    case Tree(t, _, rest) =>
      && !(t.kind.Comment? && IsLineComment(x, t.start)) && !(open == "" && Mark(x, t) == ',')
      && Enter(Mark(x, t), open).Some? && Balanced(x, rest, Enter(Mark(x, t), open).value)
  }

  /** The characters beyond ASCII that are letters, and letters or digits, for `isalpha` and `isalnum`. */
  datatype Alphabet = Alphabet(letter: char -> bool, alnum: char -> bool)

  function SourceOf(text: string, abc: Alphabet): (x: L.Source)
    ensures L.InText(x)
  {
    L.Source(text, |text|, abc.letter, abc.alnum)
  }

  /** The expression can stand as the value of a property: read by itself everything in it is closed, and it is
      balanced. */
  ghost predicate IsArgument(expr: string, abc: Alphabet) {
    var x := SourceOf(expr, abc);
    L.Whole(x).closed && Balanced(x, L.Whole(x).forest, "")
  }

  // ------------------------------------------------------------------ the reader

  function SkipComments(f: L.Forest): (r: L.Forest)
    ensures Length(r) <= Length(f) && (r.Tree? ==> !r.tok.kind.Comment?)
  {
    if f.Tree? && f.tok.kind.Comment? then SkipComments(f.rest) else f
  }

  /** The name of a property, as an identifier name or a number. */
  function KeyOf(x: L.Source, t: L.Tok, key: NumberKey): Option<string> {
    if t.kind.Ident? then Some(L.Value(x, t)) else if t.kind.Num? then key(L.Value(x, t)) else None
  }

  /** A property, alone or with a value that starts at `from`, the token that ends it, and what is behind that. */
  datatype Entry =
    | Valued(name: string, from: nat, stop: L.Tok, rest: L.Forest)
    | Alone(name: string, stop: L.Tok, rest: L.Forest)

  /** The pair it stands for. A value is known by its text without outer white space. */
  function PairOf(x: L.Source, e: Entry): (string, string) {
    if e.Alone? then (e.name, e.name) else (e.name, Strip(L.Slice(x.text, e.from, e.stop.start)))
  }

  /** One property: `name: value`, or a name alone that is not reserved. */
  function ReadEntry(x: L.Source, f: L.Forest, key: NumberKey): (r: Option<Entry>)
    ensures r.Some? ==> Length(r.value.rest) < Length(f)
  {
    if f.Done? then None
    else
      var h := SkipComments(f.rest);
      if h.Done? then None
      else if Mark(x, h.tok) == ':' then ReadValue(x, h.tok.end, KeyOf(x, f.tok, key), h.rest)
      else if (Mark(x, h.tok) == ',' || Mark(x, h.tok) == '}') && f.tok.kind.Ident?
        && L.Value(x, f.tok) !in RESERVED then
        Some(Alone(L.Value(x, f.tok), h.tok, h.rest))
      else None
  }

  /** The value behind the colon that ends at p. */
  function ReadValue(x: L.Source, p: nat, name: Option<string>, f: L.Forest): (r: Option<Entry>)
    ensures r.Some? ==> Length(r.value.rest) < Length(f)
  {
    var v := ValueEnd(x, f, "");
    if v.None? || name.None? then None else Some(Valued(name.value, p, v.value.0, v.value.1))
  }

  /** Properties up to the closing brace, with what is behind it. */
  function ReadEntries(x: L.Source, f: L.Forest, key: NumberKey): Option<(seq<(string, string)>, L.Forest)>
    decreases Length(f)
  {
    var g := SkipComments(f);
    if g.Done? then None
    else if Mark(x, g.tok) == '}' then Some(([], g.rest))
    else
      var e := ReadEntry(x, g, key);
      if e.None? then None
      else if Mark(x, e.value.stop) == '}' then Some(([PairOf(x, e.value)], e.value.rest))
      else
        var r := ReadEntries(x, e.value.rest, key);
        if r.None? then None else Some(([PairOf(x, e.value)] + r.value.0, r.value.1))
  }

  predicate IsEnd(x: L.Source, f: L.Forest) { f.Tree? && Mark(x, f.tok) == ')' && SkipComments(f.rest).Done? }

  /** The forest behind the next token, if that is punctuation c. */
  function Behind(x: L.Source, f: L.Forest, c: char): Option<L.Forest> {
    var g := SkipComments(f);
    if g.Tree? && Mark(x, g.tok) == c then Some(g.rest) else None
  }

  /** The name of the function and its first argument: the message, and what is behind it. */
  function ReadHead(x: L.Source, f: L.Forest, fn: string): Option<(string, L.Forest)> {
    var a := SkipComments(f);
    if a.Done? || !a.tok.kind.Ident? || L.Value(x, a.tok) != fn || Behind(x, a.rest, '(').None? then None
    else
      var m := SkipComments(Behind(x, a.rest, '(').value);
      if m.Done? || !m.tok.kind.Str? || m.tok.end < m.tok.start + 2 then None
      else
        var u := JsUnescape(L.Slice(x.text, m.tok.start + 1, m.tok.end - 1));
        if u.Decoded? then Some((u.text, m.rest)) else None
  }

  /** `fn('message')` or `fn('message', {…})`. */
  function ReadCallFrom(x: L.Source, f: L.Forest, fn: string, key: NumberKey): Option<HrtCall> {
    var h := ReadHead(x, f, fn);
    if h.None? then None else ReadArguments(x, h.value.1, h.value.0, key)
  }

  /** What follows the message. */
  function ReadArguments(x: L.Source, f: L.Forest, msgid: string, key: NumberKey): Option<HrtCall> {
    if IsEnd(x, SkipComments(f)) then Some(HrtCall(msgid, []))
    else if Behind(x, f, ',').None? || Behind(x, Behind(x, f, ',').value, '{').None? then None
    else
      var r := ReadEntries(x, Behind(x, Behind(x, f, ',').value, '{').value, key);
      if r.None? || !IsEnd(x, SkipComments(r.value.1)) then None else Some(HrtCall(msgid, r.value.0))
  }

  /** The call that the text is read as. */
  ghost function ReadCall(text: string, fn: string, key: NumberKey, abc: Alphabet): Option<HrtCall> {
    ReadCallFrom(SourceOf(text, abc), L.Whole(SourceOf(text, abc)).forest, fn, key)
  }

  // ------------------------------------------------------------------ what can be printed

  /** The name, as a property name, stands for itself. */
  ghost predicate NameReads(name: string, key: NumberKey) { IsIdentifier(name) || key(name) == Some(name) }

  /** A pair that is printed as it has to be read: the expression can stand as a value and its name as a property
      name; a name printed alone is an identifier and not reserved. */
  ghost predicate Printable(e: (string, string), key: NumberKey, abc: Alphabet) {
    if e.0 == e.1 then IsIdentifier(e.0) && e.0 !in RESERVED else IsArgument(e.1, abc) && NameReads(e.0, key)
  }

  ghost predicate AllPrintable(objs: seq<(string, string)>, key: NumberKey, abc: Alphabet) {
    forall k :: 0 <= k < |objs| ==> Printable(objs[k], key, abc)
  }

  /** What the rewriting knows of a pair: a name, and the stripped text of a hole. */
  predicate Plain(e: (string, string)) {
    IsName(e.0) && e.1 != "" && Strip(e.1) == e.1 && '`' !in e.1 && '\n' !in e.1
  }
}

/** Reading an expression inside a longer text: the tokenizer of tools/i18n_inventory.py finds the same simple tokens
    as in the expression alone, or runs over the comma or brace behind it. */
module JsLeaves {
  import opened Text
  import opened Identifiers
  import opened JsLexer

  /** Text e stands in x at a, with a comma or a closing brace behind it; it has no line end and no template. */
  ghost predicate Embedded(x: Source, e: Source, a: nat) {
    && InText(x) && e.end == |e.text| && a + |e.text| < x.end && x.letter == e.letter && x.alnum == e.alnum
    && (forall k :: 0 <= k < |e.text| ==> x.text[a + k] == e.text[k] && e.text[k] != '\n' && e.text[k] != '`')
    && (x.text[a + |e.text|] == ',' || x.text[a + |e.text|] == '}')
  }

  predicate IsLineComment(x: Source, i: nat) {
    i + 1 < x.end <= |x.text| && x.text[i] == '/' && x.text[i + 1] == '/'
  }

  // ------------------------------------------------------------------ each kind of token

  /** A run of characters ends at the same place. */
  lemma {:induction false} RunInContext(x: Source, e: Source, a: nat, j: nat, p: char -> bool, q: char -> bool)
    requires Embedded(x, e, a) && j <= |e.text| && !p(',') && !p('}') && forall c :: p(c) == q(c)
    ensures RunEnd(x, a + j, p) == a + RunEnd(e, j, q)
    decreases |e.text| - j
  {
    if j < |e.text| {
      assert x.text[a + j] == e.text[j];
      if p(e.text[j]) { RunInContext(x, e, a, j + 1, p, q); }
    }
  }

  /** A string stops at the same quote, or runs on. */
  lemma {:induction false} StringInContext(x: Source, e: Source, a: nat, j: nat, q: char)
    requires Embedded(x, e, a) && q != ',' && q != '}'
    ensures var stop := StringStop(e, j, q);
            if stop < |e.text| then e.text[stop] == q && StringStop(x, a + j, q) == a + stop
            else StringStop(x, a + j, q) > a + |e.text|
    decreases |e.text| + 1 - j
  {
    if j < |e.text| {
      assert x.text[a + j] == e.text[j];
      if e.text[j] != q { StringInContext(x, e, a, if e.text[j] == '\\' then j + 2 else j + 1, q); }
    } else if j == |e.text| {
      assert StringStop(x, a + j, q) == StringStop(x, a + j + 1, q);
    }
  }

  lemma {:induction false} RegexInContext(x: Source, e: Source, a: nat, j: nat, inClass: bool)
    requires Embedded(x, e, a)
    ensures var stop := RegexStop(e, j, inClass);
            if stop < |e.text| then e.text[stop] == '/' && RegexStop(x, a + j, inClass) == a + stop
            else RegexStop(x, a + j, inClass) > a + |e.text|
    decreases |e.text| + 1 - j
  {
    if j < |e.text| {
      assert x.text[a + j] == e.text[j];
      var c := e.text[j];
      if c == '\\' {
        RegexInContext(x, e, a, j + 2, inClass);
      } else if c != '/' || inClass {
        RegexInContext(x, e, a, j + 1, if c == '[' then true else if c == ']' then false else inClass);
      }
    } else if j == |e.text| {
      assert RegexStop(x, a + j, inClass) == RegexStop(x, a + j + 1, inClass);
    }
  }

  /** A short pattern without comma and brace stands at the same places. */
  lemma PatternInContext(x: Source, e: Source, a: nat, i: nat, p: string)
    requires Embedded(x, e, a) && i <= |e.text| && p != "" && ',' !in p && '}' !in p
    ensures StartsAt(x.text, a + i, p) <==> StartsAt(e.text, i, p)
  {
    if StartsAt(e.text, i, p) {
      StartsAtChars(e.text, i, p);
      assert x.text[a + i..a + i + |p|] == p;
    }
    if StartsAt(x.text, a + i, p) {
      StartsAtChars(x.text, a + i, p);
      assert forall k :: 0 <= k < |p| ==> p[k] != ',' && p[k] != '}';
      assert forall k :: 0 <= k < |p| ==> x.text[a + i + k] == p[k];
      assert a + |e.text| == a + i + (|e.text| - i);
      assert i + |p| <= |e.text|;
      assert e.text[i..i + |p|] == p;
    }
  }

  lemma AnyInContext(x: Source, e: Source, a: nat, i: nat, ps: seq<string>)
    requires Embedded(x, e, a) && i <= |e.text|
             && forall k :: 0 <= k < |ps| ==> ps[k] != "" && ',' !in ps[k] && '}' !in ps[k]
    ensures StartsWithAny(x.text, a + i, ps) <==> StartsWithAny(e.text, i, ps)
  {
    forall k | 0 <= k < |ps| ensures StartsAt(x.text, a + i, ps[k]) <==> StartsAt(e.text, i, ps[k]) {
      PatternInContext(x, e, a, i, ps[k]);
    }
  }

  lemma PunctInContext(x: Source, e: Source, a: nat, i: nat)
    requires Embedded(x, e, a) && i < |e.text|
    ensures PunctLength(x.text, a + i) == PunctLength(e.text, i) && i + PunctLength(e.text, i) <= |e.text|
  {
    AnyInContext(x, e, a, i, PUNCT3);
    AnyInContext(x, e, a, i, PUNCT2);
    LongPunctFits(e.text, i);
  }

  lemma LongPunctFits(s: string, i: nat)
    requires i < |s|
    ensures i + PunctLength(s, i) <= |s|
  {
    if StartsWithAny(s, i, PUNCT3) {
      var k :| 0 <= k < |PUNCT3| && StartsAt(s, i, PUNCT3[k]);
      assert |PUNCT3[k]| == 3;
    } else if StartsWithAny(s, i, PUNCT2) {
      var k :| 0 <= k < |PUNCT2| && StartsAt(s, i, PUNCT2[k]);
      assert |PUNCT2[k]| == 2;
    }
  }

  lemma CommentInContext(x: Source, e: Source, a: nat, i: nat)
    requires Embedded(x, e, a) && i < |e.text|
    ensures var s, t := BlockComment(e, i), BlockComment(x, a + i);
            if s.closed then t == Leaf(Comment, a + s.end, true) else t.end > a + |e.text|
  {
    forall j | i + 2 <= j <= |e.text| ensures StartsAt(x.text, a + j, "*/") <==> StartsAt(e.text, j, "*/") {
      PatternInContext(x, e, a, j, "*/");
    }
    FindInContext(x, e, a, i + 2, "*/");
  }

  lemma FindInContext(x: Source, e: Source, a: nat, from: nat, p: string)
    requires Embedded(x, e, a) && |p| >= 1 && ',' !in p && '}' !in p
    requires forall j :: from <= j <= |e.text| ==> (StartsAt(x.text, a + j, p) <==> StartsAt(e.text, j, p))
    ensures var f, g := Find(e.text, p, from), Find(x.text, p, a + from);
            if f.Some? then g == Some(a + f.value) else g.None? || g.value > a + |e.text|
  {
    var f, g := Find(e.text, p, from), Find(x.text, p, a + from);
    assert f.Some? ==> StartsAt(x.text, a + f.value, p);
    forall j | a + from <= j <= a + |e.text| ensures StartsAt(x.text, j, p) <==> StartsAt(e.text, j - a, p) {
      assert j == a + (j - a);
    }
  }

  lemma LineCommentInContext(x: Source, e: Source, a: nat, i: nat)
    requires Embedded(x, e, a) && i < |e.text| && e.text[i] == '/'
    ensures x.text[a + i] == '/' && LineComment(x, a + i).end > a + |e.text|
  {
    assert x.text[a + i] == e.text[i];
    forall j | a + i <= j <= a + |e.text| ensures !StartsAt(x.text, j, "\n") {
      if j < a + |e.text| { assert x.text[a + (j - a)] == e.text[j - a]; }
      assert x.text[j..j + 1][0] == x.text[j];
    }
  }

  // ------------------------------------------------------------------ any token

  /** The token at i of the expression is found in the longer text too if it is closed and no line comment; otherwise
      what is found there runs over the end of the expression, and is no punctuation. */
  lemma LeafInContext(x: Source, e: Source, a: nat, i: nat, ok: bool)
    requires Embedded(x, e, a) && i < |e.text|
    ensures var s, t := LeafAt(e, i, ok), LeafAt(x, a + i, ok);
            if s.closed && !IsLineComment(e, i) then t == Leaf(s.kind, a + s.end, true)
            else t.end > a + |e.text| && !t.kind.Punct?
  {
    var c := e.text[i];
    assert x.text[a + i] == c;
    assert i + 1 < |e.text| ==> x.text[a + (i + 1)] == e.text[i + 1];
    if IsLineComment(e, i) {
      LineCommentInContext(x, e, a, i);
    } else if c == '/' && i + 1 < |e.text| && e.text[i + 1] == '*' {
      CommentInContext(x, e, a, i);
    } else if c == '\'' || c == '"' {
      QuotedInContext(x, e, a, i);
    } else if c == '/' && ok {
      RegexLiteralInContext(x, e, a, i);
    } else {
      PlainInContext(x, e, a, i);
    }
  }

  /** A name, a number or punctuation. */
  function PlainLeaf(x: Source, i: nat): Leaf
    requires InText(x) && i < x.end
  {
    if StartsName(x.text[i]) then Leaf(Ident, RunEnd(x, i + 1, ContinuesName), true)
    else if IsDigit(x.text[i]) then Leaf(Num, RunEnd(x, i + 1, NumberChars(x)), true)
    else Leaf(Punct, i + PunctLength(x.text, i), i + PunctLength(x.text, i) <= x.end)
  }

  lemma PlainInContext(x: Source, e: Source, a: nat, i: nat)
    requires Embedded(x, e, a) && i < |e.text|
    ensures var s := PlainLeaf(e, i); s.closed && PlainLeaf(x, a + i) == Leaf(s.kind, a + s.end, true)
  {
    var c := e.text[i];
    assert x.text[a + i] == c && a + (i + 1) == a + i + 1;
    if StartsName(c) {
      RunInContext(x, e, a, i + 1, ContinuesName, ContinuesName);
    } else if IsDigit(c) {
      RunInContext(x, e, a, i + 1, NumberChars(x), NumberChars(e));
    } else {
      PunctInContext(x, e, a, i);
    }
  }

  lemma QuotedInContext(x: Source, e: Source, a: nat, i: nat)
    requires Embedded(x, e, a) && i < |e.text| && (e.text[i] == '\'' || e.text[i] == '"')
    ensures var s, t := QuotedString(e, i), QuotedString(x, a + i);
            if s.closed then t == Leaf(Str, a + s.end, true) else t.end > a + |e.text|
  {
    assert x.text[a + i] == e.text[i];
    StringInContext(x, e, a, i + 1, e.text[i]);
    assert a + (i + 1) == a + i + 1;
  }

  lemma RegexLiteralInContext(x: Source, e: Source, a: nat, i: nat)
    requires Embedded(x, e, a) && i < |e.text|
    ensures var s, t := RegexLiteral(e, i), RegexLiteral(x, a + i);
            if s.closed then t == Leaf(Regex, a + s.end, true) else t.end > a + |e.text|
  {
    RegexInContext(x, e, a, i + 1, false);
    assert a + (i + 1) == a + i + 1;
    var stop := RegexStop(e, i + 1, false);
    if stop < |e.text| {
      assert x.text[a + stop] == e.text[stop];
      RunInContext(x, e, a, stop + 1, Letters(x), Letters(e));
    }
  }
}

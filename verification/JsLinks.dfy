/** The links that are written in the scripts of templates (tools/i18n_wrap_code.py, lines 1058-1063), as JavaScript
    reads them: a call of `split` with the placeholder as its argument and a call of `join` with the expression. */
module JsLinks {
  import opened Text
  import opened Identifiers
  import opened JsLexer
  import opened JsTokenLaws
  import opened JsCooked
  import opened JsChains

  /** From i to e there is one token of this kind and text, whatever is in front. */
  ghost predicate Stands(x: Source, i: nat, e: nat, kind: Kind, text: string)
    requires InText(x)
  {
    i < e <= x.end && x.text[i..e] == text && forall ok :: LeafAt(x, i, ok) == Leaf(kind, e, true)
  }

  /** `.split(` and a string with this value, up to a. */
  ghost predicate IsSplit(x: Source, value: string, a: nat)
    requires InText(x)
  {
    && Stands(x, 0, 1, Punct, ".") && Stands(x, 1, 6, Ident, "split") && Stands(x, 6, 7, Punct, "(")
    && 8 < a <= x.end && Stands(x, 7, a, Str, x.text[7..a]) && Cook(x.text[8..a - 1]) == Some(value)
  }

  /** From a to the end: `).join(`, the expression and `)`. */
  ghost predicate IsJoin(x: Source, a: nat, expr: string)
    requires InText(x)
  {
    && Stands(x, a, a + 1, Punct, ")") && Stands(x, a + 1, a + 2, Punct, ".") && Stands(x, a + 2, a + 6, Ident, "join")
    && Stands(x, a + 6, a + 7, Punct, "(") && a + |expr| + 8 == x.end && x.text[a + 7..x.end - 1] == expr
    && x.text[x.end - 1] == ')'
  }

  lemma FirstTwo(s: string, i: nat, p: string)
    requires StartsAt(s, i, p) && |p| >= 2
    ensures s[i] == p[0] && s[i + 1] == p[1]
  {
    StartsAtChars(s, i, p);
    assert s[i + 0] == p[0];
  }

  lemma PunctStands(x: Source, i: nat, w: string)
    requires InText(x) && i < x.end && x.text[i..i + 1] == w && (w == "." || w == "(" || w == ")")
    requires w == "." ==> i + 1 < x.end && IsLetter(x.text[i + 1])
    ensures Stands(x, i, i + 1, Punct, w)
  {
    var c := x.text[i];
    assert c == x.text[i..i + 1][0] == w[0];
    forall k | 0 <= k < |PUNCT3| ensures !StartsAt(x.text, i, PUNCT3[k]) {
      if StartsAt(x.text, i, PUNCT3[k]) { FirstTwo(x.text, i, PUNCT3[k]); }
    }
    forall k | 0 <= k < |PUNCT2| ensures !StartsAt(x.text, i, PUNCT2[k]) {
      if StartsAt(x.text, i, PUNCT2[k]) { FirstTwo(x.text, i, PUNCT2[k]); }
    }
    assert !StartsWithAny(x.text, i, PUNCT3) && !StartsWithAny(x.text, i, PUNCT2);
    forall ok ensures LeafAt(x, i, ok) == Leaf(Punct, i + 1, true) { assert PunctLength(x.text, i) == 1; }
  }

  lemma WordStands(x: Source, i: nat, w: string)
    requires InText(x) && i + |w| < x.end && w != "" && x.text[i..i + |w|] == w && x.text[i + |w|] == '('
    requires forall k :: 0 <= k < |w| ==> IsLetter(w[k])
    ensures Stands(x, i, i + |w|, Ident, w)
  {
    var e := i + |w|;
    forall k: nat | i + 1 <= k < e ensures Fits(x, k, ContinuesName) { assert x.text[i..e][k - i] == w[k - i]; }
    assert x.text[i..e][0] == w[0] && !ContinuesName('(');
    RunsAreEqual(x, i + 1, e, ContinuesName);
  }

  lemma StringStands(x: Source, i: nat, body: string)
    requires InText(x) && i + |body| + 2 <= x.end && x.text[i] == '\'' && x.text[i + 1 + |body|] == '\''
    requires x.text[i + 1..i + 1 + |body|] == body && '\\' !in body && '\'' !in body && '\n' !in body
    ensures Stands(x, i, i + |body| + 2, Str, x.text[i..i + |body| + 2])
  {
    var m := i + 1 + |body|;
    assert forall k :: i + 1 <= k < m ==> x.text[k] == x.text[i + 1..m][k - i - 1];
    PlainBody(x, i + 1, m, '\'');
    BodyStops(x, i + 1, m, '\'');
  }

  lemma {:induction false} PlainBody(x: Source, a: nat, m: nat, q: char)
    requires InText(x) && a <= m <= x.end
    requires forall k :: a <= k < m ==> x.text[k] != '\\' && x.text[k] != q && x.text[k] != '\n'
    ensures StringBody(x, a, m, q)
    decreases m - a
  {
    if a < m { PlainBody(x, a + 1, m, q); }
  }

  lemma {:induction false} PlainIsCooked(t: string)
    requires '\\' !in t
    ensures Cook(t) == Some(t)
  {
    if t != "" {
      PlainIsCooked(t[1..]);
      assert t == [t[0]] + t[1..];
    }
  }

  lemma LinkText(name: string, expr: string, t: string)
    requires t == Link((name, expr))
    ensures var b, a := "{" + name + "}", |name| + 11;
            && |t| == a + |expr| + 8 && t[0..1] == "." && t[1..6] == "split" && t[6..7] == "(" && t[7] == '\''
            && t[8..a - 1] == b && t[a - 1] == '\'' && t[a..a + 1] == ")" && t[a + 1..a + 2] == "."
            && t[a + 2..a + 6] == "join" && t[a + 6..a + 7] == "(" && t[a + 7..a + 7 + |expr|] == expr
            && t[a + 7 + |expr|] == ')'
  {
    var b, a := "{" + name + "}", |name| + 11;
    var front, mid := ".split('", "').join(";
    assert ".split('{" == front + "{" && "}').join(" == "}" + mid;
    LinkParts(front, name, mid, expr, t);
    assert t[..8] == front && t[8..a - 1] == b && t[a - 1..a + 7] == mid;
    SliceOf(t, 0, 8, front);
    SliceOf(t, a - 1, a + 7, mid);
    assert t[..8][7] == '\'' && t[a - 1..a + 7][0] == '\'';
  }

  lemma LinkParts(front: string, name: string, mid: string, expr: string, t: string)
    requires t == front + "{" + name + ("}" + mid) + expr + ")"
    ensures var a, b := |front|, |front| + |name| + 2;
            && |t| == b + |mid| + |expr| + 1 && t[..a] == front && t[a..b] == "{" + name + "}"
            && t[b..b + |mid|] == mid && t[b + |mid|..b + |mid| + |expr|] == expr && t[|t| - 1] == ')'
  {
  }

  lemma SliceOf(t: string, a: nat, b: nat, w: string)
    requires a <= b <= |t| && t[a..b] == w
    ensures forall i, j :: 0 <= i <= j <= |w| ==> t[a + i..a + j] == w[i..j]
  {
    forall i, j | 0 <= i <= j <= |w| ensures t[a + i..a + j] == w[i..j] {
      forall k | 0 <= k < j - i ensures t[a + i..a + j][k] == w[i..j][k] {
        assert w[i..j][k] == w[i + k] == t[a + (i + k)];
      }
    }
  }

  lemma CharOf(t: string, i: nat, j: nat, k: nat)
    requires i <= k < j <= |t|
    ensures t[k] == t[i..j][k - i]
  {
  }

  lemma SplitReads(name: string, expr: string, x: Source)
    requires IsName(name) && x.text == Link((name, expr)) && x.end == |x.text|
    ensures IsSplit(x, "{" + name + "}", |name| + 11)
  {
    var body := "{" + name + "}";
    LinkText(name, expr, x.text);
    CharOf(x.text, 1, 6, 1);
    CharOf(x.text, 6, 7, 6);
    PunctStands(x, 0, ".");
    WordStands(x, 1, "split");
    PunctStands(x, 6, "(");
    ArgumentStands(x, 7, body, name);
  }

  lemma ArgumentStands(x: Source, i: nat, body: string, name: string)
    requires IsName(name) && body == "{" + name + "}" && InText(x)
    requires i + |body| + 2 <= x.end && x.text[i] == '\'' && x.text[i + 1 + |body|] == '\''
    requires x.text[i + 1..i + 1 + |body|] == body
    ensures Stands(x, i, i + |body| + 2, Str, x.text[i..i + |body| + 2])
    ensures Cook(x.text[i + 1..i + 1 + |body|]) == Some(body)
  {
    NoneOf(body, name, '\\');
    NoneOf(body, name, '\'');
    NoneOf(body, name, '\n');
    StringStands(x, i, body);
    PlainIsCooked(body);
  }

  lemma NoneOf(body: string, name: string, c: char)
    requires IsName(name) && body == "{" + name + "}" && !IsNameChar(c) && c != '{' && c != '}'
    ensures c !in body
  {
  }

  lemma JoinReads(name: string, expr: string, x: Source)
    requires IsName(name) && x.text == Link((name, expr)) && x.end == |x.text|
    ensures IsJoin(x, |name| + 11, expr)
  {
    var a := |name| + 11;
    LinkText(name, expr, x.text);
    CharOf(x.text, a + 2, a + 6, a + 2);
    CharOf(x.text, a + 6, a + 7, a + 6);
    PunctStands(x, a, ")");
    PunctStands(x, a + 1, ".");
    WordStands(x, a + 2, "join");
    PunctStands(x, a + 6, "(");
  }

  /** A link reads as `split` at the placeholder and `join` with the expression. */
  lemma LinkReads(name: string, expr: string, x: Source)
    requires IsName(name) && x.text == Link((name, expr)) && x.end == |x.text|
    ensures exists a :: IsSplit(x, "{" + name + "}", a) && IsJoin(x, a, expr)
  {
    SplitReads(name, expr, x);
    JoinReads(name, expr, x);
  }
}

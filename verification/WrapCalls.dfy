/** A wrapped literal of tools/i18n_wrap.py on the page it is put in: one Jinja expression with the call in it, unless
    the literal ends in a backslash that escapes its closing quote. */
module WrapCalls {
  import opened Text
  import opened WrapSource
  import opened JinjaRegions
  import opened JinjaStrings

  /** The expression that is put in. */
  function Tag(call: string): string { "{{ " + call + " }}" }

  lemma {:induction false} BackslashesShift(src: string, lo: nat, seg: string, i: nat)
    requires i <= |seg| && lo + |seg| <= |src| && forall k :: 0 <= k < |seg| ==> src[lo + k] == seg[k]
    ensures Backslashes(src, lo, lo + i) == Backslashes(seg, 0, i)
  {
    if i > 0 { BackslashesShift(src, lo, seg, i - 1); }
  }

  /** From k on: two braces, a blank, `_(`, a quote at k + 5, the literal, the same quote, a bracket, a blank, two
      braces. */
  predicate TagStands(src: string, k: nat, q: char, seg: string) {
    var e := k + 6 + |seg|;
    && e + 5 <= |src| && IsQuote(q) && q !in seg
    && src[k] == '{' && src[k + 1] == '{' && src[k + 2] == ' ' && src[k + 3] == '_' && src[k + 4] == '('
      && src[k + 5] == q
    && (forall i :: 0 <= i < |seg| ==> src[k + 6 + i] == seg[i])
    && src[e] == q && src[e + 1] == ')' && src[e + 2] == ' ' && src[e + 3] == '}' && src[e + 4] == '}'
  }

  lemma CallStands(before: string, q: char, seg: string, call: string, after: string)
    requires IsQuote(q) && q !in seg && call == "_(" + [q] + seg + [q] + ")"
    ensures TagStands(before + Tag(call) + after, |before|, q, seg) && |Tag(call)| == |seg| + 11
  {
    var t := Tag(call);
    assert |t| == |seg| + 11;
    assert t[0] == '{' && t[1] == '{' && t[2] == ' ' && t[3] == '_' && t[4] == '(' && t[5] == q;
    assert forall i :: 0 <= i < |seg| ==> t[6 + i] == call[3 + i] == seg[i];
    var e := 6 + |seg|;
    assert t[e] == call[3 + |seg|] == q && t[e + 1] == call[4 + |seg|] == ')';
    assert t[e + 2] == ' ' && t[e + 3] == '}' && t[e + 4] == '}';
    var src := before + t + after;
    assert forall i :: 0 <= i < |t| ==> src[|before| + i] == t[i];
  }

  lemma PlainStep(src: string, j: nat)
    requires j < |src| && src[j] != '}' && !IsQuote(src[j])
    ensures TagStop(src, j, None, "}}") == TagStop(src, j + 1, None, "}}")
  {
    assert j + 2 <= |src| ==> src[j..j + 2][0] == src[j];
  }

  lemma QuoteStep(src: string, j: nat)
    requires j < |src| && IsQuote(src[j])
    ensures TagStop(src, j, None, "}}") == TagStop(src, j + 1, Some(src[j]), "}}")
  {
  }

  lemma BracesStop(src: string, j: nat)
    requires j + 1 < |src| && src[j] == '}' && src[j + 1] == '}'
    ensures TagStop(src, j, None, "}}") == j
  {
    assert src[j..j + 2] == "}}";
  }

  /** Up to the string. */
  lemma BeforeString(src: string, k: nat)
    requires k + 5 < |src| && src[k + 2] == ' ' && src[k + 3] == '_' && src[k + 4] == '(' && IsQuote(src[k + 5])
    ensures TagStop(src, k + 2, None, "}}") == TagStop(src, k + 6, Some(src[k + 5]), "}}")
  {
    PlainStep(src, k + 2);
    PlainStep(src, k + 3);
    PlainStep(src, k + 4);
    QuoteStep(src, k + 5);
  }

  /** From behind the string to the closing brackets. */
  lemma BehindString(src: string, e: nat)
    requires e + 4 < |src| && src[e + 1] == ')' && src[e + 2] == ' ' && src[e + 3] == '}' && src[e + 4] == '}'
    ensures TagStop(src, e + 1, None, "}}") == e + 3
  {
    PlainStep(src, e + 1);
    PlainStep(src, e + 2);
    BracesStop(src, e + 3);
  }

  /** The string closes at its quote unless that is escaped. */
  lemma StringClosesIff(src: string, k: nat, q: char, seg: string)
    requires TagStands(src, k, q, seg)
    ensures var e, r := k + 6 + |seg|, StringEnd(src, k + 6, q);
            && (r == Some(e) <==> Backslashes(seg, 0, |seg|) % 2 == 0)
            && (r.Some? ==> r.value == e || r.value > e + 4)
  {
    var e, r := k + 6 + |seg|, StringEnd(src, k + 6, q);
    StringEndCloses(src, k + 6, q);
    BackslashesShift(src, k + 6, seg, |seg|);
    forall i | k + 6 <= i < e ensures src[i] != q { assert src[k + 6 + (i - k - 6)] == seg[i - k - 6]; }
  }

  lemma StopIff(src: string, k: nat, q: char, seg: string)
    requires TagStands(src, k, q, seg)
    ensures TagStop(src, k + 2, None, "}}") == k + 9 + |seg| <==> Backslashes(seg, 0, |seg|) % 2 == 0
  {
    BeforeString(src, k);
    BehindString(src, k + 6 + |seg|);
    StringClosesIff(src, k, q, seg);
    StringStop(src, k + 6, q, k + 6 + |seg|);
  }

  lemma StringStop(src: string, lo: nat, q: char, e: nat)
    requires lo <= e && e + 5 <= |src| && IsQuote(q) && TagStop(src, e + 1, None, "}}") == e + 3
    requires var r := StringEnd(src, lo, q); r.Some? ==> r.value == e || r.value > e + 4
    ensures TagStop(src, lo, Some(q), "}}") == e + 3 <==> StringEnd(src, lo, q) == Some(e)
  {
    StopInString(src, lo, q, "}}");
  }

  /** The expression ends at its own brackets if and only if the literal does not end in an odd run of backslashes; then
      what stands in it is the call. */
  lemma TagEndsIff(before: string, seg: string, call: string, after: string)
    requires IsCall(seg, call)
    ensures var src := before + Tag(call) + after; var k := |before|;
            && OpensAt(src, k) && KindAt(src, k).Expr?
            && (TagStop(src, k + 2, None, "}}") == k + 4 + |call| <==> Backslashes(seg, 0, |seg|) % 2 == 0)
            && src[k + 2..k + 4 + |call|] == " " + call + " "
  {
    var q := if '\'' in seg then '"' else '\'';
    var src, k := before + Tag(call) + after, |before|;
    CallQuote(seg, call, q);
    CallStands(before, q, seg, call, after);
    StopIff(src, k, q, seg);
    InsideTag(before, call, after);
  }

  lemma CallQuote(seg: string, call: string, q: char)
    requires IsCall(seg, call) && q == if '\'' in seg then '"' else '\''
    ensures q !in seg && call == "_(" + [q] + seg + [q] + ")" && |call| == |seg| + 5
  {
  }

  lemma InsideTag(before: string, call: string, after: string)
    ensures var src := before + Tag(call) + after; var k := |before|;
            src[k + 2..k + 4 + |call|] == " " + call + " "
  {
    var t := Tag(call);
    assert t[2..|t| - 2] == " " + call + " ";
    var src, k := before + t + after, |before|;
    assert src[k..k + |t|] == t;
    assert src[k + 2..k + |t| - 2] == t[2..|t| - 2];
  }
}

/** The two wrapping passes of tools/i18n_wrap.py over protected text, and the whole of `wrap_source`. */
module WrapPasses {
  import opened Text
  import opened ProtectRestore
  import opened WrapSource

  // ------------------------------------------------------------------ the passes

  function Kept(s: string): (ps: seq<Piece>) {
    seq(|s|, i requires 0 <= i < |s| => Keep(s[i]))
  }

  function WrapOf(pre: string, l: Literal, post: string, spaced: bool): Piece {
    Wrap(pre, l.lead, l.seg, l.trail, post, l.call, spaced)
  }

  /** What a match becomes: wrapped if its text is to be wrapped, else kept. */
  function MatchPieces(pre: string, text: string, post: string, l: Option<Literal>, spaced: bool): seq<Piece> {
    if l.Some? then [WrapOf(pre, l.value, post, spaced)] else Kept(pre + text + post)
  }

  /** The end of the run of characters an attribute value may have. */
  function ValueEnd(text: string, i: nat): (j: nat)
    requires i <= |text|
    ensures i <= j <= |text| && forall k :: i <= k < j ==> InValue(text[k])
    decreases |text| - i
  {
    if i < |text| && InValue(text[i]) then ValueEnd(text, i + 1) else i
  }

  predicate InNode(c: char) { c != '<' && c != '>' }

  predicate InValue(c: char) { c != '"' && c != '\'' && c != '<' && c != '>' && c != '{' && c != '}' && c != NUL }

  /** The end of the run without angle brackets. */
  function NodeEnd(text: string, i: nat): (j: nat)
    requires i <= |text|
    ensures i <= j <= |text|
    decreases |text| - i
  {
    if i < |text| && InNode(text[i]) then NodeEnd(text, i + 1) else i
  }

  /** The end of the text node that starts behind the bracket at i, if there is one. */
  function NodeAt(text: string, i: nat): (r: Option<nat>)
    requires i < |text|
    ensures r.Some? ==> i + 1 < r.value < |text| && text[i] == '>' && text[r.value] == '<'
  {
    if text[i] != '>' then None
    else
      var j := NodeEnd(text, i + 1);
      if i + 1 < j < |text| && text[j] == '<' then Some(j) else None
  }

  /** `_wrap_text_nodes` from i on; `wrap` is its callback, given the text between the brackets. */
  function TextPieces(text: string, i: nat, wrap: string -> seq<Piece>): seq<Piece>
    requires i <= |text|
    decreases |text| - i
  {
    if i == |text| then []
    else
      var m := NodeAt(text, i);
      if m.None? then [Keep(text[i])] + TextPieces(text, i + 1, wrap)
      else wrap(text[i + 1..m.value]) + TextPieces(text, m.value + 1, wrap)
  }

  /** A name, white space and an equals sign: at least one character and no NUL. */
  ghost predicate HeadOk(head: (string, nat) -> Option<nat>) {
    forall t: string, i: nat {:trigger head(t, i)} :: i < |t| && head(t, i).Some?
      ==> i < head(t, i).value <= |t| && NulFree(t[i..head(t, i).value])
  }

  /** Where the attribute match at i has its opening and closing quotes, if there is one. `head` finds the name of a
      listed attribute and the equals sign behind it. */
  function AttrAt(text: string, i: nat, head: (string, nat) -> Option<nat>): (r: Option<(nat, nat)>)
    ensures r.Some? ==> head(text, i) == Some(r.value.0) && r.value.0 < r.value.1 < |text|
                        && text[r.value.0] == text[r.value.1]
    ensures r.Some? ==> IsMark(text[r.value.0]) && forall k :: r.value.0 < k < r.value.1 ==> InValue(text[k])
  {
    var e := head(text, i);
    if e.None? || e.value >= |text| || (text[e.value] != '"' && text[e.value] != '\'') then None
    else
      var j := ValueEnd(text, e.value + 1);
      if j < |text| && text[j] == text[e.value] then Some((e.value, j)) else None
  }

  /** `_wrap_attrs` from i on; `wrap` is its callback, given the text, the start of the match and its two quotes. */
  function AttrPieces(text: string, i: nat, wrap: (string, nat, nat, nat) -> seq<Piece>,
                      head: (string, nat) -> Option<nat>): seq<Piece>
    requires i <= |text| && HeadOk(head)
    decreases |text| - i
  {
    if i == |text| then []
    else
      var m := AttrAt(text, i, head);
      if m.None? then [Keep(text[i])] + AttrPieces(text, i + 1, wrap, head)
      else
        var e, j := m.value.0, m.value.1;
        wrap(text, i, e, j) + AttrPieces(text, j + 1, wrap, head)
  }

  // ------------------------------------------------------------------ the passes consist of proper pieces

  lemma OldStep(text: string, i: nat, j: nat, ps: seq<Piece>, rest: seq<Piece>)
    requires i <= j <= |text| && Old(ps) == text[i..j] && Old(rest) == text[j..]
    ensures Old(ps + rest) == text[i..]
  {
    ConcatAppend(Was, ps, rest);
    SliceTail(text, i, j);
  }

  lemma OldKeep(text: string, i: nat, rest: seq<Piece>)
    requires i < |text| && Old(rest) == text[i + 1..]
    ensures Old([Keep(text[i])] + rest) == text[i..]
  {
    ConcatOne(Was, Keep(text[i]));
    OldStep(text, i, i + 1, [Keep(text[i])], rest);
  }

  /** Text from between tags of a marked text: without NUL, or with the whole start of a placeholder. */
  ghost predicate Whole(body: string) {
    NulFree(body) || exists q :: 0 <= q < |body| - 1 && body[q] == NUL && body[q + 1] == SOH
  }

  ghost predicate NodesOk(wrap: string -> seq<Piece>, g: Piece -> bool) {
    (forall c :: g(Keep(c))) && forall body :: Whole(body) ==> PiecesOk(wrap(body), g)
  }

  ghost predicate NodesKept(wrap: string -> seq<Piece>) {
    forall body {:trigger wrap(body)} :: Old(wrap(body)) == ">" + body + "<"
  }

  /** Behind a tag's end, the first NUL is the start of a placeholder. */
  ghost predicate SafeMarks(text: string) {
    forall i, p :: 0 <= i < p < |text| && text[i] == '>' && FirstNulAt(text, i, p)
      ==> p + 1 < |text| && text[p + 1] == SOH
  }

  ghost predicate FirstNulAt(text: string, i: int, p: int) {
    0 <= i < p < |text| && text[p] == NUL && forall q :: i <= q < p ==> text[q] != NUL
  }

  lemma SafeMarksStep(g: string, k: nat, t: string)
    requires NulFree(g) && SafeMarks(t)
    ensures SafeMarks(g + Sent(k) + t)
  {
    var s := Sent(k);
    var w, n := g + s + t, |g| + |s|;
    assert s[0] == NUL && s[1] == SOH && '>' !in s;
    assert forall i :: 0 <= i < |g| ==> w[i] == g[i];
    assert forall i :: |g| <= i < n ==> w[i] == s[i - |g|];
    assert forall i :: n <= i < |w| ==> w[i] == t[i - n];
    assert w[|g|] == NUL && w[|g| + 1] == SOH;
    forall i, p | 0 <= i < p < |w| && w[i] == '>' && FirstNulAt(w, i, p) ensures p + 1 < |w| && w[p + 1] == SOH {
      if i < |g| {
        assert p == |g|;
      } else {
        assert n <= i;
        forall q | i - n <= q < p - n ensures t[q] != NUL { assert w[q + n] == t[q]; }
        assert FirstNulAt(t, i - n, p - n);
      }
    }
  }

  lemma {:induction false} MarkedIsSafe(gaps: seq<string>, k: nat)
    requires |gaps| >= 1 && AllNulFree(gaps)
    ensures SafeMarks(Marked(gaps, k))
    decreases |gaps|
  {
    assert NulFree(gaps[0]);
    if |gaps| > 1 {
      MarkedIsSafe(gaps[1..], k + 1);
      SafeMarksStep(gaps[0], k, Marked(gaps[1..], k + 1));
    }
  }

  function FirstNul(s: string, i: nat): (p: nat)
    requires i <= |s|
    ensures i <= p <= |s| && (forall q :: i <= q < p ==> s[q] != NUL) && (p < |s| ==> s[p] == NUL)
    decreases |s| - i
  {
    if i == |s| || s[i] == NUL then i else FirstNul(s, i + 1)
  }

  lemma NodeIsWhole(text: string, i: nat, j: nat)
    requires SafeMarks(text) && i + 1 < j < |text| && text[i] == '>' && text[j] == '<'
    ensures Whole(text[i + 1..j])
  {
    var body := text[i + 1..j];
    if !NulFree(body) {
      var p := FirstNul(text, i + 1);
      assert p < j;
      assert FirstNulAt(text, i, p);
      var q := p - i - 1;
      assert body[q] == NUL && body[q + 1] == SOH;
    }
  }

  lemma {:induction false} TextPiecesOk(text: string, i: nat, wrap: string -> seq<Piece>, g: Piece -> bool)
    requires SafeMarks(text) && NodesOk(wrap, g) && i <= |text|
    ensures PiecesOk(TextPieces(text, i, wrap), g)
    decreases |text| - i
  {
    if i < |text| {
      var m := NodeAt(text, i);
      TextPiecesOk(text, if m.None? then i + 1 else m.value + 1, wrap, g);
      if m.Some? { NodeIsWhole(text, i, m.value); }
    }
  }

  lemma NodeOldStep(text: string, i: nat, j: nat, wrap: string -> seq<Piece>, rest: seq<Piece>)
    requires NodesKept(wrap) && i + 1 < j < |text| && text[i] == '>' && text[j] == '<' && Old(rest) == text[j + 1..]
    ensures Old(wrap(text[i + 1..j]) + rest) == text[i..]
  {
    assert ">" + text[i + 1..j] + "<" == text[i..j + 1];
    OldStep(text, i, j + 1, wrap(text[i + 1..j]), rest);
  }

  lemma {:induction false} TextPiecesOld(text: string, i: nat, wrap: string -> seq<Piece>)
    requires NodesKept(wrap) && i <= |text|
    ensures Old(TextPieces(text, i, wrap)) == text[i..]
    decreases |text| - i
  {
    if i < |text| {
      var m := NodeAt(text, i);
      var next := if m.None? then i + 1 else m.value + 1;
      var rest := TextPieces(text, next, wrap);
      assert Old(rest) == text[next..] by { TextPiecesOld(text, next, wrap); }
      if m.None? {
        OldKeep(text, i, rest);
      } else {
        NodeOldStep(text, i, m.value, wrap, rest);
      }
    }
  }

  /** A name without NUL, a quote, a value, and the same quote. */
  ghost predicate IsAttr(text: string, i: nat, e: nat, j: nat) {
    && i < e < j < |text| && NulFree(text[i..e]) && IsMark(text[e]) && text[j] == text[e]
    && forall k :: e < k < j ==> InValue(text[k])
  }

  ghost predicate ValuesOk(wrap: (string, nat, nat, nat) -> seq<Piece>, g: Piece -> bool) {
    && (forall c :: g(Keep(c)))
    && forall text, i, e, j :: IsAttr(text, i, e, j) ==> PiecesOk(wrap(text, i, e, j), g)
  }

  ghost predicate ValuesKept(wrap: (string, nat, nat, nat) -> seq<Piece>) {
    forall text, i: nat, e: nat, j: nat {:trigger wrap(text, i, e, j)} :: i <= e < j < |text|
      ==> Old(wrap(text, i, e, j)) == text[i..j + 1]
  }

  lemma {:induction false} AttrPiecesOk(text: string, i: nat, wrap: (string, nat, nat, nat) -> seq<Piece>,
                                        head: (string, nat) -> Option<nat>, g: Piece -> bool)
    requires HeadOk(head) && ValuesOk(wrap, g) && i <= |text|
    ensures PiecesOk(AttrPieces(text, i, wrap, head), g)
    decreases |text| - i
  {
    if i < |text| {
      var m := AttrAt(text, i, head);
      AttrPiecesOk(text, if m.None? then i + 1 else m.value.1 + 1, wrap, head, g);
      assert m.Some? ==> IsAttr(text, i, m.value.0, m.value.1);
    }
  }

  lemma AttrOldStep(text: string, i: nat, e: nat, j: nat, wrap: (string, nat, nat, nat) -> seq<Piece>, rest: seq<Piece>)
    requires ValuesKept(wrap) && i <= e < j < |text| && Old(rest) == text[j + 1..]
    ensures Old(wrap(text, i, e, j) + rest) == text[i..]
  {
    OldStep(text, i, j + 1, wrap(text, i, e, j), rest);
  }

  lemma {:induction false} AttrPiecesOld(text: string, i: nat, wrap: (string, nat, nat, nat) -> seq<Piece>,
                                         head: (string, nat) -> Option<nat>)
    requires HeadOk(head) && ValuesKept(wrap) && i <= |text|
    ensures Old(AttrPieces(text, i, wrap, head)) == text[i..]
    decreases |text| - i
  {
    if i < |text| {
      var m := AttrAt(text, i, head);
      var next := if m.None? then i + 1 else m.value.1 + 1;
      var rest := AttrPieces(text, next, wrap, head);
      assert Old(rest) == text[next..] by { AttrPiecesOld(text, next, wrap, head); }
      if m.None? {
        OldKeep(text, i, rest);
      } else {
        AttrOldStep(text, i, m.value.0, m.value.1, wrap, rest);
      }
    }
  }

  // ------------------------------------------------------------------ the callbacks

  /** The callback of `_wrap_text_nodes`. */
  function NodeWrap(arabic: char -> bool): string -> seq<Piece> {
    body => MatchPieces(">", body, "<", NodeLiteral(body, arabic), true)
  }

  /** The callback of `_wrap_attrs`. */
  function ValueWrap(arabic: char -> bool): (string, nat, nat, nat) -> seq<Piece> {
    (text: string, i: nat, e: nat, j: nat) =>
      if i <= e < j < |text|
      then MatchPieces(text[i..e + 1], text[e + 1..j], [text[j]], ValueLiteral(text[e + 1..j], arabic), false) else []
  }

  /** The literal is plain text, and the call has it between quotes. */
  predicate Genuine(p: Piece) { p.Wrap? ==> IsCall(p.seg, p.call) }

  lemma CallIsNulFree(seg: string)
    requires WrapLiteral(seg).Some? && NulFree(seg)
    ensures NulFree(WrapLiteral(seg).value)
  {
  }

  /** Two neighbours that are not white space stay neighbours when the text is stripped. */
  lemma StripKeepsPair(s: string, q: nat, c: char, d: char)
    requires q + 1 < |s| && s[q] == c && s[q + 1] == d && !IsSpace(c) && !IsSpace(d)
    ensures Occurs([c, d], Strip(s))
  {
    var a, b := SpaceEnd(s, 0), SpaceStart(s, |s|);
    assert a <= q && q + 1 < b;
    var r := Strip(s);
    assert r[q - a] == c && r[q - a + 1] == d;
    assert r[q - a..q - a + 2] == [c, d];
    assert StartsAt(r, q - a, [c, d]);
  }

  lemma MarkedIsRejected(s: string, q: nat)
    requires q + 1 < |s| && s[q] == NUL && s[q + 1] == SOH
    ensures LiteralOf(s).None?
  {
    StripKeepsPair(s, q, NUL, SOH);
  }

  lemma {:induction false} OldKept(s: string)
    ensures Old(Kept(s)) == s
  {
    if s != "" {
      assert Kept(s)[1..] == Kept(s[1..]);
      OldKept(s[1..]);
      assert s == [s[0]] + s[1..];
    }
  }

  lemma MatchPiecesOk(pre: string, text: string, post: string, l: Option<Literal>, spaced: bool)
    requires pre != "" && IsMark(pre[|pre| - 1]) && LiteralOk(text, l) && (l.Some? ==> NulFree(pre + text + post))
    ensures PiecesOk(MatchPieces(pre, text, post, l, spaced), Genuine)
  {
    if l.Some? {
      assert NulFree(l.value.seg) by { assert forall c :: c in l.value.seg ==> c in text && c in pre + text + post; }
      CallIsNulFree(l.value.seg);
      LiteralIsCall(l.value.seg, l.value.call);
    }
  }

  lemma MatchPiecesOld(pre: string, text: string, post: string, l: Option<Literal>, spaced: bool)
    requires LiteralOk(text, l)
    ensures Old(MatchPieces(pre, text, post, l, spaced)) == pre + text + post
  {
    if l.Some? {
      ConcatOne(Was, WrapOf(pre, l.value, post, spaced));
    } else {
      OldKept(pre + text + post);
    }
  }

  lemma NodePiecesOld(body: string, arabic: char -> bool)
    requires NotBlank(arabic)
    ensures Old(NodeWrap(arabic)(body)) == ">" + body + "<"
  {
    LiteralsOk(body, arabic);
    MatchPiecesOld(">", body, "<", NodeLiteral(body, arabic), true);
  }

  lemma NodePiecesOk(body: string, arabic: char -> bool)
    requires NotBlank(arabic) && Whole(body)
    ensures PiecesOk(NodeWrap(arabic)(body), Genuine)
  {
    LiteralsOk(body, arabic);
    if !NulFree(body) {
      var q :| 0 <= q < |body| - 1 && body[q] == NUL && body[q + 1] == SOH;
      MarkedIsRejected(body, q);
    }
    MatchPiecesOk(">", body, "<", NodeLiteral(body, arabic), true);
  }

  lemma NodeWrapOk(arabic: char -> bool)
    requires NotBlank(arabic)
    ensures NodesOk(NodeWrap(arabic), Genuine) && NodesKept(NodeWrap(arabic))
  {
    forall body ensures Old(NodeWrap(arabic)(body)) == ">" + body + "<" { NodePiecesOld(body, arabic); }
    forall body | Whole(body) ensures PiecesOk(NodeWrap(arabic)(body), Genuine) { NodePiecesOk(body, arabic); }
  }

  lemma AttrParts(text: string, i: nat, e: nat, j: nat)
    requires i <= e < j < |text|
    ensures text[i..e + 1] + text[e + 1..j] + [text[j]] == text[i..j + 1]
  {
    SliceJoin(text, i, e + 1, j);
    assert text[i..j] + [text[j]] == text[i..j + 1];
  }

  lemma AttrIsNulFree(text: string, i: nat, e: nat, j: nat)
    requires IsAttr(text, i, e, j)
    ensures NulFree(text[i..j + 1]) && IsMark(text[i..e + 1][|text[i..e + 1]| - 1])
  {
    var w := text[i..j + 1];
    forall k | 0 <= k < |w| ensures w[k] != NUL {
      if i + k < e { assert text[i..e][k] == text[i + k]; }
    }
  }

  lemma ValuePiecesOld(text: string, i: nat, e: nat, j: nat, arabic: char -> bool)
    requires NotBlank(arabic) && i <= e < j < |text|
    ensures Old(ValueWrap(arabic)(text, i, e, j)) == text[i..j + 1]
  {
    AttrParts(text, i, e, j);
    LiteralsOk(text[e + 1..j], arabic);
    MatchPiecesOld(text[i..e + 1], text[e + 1..j], [text[j]], ValueLiteral(text[e + 1..j], arabic), false);
  }

  lemma ValuePiecesOk(text: string, i: nat, e: nat, j: nat, arabic: char -> bool)
    requires NotBlank(arabic) && IsAttr(text, i, e, j)
    ensures PiecesOk(ValueWrap(arabic)(text, i, e, j), Genuine)
  {
    AttrParts(text, i, e, j);
    AttrIsNulFree(text, i, e, j);
    LiteralsOk(text[e + 1..j], arabic);
    MatchPiecesOk(text[i..e + 1], text[e + 1..j], [text[j]], ValueLiteral(text[e + 1..j], arabic), false);
  }

  lemma ValueWrapOk(arabic: char -> bool)
    requires NotBlank(arabic)
    ensures ValuesOk(ValueWrap(arabic), Genuine) && ValuesKept(ValueWrap(arabic))
  {
    forall text, i: nat, e: nat, j: nat | i <= e < j < |text|
      ensures Old(ValueWrap(arabic)(text, i, e, j)) == text[i..j + 1]
    {
      ValuePiecesOld(text, i, e, j, arabic);
    }
    forall text, i, e, j | IsAttr(text, i, e, j) ensures PiecesOk(ValueWrap(arabic)(text, i, e, j), Genuine) {
      ValuePiecesOk(text, i, e, j, arabic);
    }
  }

  // ------------------------------------------------------------------ the regions come through

  /** The result is the source with its gaps wrapped in two passes: every protected region is there, unchanged and in
      its place, and all that happened to a gap is that literals were wrapped. */
  ghost predicate Survives(src: string, ranges: seq<(nat, nat)>, out: string)
    requires Matches(src, ranges, 0)
  {
    exists mid, gaps' :: GapsPass(Genuine, Gaps(src, ranges, 0), mid) && GapsPass(Genuine, mid, gaps')
                         && out == Interleave(gaps', Regions(src, ranges, 0))
  }

  lemma PassesSurvive(src: string, ranges: seq<(nat, nat)>, arabic: char -> bool, head: (string, nat) -> Option<nat>)
    requires Matches(src, ranges, 0) && HeadOk(head) && NotBlank(arabic) && NulFree(src)
             && !Deceptive(Gaps(src, ranges, 0), 0)
    ensures var text1 := New(AttrPieces(Marked(Gaps(src, ranges, 0), 0), 0, ValueWrap(arabic), head));
            Survives(src, ranges, RestoreFrom(New(TextPieces(text1, 0, NodeWrap(arabic))), Regions(src, ranges, 0), 0))
  {
    var gaps, store := Gaps(src, ranges, 0), Regions(src, ranges, 0);
    GapsAndRegions(src, ranges, 0);
    ValueWrapOk(arabic);
    NodeWrapOk(arabic);
    AttrPiecesOk(Marked(gaps, 0), 0, ValueWrap(arabic), head, Genuine);
    AttrPiecesOld(Marked(gaps, 0), 0, ValueWrap(arabic), head);
    var mid := PassKeepsPlaceholders(AttrPieces(Marked(gaps, 0), 0, ValueWrap(arabic), head), Genuine, gaps, 0);
    PassDeceivesNoMore(Genuine, gaps, mid);
    MarkedIsSafe(mid, 0);
    TextPiecesOk(Marked(mid, 0), 0, NodeWrap(arabic), Genuine);
    TextPiecesOld(Marked(mid, 0), 0, NodeWrap(arabic));
    var gaps' := PassKeepsPlaceholders(TextPieces(Marked(mid, 0), 0, NodeWrap(arabic)), Genuine, mid, 0);
    PassDeceivesNoMore(Genuine, mid, gaps');
    RestoreUndoesProtectIff(gaps', store);
  }

  /** `wrap_source`, given the matches of the protecting pattern: the new text and the number of wrapped literals. */
  method Rewrite(src: string, ranges: seq<(nat, nat)>, arabic: char -> bool, head: (string, nat) -> Option<nat>)
    returns (out: string, n: nat)
    requires Matches(src, ranges, 0) && HeadOk(head) && NotBlank(arabic)
    ensures NulFree(src) && !Deceptive(Gaps(src, ranges, 0), 0)
            ==> Survives(src, ranges, out) && (n == 0 ==> out == src)
  {
    var text, store := Protect(src, ranges);
    var attrs := AttrPieces(text, 0, ValueWrap(arabic), head);
    var nodes := TextPieces(New(attrs), 0, NodeWrap(arabic));
    out := Restore(New(nodes), store);
    n := Count(attrs) + Count(nodes);
    if NulFree(src) && !Deceptive(Gaps(src, ranges, 0), 0) {
      PassesSurvive(src, ranges, arabic, head);
      if n == 0 { NothingWrapped(src, ranges, arabic, head); }
    }
  }

  lemma {:induction false} NoWrapNoChange(ps: seq<Piece>)
    requires Count(ps) == 0
    ensures New(ps) == Old(ps)
  {
    if ps != [] { NoWrapNoChange(ps[1..]); }
  }

  /** A source in which nothing is wrapped comes back as it was. */
  lemma NothingWrapped(src: string, ranges: seq<(nat, nat)>, arabic: char -> bool, head: (string, nat) -> Option<nat>)
    requires Matches(src, ranges, 0) && HeadOk(head) && NotBlank(arabic) && NulFree(src)
             && !Deceptive(Gaps(src, ranges, 0), 0)
    requires var attrs := AttrPieces(Marked(Gaps(src, ranges, 0), 0), 0, ValueWrap(arabic), head);
             Count(attrs) == 0 && Count(TextPieces(New(attrs), 0, NodeWrap(arabic))) == 0
    ensures var attrs := AttrPieces(Marked(Gaps(src, ranges, 0), 0), 0, ValueWrap(arabic), head);
            RestoreFrom(New(TextPieces(New(attrs), 0, NodeWrap(arabic))), Regions(src, ranges, 0), 0) == src
  {
    var text := Marked(Gaps(src, ranges, 0), 0);
    var attrs := AttrPieces(text, 0, ValueWrap(arabic), head);
    ValueWrapOk(arabic);
    NodeWrapOk(arabic);
    NoWrapNoChange(attrs);
    AttrPiecesOld(text, 0, ValueWrap(arabic), head);
    assert text[0..] == text;
    NoWrapNoChange(TextPieces(text, 0, NodeWrap(arabic)));
    TextPiecesOld(text, 0, NodeWrap(arabic));
    GapsAndRegions(src, ranges, 0);
    assert src[0..] == src;
    RestoreUndoesProtectIff(Gaps(src, ranges, 0), Regions(src, ranges, 0));
  }
}

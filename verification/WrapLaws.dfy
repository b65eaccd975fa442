/** Which literals the passes of tools/i18n_wrap.py wrap, read off the text, and what a wrapped literal is: one Jinja
    expression with the literal in it. */
module WrapLaws {
  import opened Text
  import opened ProtectRestore
  import opened WrapSource
  import opened WrapPasses

  // ------------------------------------------------------------------ where a piece stands

  /** Piece p starts at position a of the text, when the first piece starts at off. */
  ghost predicate PieceAt(ps: seq<Piece>, off: nat, a: nat, p: Piece) {
    exists k: nat :: k < |ps| && off + |Old(ps[..k])| == a && ps[k] == p
  }

  lemma InFirst(xs: seq<Piece>, ys: seq<Piece>, k: nat)
    requires k < |xs|
    ensures (xs + ys)[k] == xs[k] && Old((xs + ys)[..k]) == Old(xs[..k])
  {
    assert (xs + ys)[..k] == xs[..k];
  }

  lemma InSecond(xs: seq<Piece>, ys: seq<Piece>, k: nat)
    requires k < |ys|
    ensures (xs + ys)[|xs| + k] == ys[k] && |Old((xs + ys)[..|xs| + k])| == |Old(xs)| + |Old(ys[..k])|
  {
    assert (xs + ys)[..|xs| + k] == xs + ys[..k];
    ConcatAppend(Was, xs, ys[..k]);
  }

  lemma PieceAtAppend(xs: seq<Piece>, ys: seq<Piece>, off: nat, a: nat, p: Piece)
    ensures PieceAt(xs + ys, off, a, p) <==> PieceAt(xs, off, a, p) || PieceAt(ys, off + |Old(xs)|, a, p)
  {
    if k: nat :| k < |xs| && off + |Old(xs[..k])| == a && xs[k] == p { InFirst(xs, ys, k); }
    if k: nat :| k < |ys| && off + |Old(xs)| + |Old(ys[..k])| == a && ys[k] == p { InSecond(xs, ys, k); }
    if k: nat :| k < |xs + ys| && off + |Old((xs + ys)[..k])| == a && (xs + ys)[k] == p {
      if k < |xs| { InFirst(xs, ys, k); } else { InSecond(xs, ys, k - |xs|); }
    }
  }

  lemma OnePiece(q: Piece, off: nat, a: nat, p: Piece)
    ensures PieceAt([q], off, a, p) <==> a == off && q == p
  {
    assert [q][..0] == [] && |Old([])| == 0;
    if a == off && q == p { assert off + |Old([q][..0])| == a && [q][0] == p; }
  }

  lemma NoWrapKept(s: string, off: nat, a: nat, p: Piece)
    requires p.Wrap?
    ensures !PieceAt(Kept(s), off, a, p)
  {
  }

  // ------------------------------------------------------------------ text between tags

  /** Text from the end of a tag at a to the beginning of the next at b, with none between. */
  predicate IsNode(text: string, a: nat, b: nat) {
    && a + 1 < b < |text| && text[a] == '>' && text[b] == '<'
    && forall k :: a < k < b ==> text[k] != '<' && text[k] != '>'
  }

  /** Stripped, the text is Arabic in part, plain, and does not need both quotes. */
  predicate ToWrap(s: string, arabic: char -> bool) {
    var t := Strip(s);
    && (exists i :: 0 <= i < |t| && arabic(t[i]))
    && IsPlain(t) && !('\'' in t && '"' in t)
  }

  /** The piece for such text: its white space stays around the call. */
  ghost predicate WrapsText(p: Piece, body: string) {
    && p.Wrap? && p.pre == ">" && p.post == "<" && p.lead + p.seg + p.trail == body && p.seg == Strip(body)
    && IsCall(p.seg, p.call) && Becomes(p) == ">" + p.lead + "{{ " + p.call + " }}" + p.trail + "<"
  }

  lemma {:induction false} NodeEndIs(text: string, i: nat)
    requires i <= |text|
    ensures var j := NodeEnd(text, i);
            (forall k :: i <= k < j ==> InNode(text[k])) && (j < |text| ==> !InNode(text[j]))
    decreases |text| - i
  {
    if i < |text| && InNode(text[i]) { NodeEndIs(text, i + 1); }
  }

  lemma NodeIff(text: string, a: nat, b: nat)
    requires a < |text|
    ensures NodeAt(text, a) == Some(b) <==> IsNode(text, a, b)
  {
    if text[a] == '>' { NodeEndIs(text, a + 1); }
  }

  lemma CallExists(seg: string)
    ensures WrapLiteral(seg).Some? <==> IsPlain(seg) && !('\'' in seg && '"' in seg)
  {
  }

  lemma LiteralIff(body: string, arabic: char -> bool)
    ensures NodeLiteral(body, arabic).Some? <==> ToWrap(body, arabic)
  {
    CallExists(Strip(body));
    var t := Strip(body);
    if i :| 0 <= i < |t| && arabic(t[i]) {
      var a := SpaceEnd(body, 0);
      assert body[a + i] == t[i];
    }
  }

  lemma WrapOfNode(body: string, arabic: char -> bool)
    requires ToWrap(body, arabic) && NotBlank(arabic)
    ensures NodeLiteral(body, arabic).Some?
    ensures WrapsText(WrapOf(">", NodeLiteral(body, arabic).value, "<", true), body)
  {
    LiteralIff(body, arabic);
    LiteralsOk(body, arabic);
    var l := NodeLiteral(body, arabic).value;
    LiteralIsCall(l.seg, l.call);
  }

  /** What stands at position a: the piece for the text that starts there, if it is to be wrapped. */
  ghost predicate NodePiece(text: string, arabic: char -> bool, a: nat, p: Piece) {
    exists b: nat :: IsNode(text, a, b) && ToWrap(text[a + 1..b], arabic)
                     && NodeLiteral(text[a + 1..b], arabic).Some?
                     && p == WrapOf(">", NodeLiteral(text[a + 1..b], arabic).value, "<", true)
  }

  lemma NodePieceHere(text: string, arabic: char -> bool, i: nat, m: nat, a: nat, p: Piece)
    requires i < |text| && NodeAt(text, i) == Some(m) && p.Wrap?
    ensures PieceAt(NodeWrap(arabic)(text[i + 1..m]), i, a, p) <==> a == i && NodePiece(text, arabic, i, p)
  {
    var body := text[i + 1..m];
    NodeIff(text, i, m);
    LiteralIff(body, arabic);
    forall b: nat | IsNode(text, i, b) ensures b == m { NodeIff(text, i, b); }
    MatchPiecesAt(">", body, "<", NodeLiteral(body, arabic), true, i, a, p);
  }

  /** From position i on exactly the texts that are to be wrapped are. */
  ghost predicate NodesFrom(text: string, arabic: char -> bool, i: nat, ps: seq<Piece>, a: nat, p: Piece) {
    PieceAt(ps, i, a, p) <==> i <= a && NodePiece(text, arabic, a, p)
  }

  lemma KeepStep(text: string, arabic: char -> bool, i: nat, rest: seq<Piece>, a: nat, p: Piece)
    requires i < |text| && NodeAt(text, i).None? && p.Wrap? && NodesFrom(text, arabic, i + 1, rest, a, p)
    ensures NodesFrom(text, arabic, i, [Keep(text[i])] + rest, a, p)
  {
    PieceAtAppend([Keep(text[i])], rest, i, a, p);
    OnePiece(Keep(text[i]), i, a, p);
    ConcatOne(Was, Keep(text[i]));
    forall b: nat ensures !IsNode(text, i, b) { NodeIff(text, i, b); }
  }

  lemma MatchStep(text: string, arabic: char -> bool, i: nat, m: nat, rest: seq<Piece>, a: nat, p: Piece)
    requires i < |text| && NodeAt(text, i) == Some(m) && NotBlank(arabic) && p.Wrap?
    requires NodesFrom(text, arabic, m + 1, rest, a, p)
    ensures NodesFrom(text, arabic, i, NodeWrap(arabic)(text[i + 1..m]) + rest, a, p)
  {
    var body := text[i + 1..m];
    PieceAtAppend(NodeWrap(arabic)(body), rest, i, a, p);
    NodePieceHere(text, arabic, i, m, a, p);
    NodePiecesOld(body, arabic);
    assert |">" + body + "<"| == m + 1 - i;
    NodeIff(text, i, m);
    NoNodeInside(text, arabic, i, m, a, p);
  }

  lemma NoNodeInside(text: string, arabic: char -> bool, i: nat, m: nat, a: nat, p: Piece)
    requires IsNode(text, i, m)
    ensures i < a <= m ==> !NodePiece(text, arabic, a, p)
  {
  }

  /** Where the search goes on from i. */
  function NextNode(text: string, i: nat): (n: nat)
    requires i < |text|
    ensures i < n <= |text|
  {
    if NodeAt(text, i).None? then i + 1 else NodeAt(text, i).value + 1
  }

  lemma NodesStep(text: string, i: nat, arabic: char -> bool, a: nat, p: Piece)
    requires i < |text| && NotBlank(arabic) && p.Wrap?
    requires NodesFrom(text, arabic, NextNode(text, i), TextPieces(text, NextNode(text, i), NodeWrap(arabic)), a, p)
    ensures NodesFrom(text, arabic, i, TextPieces(text, i, NodeWrap(arabic)), a, p)
  {
    var rest := TextPieces(text, NextNode(text, i), NodeWrap(arabic));
    if NodeAt(text, i).None? {
      KeepStep(text, arabic, i, rest, a, p);
    } else {
      MatchStep(text, arabic, i, NodeAt(text, i).value, rest, a, p);
    }
  }

  /** The text pass wraps exactly the texts that are to be wrapped. */
  lemma {:induction false} NodesWrapped(text: string, i: nat, arabic: char -> bool, a: nat, p: Piece)
    requires i <= |text| && NotBlank(arabic) && p.Wrap?
    ensures NodesFrom(text, arabic, i, TextPieces(text, i, NodeWrap(arabic)), a, p)
    decreases |text| - i
  {
    if i < |text| {
      NodesWrapped(text, NextNode(text, i), arabic, a, p);
      NodesStep(text, i, arabic, a, p);
    }
  }

  /** So: a wrapped literal stands at a if and only if text that is to be wrapped starts there. */
  lemma TextPassWrapsIff(text: string, arabic: char -> bool, a: nat)
    requires NotBlank(arabic)
    ensures (exists p: Piece :: p.Wrap? && PieceAt(TextPieces(text, 0, NodeWrap(arabic)), 0, a, p))
            <==> exists b: nat :: IsNode(text, a, b) && ToWrap(text[a + 1..b], arabic)
    ensures var ps := TextPieces(text, 0, NodeWrap(arabic));
            forall p: Piece, b: nat :: p.Wrap? && PieceAt(ps, 0, a, p) && IsNode(text, a, b) ==>
              WrapsText(p, text[a + 1..b])
  {
    forall p: Piece | p.Wrap?
      ensures PieceAt(TextPieces(text, 0, NodeWrap(arabic)), 0, a, p) <==> NodePiece(text, arabic, a, p)
    {
      NodesWrapped(text, 0, arabic, a, p);
    }
    forall b: nat | IsNode(text, a, b) && ToWrap(text[a + 1..b], arabic)
      ensures NodeLiteral(text[a + 1..b], arabic).Some?
      ensures var p := WrapOf(">", NodeLiteral(text[a + 1..b], arabic).value, "<", true);
              NodePiece(text, arabic, a, p) && WrapsText(p, text[a + 1..b])
    {
      WrapOfNode(text[a + 1..b], arabic);
    }
    forall b: nat, b': nat | IsNode(text, a, b) && IsNode(text, a, b') ensures b == b' {
      NodeIff(text, a, b);
      NodeIff(text, a, b');
    }
  }

  // ------------------------------------------------------------------ attributes

  /** A listed attribute from a on, with its quotes at e and j. */
  ghost predicate AttrRead(text: string, head: (string, nat) -> Option<nat>, a: nat, e: nat, j: nat) {
    && head(text, a) == Some(e) && e < j < |text| && (text[e] == '"' || text[e] == '\'') && text[j] == text[e]
    && forall k :: e < k < j ==> text[k] !in "\"'<>{}" && text[k] != NUL
  }

  /** Where the search goes on from i: behind an attribute that starts there, else at the next character. */
  ghost function Next(text: string, head: (string, nat) -> Option<nat>, i: nat): (n: nat)
    ensures n > i || exists e: nat, j: nat :: AttrRead(text, head, i, e, j) && j < i
  {
    if e: nat, j: nat :| AttrRead(text, head, i, e, j) then j + 1 else i + 1
  }

  /** The search from i on comes to position a. */
  ghost predicate Visited(text: string, head: (string, nat) -> Option<nat>, i: nat, a: nat)
    decreases a - i
  {
    i == a || (i < a && i < Next(text, head, i) && Visited(text, head, Next(text, head, i), a))
  }

  /** The piece for such a value: its white space is dropped. */
  ghost predicate WrapsValue(p: Piece, pre: string, value: string, quote: char) {
    && p.Wrap? && p.pre == pre && p.post == [quote] && p.lead + p.seg + p.trail == value && p.seg == Strip(value)
    && IsCall(p.seg, p.call) && Becomes(p) == pre + "{{ " + p.call + " }}" + [quote]
  }

  lemma AttrIff(text: string, head: (string, nat) -> Option<nat>, a: nat, e: nat, j: nat)
    ensures AttrAt(text, a, head) == Some((e, j)) <==> AttrRead(text, head, a, e, j)
  {
    if AttrRead(text, head, a, e, j) {
      forall k | e < k < j ensures InValue(text[k]) {
        assert text[k] != "\"'<>{}"[0] && text[k] != "\"'<>{}"[1] && text[k] != "\"'<>{}"[2] && text[k] != "\"'<>{}"[3]
               && text[k] != "\"'<>{}"[4] && text[k] != "\"'<>{}"[5];
      }
      ValueEndIs(text, e + 1, j);
    }
  }

  lemma {:induction false} ValueEndIs(text: string, i: nat, j: nat)
    requires i <= j < |text| && !InValue(text[j]) && forall k :: i <= k < j ==> InValue(text[k])
    ensures ValueEnd(text, i) == j
    decreases j - i
  {
    if i < j { ValueEndIs(text, i + 1, j); }
  }

  lemma ValueLiteralIff(value: string, arabic: char -> bool)
    requires NotBlank(arabic)
    ensures ValueLiteral(value, arabic).Some? <==> ToWrap(value, arabic)
  {
    CallExists(Strip(value));
    var t := Strip(value);
    var a, b := SpaceEnd(value, 0), SpaceStart(value, |value|);
    if i :| 0 <= i < |value| && arabic(value[i]) {
      assert !IsSpace(value[i]) && a <= i < b;
      assert t[i - a] == value[i];
    }
    if i :| 0 <= i < |t| && arabic(t[i]) { assert value[a + i] == t[i]; }
  }

  lemma WrapOfValue(pre: string, value: string, quote: char, arabic: char -> bool)
    requires ToWrap(value, arabic) && NotBlank(arabic)
    ensures ValueLiteral(value, arabic).Some?
    ensures WrapsValue(WrapOf(pre, ValueLiteral(value, arabic).value, [quote], false), pre, value, quote)
  {
    ValueLiteralIff(value, arabic);
    LiteralsOk(value, arabic);
    var l := ValueLiteral(value, arabic).value;
    LiteralIsCall(l.seg, l.call);
    NoBlanks(pre, l.call, [quote]);
  }

  lemma NoBlanks(pre: string, call: string, post: string)
    ensures pre + "" + "{{ " + call + " }}" + "" + post == pre + "{{ " + call + " }}" + post
  {
    assert pre + "" == pre;
    var t := pre + "{{ " + call + " }}";
    assert t + "" == t;
  }

  /** The piece is the one for the value between these quotes, if that is to be wrapped. */
  predicate IsValuePiece(text: string, arabic: char -> bool, a: nat, e: nat, j: nat, p: Piece)
    requires a <= e < j < |text|
  {
    var l := ValueLiteral(text[e + 1..j], arabic);
    l.Some? && p == WrapOf(text[a..e + 1], l.value, [text[j]], false)
  }

  /** What stands at position a: the piece for the attribute there, if its value is to be wrapped. */
  ghost predicate ValuePiece(text: string, head: (string, nat) -> Option<nat>, arabic: char -> bool, a: nat, p: Piece) {
    exists e: nat, j: nat :: AttrRead(text, head, a, e, j) && a <= e && ToWrap(text[e + 1..j], arabic)
                             && IsValuePiece(text, arabic, a, e, j, p)
  }

  ghost predicate ValuesFrom(text: string, head: (string, nat) -> Option<nat>, arabic: char -> bool, i: nat,
                             ps: seq<Piece>, a: nat, p: Piece)
  {
    PieceAt(ps, i, a, p) <==> Visited(text, head, i, a) && ValuePiece(text, head, arabic, a, p)
  }

  lemma NextIs(text: string, head: (string, nat) -> Option<nat>, i: nat)
    requires i < |text| && HeadOk(head)
    ensures var m := AttrAt(text, i, head);
            Next(text, head, i) == (if m.None? then i + 1 else m.value.1 + 1) && i < Next(text, head, i)
  {
    forall e: nat, j: nat ensures AttrAt(text, i, head) == Some((e, j)) <==> AttrRead(text, head, i, e, j) {
      AttrIff(text, head, i, e, j);
    }
  }

  lemma KeepValueStep(text: string, head: (string, nat) -> Option<nat>, arabic: char -> bool, i: nat, rest: seq<Piece>,
                      a: nat, p: Piece)
    requires i < |text| && HeadOk(head) && AttrAt(text, i, head).None? && p.Wrap?
    requires ValuesFrom(text, head, arabic, i + 1, rest, a, p)
    ensures ValuesFrom(text, head, arabic, i, [Keep(text[i])] + rest, a, p)
  {
    PieceAtAppend([Keep(text[i])], rest, i, a, p);
    OnePiece(Keep(text[i]), i, a, p);
    ConcatOne(Was, Keep(text[i]));
    NextIs(text, head, i);
    forall e: nat, j: nat ensures !AttrRead(text, head, i, e, j) { AttrIff(text, head, i, e, j); }
  }

  lemma ValuePieceIs(text: string, head: (string, nat) -> Option<nat>, arabic: char -> bool, i: nat, e: nat, j: nat,
                     p: Piece)
    requires i < |text| && AttrRead(text, head, i, e, j) && i <= e && NotBlank(arabic)
    ensures ValuePiece(text, head, arabic, i, p) <==> IsValuePiece(text, arabic, i, e, j, p)
  {
    ValueLiteralIff(text[e + 1..j], arabic);
    if e': nat, j': nat :| AttrRead(text, head, i, e', j') && i <= e' && ToWrap(text[e' + 1..j'], arabic)
                           && IsValuePiece(text, arabic, i, e', j', p) {
      AttrIff(text, head, i, e, j);
      AttrIff(text, head, i, e', j');
    }
  }

  lemma MatchPiecesAt(pre: string, value: string, post: string, l: Option<Literal>, spaced: bool, off: nat, a: nat,
                      p: Piece)
    requires p.Wrap?
    ensures PieceAt(MatchPieces(pre, value, post, l, spaced), off, a, p)
            <==> a == off && l.Some? && p == WrapOf(pre, l.value, post, spaced)
  {
    if l.Some? {
      OnePiece(WrapOf(pre, l.value, post, spaced), off, a, p);
    } else {
      NoWrapKept(pre + value + post, off, a, p);
    }
  }

  lemma ValuePieceHere(text: string, head: (string, nat) -> Option<nat>, arabic: char -> bool, i: nat, e: nat, j: nat,
                       a: nat, p: Piece)
    requires i < |text| && AttrRead(text, head, i, e, j) && i <= e && NotBlank(arabic) && p.Wrap?
    ensures PieceAt(ValueWrap(arabic)(text, i, e, j), i, a, p) <==> a == i && ValuePiece(text, head, arabic, i, p)
  {
    ValuePieceIs(text, head, arabic, i, e, j, p);
    MatchPiecesAt(text[i..e + 1], text[e + 1..j], [text[j]], ValueLiteral(text[e + 1..j], arabic), false, i, a, p);
  }

  lemma VisitedStep(text: string, head: (string, nat) -> Option<nat>, i: nat, n: nat, a: nat)
    requires Next(text, head, i) == n && i < n
    ensures Visited(text, head, i, a) <==> a == i || (i < a && Visited(text, head, n, a))
  {
  }

  /** A match, and what the search finds behind it. */
  lemma MatchValueStep(text: string, head: (string, nat) -> Option<nat>, arabic: char -> bool, i: nat, n: nat,
                       ps: seq<Piece>, rest: seq<Piece>, all: seq<Piece>, a: nat, p: Piece)
    requires all == ps + rest
    requires Next(text, head, i) == n && i + |Old(ps)| == n && i < n && ValuesFrom(text, head, arabic, n, rest, a, p)
    requires PieceAt(ps, i, a, p) <==> a == i && ValuePiece(text, head, arabic, i, p)
    ensures ValuesFrom(text, head, arabic, i, all, a, p)
  {
    VisitedStep(text, head, i, n, a);
    PieceAtAppend(ps, rest, i, a, p);
    assert Visited(text, head, n, a) ==> n <= a;
  }

  /** One round of the search. */
  lemma AttrUnfold(text: string, i: nat, wrap: (string, nat, nat, nat) -> seq<Piece>,
                   head: (string, nat) -> Option<nat>)
    requires i < |text| && HeadOk(head)
    ensures var m := AttrAt(text, i, head);
            if m.None? then AttrPieces(text, i, wrap, head) == [Keep(text[i])] + AttrPieces(text, i + 1, wrap, head)
            else var (e, j) := m.value;
                 i <= e < j < |text| && AttrRead(text, head, i, e, j)
                 && AttrPieces(text, i, wrap, head) == wrap(text, i, e, j) + AttrPieces(text, j + 1, wrap, head)
  {
    var m := AttrAt(text, i, head);
    if m.Some? { AttrIff(text, head, i, m.value.0, m.value.1); }
  }

  lemma ValueFacts(text: string, head: (string, nat) -> Option<nat>, arabic: char -> bool, i: nat, e: nat, j: nat,
                   ps: seq<Piece>, a: nat, p: Piece)
    requires i <= e < j < |text| && AttrRead(text, head, i, e, j) && NotBlank(arabic) && p.Wrap?
    requires ps == ValueWrap(arabic)(text, i, e, j)
    ensures i + |Old(ps)| == j + 1 && (PieceAt(ps, i, a, p) <==> a == i && ValuePiece(text, head, arabic, i, p))
  {
    ValuePieceHere(text, head, arabic, i, e, j, a, p);
    ValuePiecesOld(text, i, e, j, arabic);
  }

  lemma ValuesStep(text: string, head: (string, nat) -> Option<nat>, i: nat, arabic: char -> bool, a: nat, p: Piece)
    requires i < |text| && HeadOk(head) && NotBlank(arabic) && p.Wrap? && i < Next(text, head, i) <= |text|
    requires var n := Next(text, head, i);
             ValuesFrom(text, head, arabic, n, AttrPieces(text, n, ValueWrap(arabic), head), a, p)
    ensures ValuesFrom(text, head, arabic, i, AttrPieces(text, i, ValueWrap(arabic), head), a, p)
  {
    var wrap := ValueWrap(arabic);
    AttrUnfold(text, i, wrap, head);
    NextIs(text, head, i);
    var all := AttrPieces(text, i, wrap, head);
    if AttrAt(text, i, head).None? {
      var rest := AttrPieces(text, i + 1, wrap, head);
      KeepValueStep(text, head, arabic, i, rest, a, p);
      SameValues(text, head, arabic, i, all, [Keep(text[i])] + rest, a, p);
    } else {
      var (e, j) := AttrAt(text, i, head).value;
      var rest := AttrPieces(text, j + 1, wrap, head);
      ValuesMatched(text, head, arabic, i, e, j, wrap(text, i, e, j), rest, all, a, p);
    }
  }

  lemma ValuesMatched(text: string, head: (string, nat) -> Option<nat>, arabic: char -> bool, i: nat, e: nat, j: nat,
                      ps: seq<Piece>, rest: seq<Piece>, all: seq<Piece>, a: nat, p: Piece)
    requires i <= e < j < |text| && AttrRead(text, head, i, e, j) && NotBlank(arabic) && p.Wrap?
    requires ps == ValueWrap(arabic)(text, i, e, j) && all == ps + rest
    requires Next(text, head, i) == j + 1 && ValuesFrom(text, head, arabic, j + 1, rest, a, p)
    ensures ValuesFrom(text, head, arabic, i, all, a, p)
  {
    ValueFacts(text, head, arabic, i, e, j, ps, a, p);
    MatchValueStep(text, head, arabic, i, j + 1, ps, rest, all, a, p);
  }

  lemma SameValues(text: string, head: (string, nat) -> Option<nat>, arabic: char -> bool, i: nat, ps: seq<Piece>,
                   qs: seq<Piece>, a: nat, p: Piece)
    requires ps == qs && ValuesFrom(text, head, arabic, i, qs, a, p)
    ensures ValuesFrom(text, head, arabic, i, ps, a, p)
  {
  }

  /** The attribute pass wraps exactly the values that are to be wrapped, of the attributes it comes to. */
  lemma {:induction false} ValuesWrapped(text: string, head: (string, nat) -> Option<nat>, i: nat, arabic: char -> bool,
                                         a: nat, p: Piece)
    requires i <= |text| && HeadOk(head) && NotBlank(arabic) && p.Wrap?
    ensures ValuesFrom(text, head, arabic, i, AttrPieces(text, i, ValueWrap(arabic), head), a, p)
    decreases |text| - i
  {
    if i == |text| {
      NoAttrAtEnd(text, head, a, p, arabic);
    } else {
      NextIs(text, head, i);
      ValuesWrapped(text, head, Next(text, head, i), arabic, a, p);
      ValuesStep(text, head, i, arabic, a, p);
    }
  }

  lemma NoAttrAtEnd(text: string, head: (string, nat) -> Option<nat>, a: nat, p: Piece, arabic: char -> bool)
    ensures a >= |text| ==> !ValuePiece(text, head, arabic, a, p)
  {
  }

  /** An attribute with a value that is to be wrapped starts at a. */
  ghost predicate AttrToWrap(text: string, head: (string, nat) -> Option<nat>, arabic: char -> bool, a: nat) {
    exists e: nat, j: nat :: AttrRead(text, head, a, e, j) && a <= e && ToWrap(text[e + 1..j], arabic)
  }

  /** The piece is the wrapped attribute with these quotes. */
  ghost predicate WrapsBetween(text: string, a: nat, e: nat, j: nat, p: Piece)
    requires a <= e < j < |text|
  {
    WrapsValue(p, text[a..e + 1], text[e + 1..j], text[j])
  }

  /** The piece is the wrapped attribute that starts at a. */
  ghost predicate WrapsAttr(text: string, head: (string, nat) -> Option<nat>, a: nat, p: Piece) {
    exists e: nat, j: nat :: AttrRead(text, head, a, e, j) && a <= e && WrapsBetween(text, a, e, j, p)
  }

  lemma PieceForAttr(text: string, head: (string, nat) -> Option<nat>, arabic: char -> bool, a: nat) returns (p: Piece)
    requires AttrToWrap(text, head, arabic, a) && NotBlank(arabic)
    ensures p.Wrap? && ValuePiece(text, head, arabic, a, p)
  {
    var e: nat, j: nat :| AttrRead(text, head, a, e, j) && a <= e && ToWrap(text[e + 1..j], arabic);
    WrapOfValue(text[a..e + 1], text[e + 1..j], text[j], arabic);
    p := WrapOf(text[a..e + 1], ValueLiteral(text[e + 1..j], arabic).value, [text[j]], false);
    assert IsValuePiece(text, arabic, a, e, j, p);
  }

  lemma AttrOfPieceAt(text: string, head: (string, nat) -> Option<nat>, arabic: char -> bool, a: nat, e: nat, j: nat,
                      p: Piece)
    requires a <= e < j < |text| && IsValuePiece(text, arabic, a, e, j, p) && ToWrap(text[e + 1..j], arabic)
    requires NotBlank(arabic)
    ensures WrapsBetween(text, a, e, j, p)
  {
    WrapOfValue(text[a..e + 1], text[e + 1..j], text[j], arabic);
  }

  lemma AttrOfPiece(text: string, head: (string, nat) -> Option<nat>, arabic: char -> bool, a: nat, p: Piece)
    requires ValuePiece(text, head, arabic, a, p) && NotBlank(arabic)
    ensures AttrToWrap(text, head, arabic, a) && WrapsAttr(text, head, a, p)
  {
    var e: nat, j: nat :| AttrRead(text, head, a, e, j) && a <= e && ToWrap(text[e + 1..j], arabic)
                          && IsValuePiece(text, arabic, a, e, j, p);
    AttrOfPieceAt(text, head, arabic, a, e, j, p);
  }

  /** So: a wrapped literal stands at a if and only if the search comes to an attribute there with a value that is to be
      wrapped. */
  lemma AttrPassWrapsIff(text: string, head: (string, nat) -> Option<nat>, arabic: char -> bool, a: nat)
    requires HeadOk(head) && NotBlank(arabic)
    ensures var ps := AttrPieces(text, 0, ValueWrap(arabic), head);
            && ((exists p: Piece :: p.Wrap? && PieceAt(ps, 0, a, p))
                <==> Visited(text, head, 0, a) && AttrToWrap(text, head, arabic, a))
            && forall p: Piece :: p.Wrap? && PieceAt(ps, 0, a, p) ==> WrapsAttr(text, head, a, p)
  {
    var ps := AttrPieces(text, 0, ValueWrap(arabic), head);
    if Visited(text, head, 0, a) && AttrToWrap(text, head, arabic, a) {
      var p := PieceForAttr(text, head, arabic, a);
      ValuesWrapped(text, head, 0, arabic, a, p);
      assert PieceAt(ps, 0, a, p);
    }
    forall p: Piece | p.Wrap? && PieceAt(ps, 0, a, p)
      ensures Visited(text, head, 0, a) && AttrToWrap(text, head, arabic, a) && WrapsAttr(text, head, a, p)
    {
      ValuesWrapped(text, head, 0, arabic, a, p);
      AttrOfPiece(text, head, arabic, a, p);
    }
  }
}

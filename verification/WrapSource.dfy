/** Wrapping the visible text of a template (`wrap_source` in tools/i18n_wrap.py): what it changes, and that the
    protected regions come through. */
module WrapSource {
  import opened Text
  import opened ProtectRestore

  // ------------------------------------------------------------------ protecting

  /** The matches of the protecting pattern: non-empty, in order, apart. */
  ghost predicate Matches(src: string, ranges: seq<(nat, nat)>, from: nat) {
    if ranges == [] then from <= |src|
    else from <= ranges[0].0 < ranges[0].1 <= |src| && Matches(src, ranges[1..], ranges[0].1)
  }

  function Gaps(src: string, ranges: seq<(nat, nat)>, from: nat): (r: seq<string>)
    requires Matches(src, ranges, from)
    ensures |r| == |ranges| + 1
  {
    if ranges == [] then [src[from..]] else [src[from..ranges[0].0]] + Gaps(src, ranges[1..], ranges[0].1)
  }

  function Regions(src: string, ranges: seq<(nat, nat)>, from: nat): (r: seq<string>)
    requires Matches(src, ranges, from)
    ensures |r| == |ranges|
  {
    if ranges == [] then [] else [src[ranges[0].0..ranges[0].1]] + Regions(src, ranges[1..], ranges[0].1)
  }

  lemma {:induction false} GapsAndRegions(src: string, ranges: seq<(nat, nat)>, from: nat)
    requires Matches(src, ranges, from)
    ensures Interleave(Gaps(src, ranges, from), Regions(src, ranges, from)) == src[from..]
    ensures NulFree(src) ==> AllNulFree(Gaps(src, ranges, from)) && AllNulFree(Regions(src, ranges, from))
    decreases |ranges|
  {
    if ranges != [] {
      var a, b := ranges[0].0, ranges[0].1;
      GapsAndRegions(src, ranges[1..], b);
      SliceJoin(src, from, a, b);
      SliceJoin(src, from, b, |src|);
      var g := [src[from..a]] + Gaps(src, ranges[1..], b);
      assert g[1..] == Gaps(src, ranges[1..], b);
    }
  }

  /** `_protect`, given the matches. */
  method Protect(src: string, ranges: seq<(nat, nat)>) returns (text: string, store: seq<string>)
    requires Matches(src, ranges, 0)
    ensures text == Marked(Gaps(src, ranges, 0), 0) && store == Regions(src, ranges, 0)
  {
    text, store := "", [];
    var from: nat := 0;
    ghost var whole := Marked(Gaps(src, ranges, 0), 0);
    assert ranges[0..] == ranges && text + whole == whole;
    for i := 0 to |ranges|
      invariant |store| == i && Matches(src, ranges[i..], from)
      invariant text + Marked(Gaps(src, ranges[i..], from), i) == whole
      invariant store + Regions(src, ranges[i..], from) == Regions(src, ranges, 0)
    {
      var a, b := ranges[i].0, ranges[i].1;
      ghost var rest := ranges[i + 1..];
      assert ranges[i..][1..] == rest;
      MarkedStep(src[from..a], Gaps(src, rest, b), i);
      Assoc(text, src[from..a] + Sent(i), Marked(Gaps(src, rest, b), i + 1));
      Assoc(text, src[from..a], Sent(i));
      Assoc(store, [src[a..b]], Regions(src, rest, b));
      text := text + src[from..a] + Sent(|store|);
      store := store + [src[a..b]];
      from := b;
    }
    text := text + src[from..];
    assert store + [] == store;
  }

  lemma MarkedStep(g: string, gaps: seq<string>, k: nat)
    requires |gaps| >= 1
    ensures Marked([g] + gaps, k) == g + Sent(k) + Marked(gaps, k + 1)
  {
    assert ([g] + gaps)[1..] == gaps;
  }

  // ------------------------------------------------------------------ passes as lists of pieces

  /** `_wrap_literal`: the call, or None where it would not be safe. */
  function WrapLiteral(seg: string): Option<string> {
    if '\n' in seg || Occurs("{{", seg) || Occurs("{%", seg) || Occurs([NUL, SOH], seg) || '&' in seg || '%' in seg
      then None
    else if '\'' !in seg then Some("_('" + seg + "')")
    else if '"' !in seg then Some("_(\"" + seg + "\")")
    else None
  }

  /** Text that Jinja and gettext take as it is: on one line, without tags, entities, percent signs and placeholders. */
  predicate IsPlain(seg: string) {
    && '\n' !in seg && '&' !in seg && '%' !in seg
    && !Occurs("{{", seg) && !Occurs("{%", seg) && !Occurs([NUL, SOH], seg)
  }

  /** The call of `_` with this text between quotes that it does not hold, single ones if it can be. */
  predicate IsCall(seg: string, call: string) {
    && IsPlain(seg)
    && (if '\'' in seg then '"' !in seg && call == "_(" + "\"" + seg + "\"" + ")"
        else call == "_(" + "'" + seg + "'" + ")")
  }

  lemma LiteralIsCall(seg: string, call: string)
    ensures WrapLiteral(seg) == Some(call) <==> IsCall(seg, call)
  {
    assert "_('" == "_(" + "'" && "')" == "'" + ")" && "_(\"" == "_(" + "\"" && "\")" == "\"" + ")";
    Assoc("_('" + seg, "'", ")");
    Assoc("_(\"" + seg, "\"", ")");
  }

  /** A character that is kept, or a match with a literal in it that is wrapped in a call. White space around the
      literal is kept in text (spaced) and dropped in attribute values. */
  datatype Piece =
    | Keep(c: char)
    | Wrap(pre: string, lead: string, seg: string, trail: string, post: string, call: string, spaced: bool)

  function Was(p: Piece): string {
    if p.Keep? then [p.c] else p.pre + (p.lead + p.seg + p.trail) + p.post
  }

  function Becomes(p: Piece): string {
    if p.Keep? then [p.c]
    else
      p.pre + (if p.spaced then p.lead else "") + "{{ " + p.call + " }}" + (if p.spaced then p.trail else "") + p.post
  }

  function Old(ps: seq<Piece>): string { Concat(Was, ps) }

  function New(ps: seq<Piece>): string { Concat(Becomes, ps) }

  /** How many literals were wrapped. */
  function Count(ps: seq<Piece>): nat {
    if ps == [] then 0 else (if ps[0].Wrap? then 1 else 0) + Count(ps[1..])
  }

  predicate IsMark(c: char) { c == '>' || c == '"' || c == '\'' }

  /** A wrapped literal stands behind a mark and is no part of a placeholder. */
  ghost predicate PieceOk(p: Piece) {
    p.Wrap? ==> p.pre != "" && IsMark(p.pre[|p.pre| - 1]) && NulFree(Was(p)) && NulFree(p.call)
  }

  /** The pieces are such, and have the further property g. */
  ghost predicate PiecesOk(ps: seq<Piece>, g: Piece -> bool) {
    forall k :: 0 <= k < |ps| ==> PieceOk(ps[k]) && g(ps[k])
  }

  // ------------------------------------------------------------------ a pass does not touch the placeholders

  /** The pieces between the NUL characters. */
  ghost function Cut(ps: seq<Piece>): (r: seq<seq<Piece>>)
    ensures |r| >= 1
  {
    if ps == [] then [[]]
    else
      var r := Cut(ps[1..]);
      if ps[0] == Keep(NUL) then [[]] + r else [[ps[0]] + r[0]] + r[1..]
  }

  ghost function Texts(f: Piece -> string, parts: seq<seq<Piece>>): seq<string> {
    seq(|parts|, i requires 0 <= i < |parts| => Concat(f, parts[i]))
  }

  lemma WrappedIsNulFree(p: Piece)
    requires PieceOk(p) && p.Wrap?
    ensures NulFree(Becomes(p))
  {
    var w := Was(p);
    assert NulFree(p.pre) by { assert forall c :: c in p.pre ==> c in w; }
    assert NulFree(p.lead) by { assert forall c :: c in p.lead ==> c in w; }
    assert NulFree(p.trail) by { assert forall c :: c in p.trail ==> c in w; }
    assert NulFree(p.post) by { assert forall c :: c in p.post ==> c in w; }
  }

  lemma TextsCons(f: Piece -> string, p: Piece, rest: seq<seq<Piece>>)
    requires |rest| >= 1
    ensures Texts(f, [[]] + rest) == [""] + Texts(f, rest)
    ensures Texts(f, [[p] + rest[0]] + rest[1..]) == [f(p) + Texts(f, rest)[0]] + Texts(f, rest)[1..]
  {
    assert ([p] + rest[0])[1..] == rest[0];
  }

  /** NUL characters are kept and nothing else has any. */
  ghost predicate KeepsNuls(f: Piece -> string, ps: seq<Piece>) {
    f(Keep(NUL)) == [NUL] && forall k :: 0 <= k < |ps| && ps[k] != Keep(NUL) ==> NulFree(f(ps[k]))
  }

  lemma {:induction false} CutSplits(f: Piece -> string, ps: seq<Piece>)
    requires KeepsNuls(f, ps)
    ensures Split(Concat(f, ps), NUL) == Texts(f, Cut(ps))
  {
    if ps != [] {
      var tail := Concat(f, ps[1..]);
      CutSplits(f, ps[1..]);
      TextsCons(f, ps[0], Cut(ps[1..]));
      if ps[0] == Keep(NUL) {
        assert ([NUL] + tail)[1..] == tail;
      } else {
        SplitPrefix(f(ps[0]), tail, NUL);
      }
    }
  }

  lemma PassKeepsNuls(ps: seq<Piece>, g: Piece -> bool)
    requires PiecesOk(ps, g)
    ensures KeepsNuls(Was, ps) && KeepsNuls(Becomes, ps)
  {
    forall k | 0 <= k < |ps| && ps[k] != Keep(NUL) ensures NulFree(Was(ps[k])) && NulFree(Becomes(ps[k])) {
      if ps[k].Wrap? { WrappedIsNulFree(ps[k]); }
    }
  }

  lemma {:induction false} CutIsOk(ps: seq<Piece>, g: Piece -> bool)
    requires PiecesOk(ps, g)
    ensures forall k :: 0 <= k < |Cut(ps)| ==> PiecesOk(Cut(ps)[k], g)
  {
    if ps != [] { CutIsOk(ps[1..], g); }
  }

  /** A stretch without a mark is kept as it is; one that changed holds a brace now. */
  lemma {:induction false} StretchKeptOrBraced(ps: seq<Piece>, g: Piece -> bool)
    requires PiecesOk(ps, g)
    ensures New(ps) == Old(ps) || ('{' in New(ps) && exists c :: c in Old(ps) && IsMark(c))
  {
    if ps != [] {
      StretchKeptOrBraced(ps[1..], g);
      var p := ps[0];
      if p.Wrap? {
        assert p.pre[|p.pre| - 1] in Was(p);
        assert "{{ "[0] == '{' && '{' in Becomes(p);
      }
    }
  }

  lemma BodyStays(ps: seq<Piece>, g: Piece -> bool, k: nat)
    requires PiecesOk(ps, g) && Old(ps) == Body(k)
    ensures New(ps) == Body(k)
  {
    StretchKeptOrBraced(ps, g);
    assert forall c :: c in Body(k) ==> !IsMark(c);
  }

  /** The new gap is the old one after some wrapping, and was not made to read as a placeholder. */
  ghost predicate GapPass(g: Piece -> bool, o: string, n: string) {
    (exists ps :: PiecesOk(ps, g) && Old(ps) == o && New(ps) == n) && (n == o || '{' in n)
  }

  ghost predicate GapsPass(g: Piece -> bool, gaps: seq<string>, gaps': seq<string>) {
    |gaps'| == |gaps| && forall k :: 0 <= k < |gaps| ==> GapPass(g, gaps[k], gaps'[k])
  }

  lemma WovenCons(parts: seq<seq<Piece>>, f: Piece -> string, gap: string, gaps: seq<string>, k: nat)
    requires |parts| >= 3 && |gaps| >= 1
    ensures Texts(f, parts) == Woven([gap] + gaps, k) <==>
            Concat(f, parts[0]) == gap && Concat(f, parts[1]) == Body(k) && Texts(f, parts[2..]) == Woven(gaps, k + 1)
  {
    assert ([gap] + gaps)[1..] == gaps;
    var t, w := Texts(f, parts), Woven([gap] + gaps, k);
    assert t == [Concat(f, parts[0]), Concat(f, parts[1])] + Texts(f, parts[2..]);
    assert w == [gap, Body(k)] + Woven(gaps, k + 1);
    assert t[2..] == Texts(f, parts[2..]) && w[2..] == Woven(gaps, k + 1);
    if t == w { assert t[0] == w[0] && t[1] == w[1]; }
  }

  /** Stretch for stretch, when the old ones are gaps with placeholders from k on: the placeholders are the same. */
  lemma {:induction false} PlaceholdersStay(parts: seq<seq<Piece>>, g: Piece -> bool, gaps: seq<string>, k: nat)
    returns (gaps': seq<string>)
    requires |gaps| >= 1 && Texts(Was, parts) == Woven(gaps, k)
             && forall i :: 0 <= i < |parts| ==> PiecesOk(parts[i], g)
    ensures GapsPass(g, gaps, gaps') && Texts(Becomes, parts) == Woven(gaps', k)
    decreases |gaps|
  {
    assert Texts(Was, parts)[0] == Old(parts[0]);
    StretchKeptOrBraced(parts[0], g);
    var first := New(parts[0]);
    assert GapPass(g, gaps[0], first);
    if |gaps| == 1 {
      gaps' := [first];
    } else {
      assert gaps == [gaps[0]] + gaps[1..];
      WovenCons(parts, Was, gaps[0], gaps[1..], k);
      BodyStays(parts[1], g, k);
      var rest := PlaceholdersStay(parts[2..], g, gaps[1..], k + 1);
      gaps' := [first] + rest;
      WovenCons(parts, Becomes, first, rest, k);
    }
  }

  /** A pass over text with placeholders changes the gaps only. */
  lemma PassKeepsPlaceholders(ps: seq<Piece>, g: Piece -> bool, gaps: seq<string>, k: nat) returns (gaps': seq<string>)
    requires PiecesOk(ps, g) && |gaps| >= 1 && AllNulFree(gaps) && Old(ps) == Marked(gaps, k)
    ensures GapsPass(g, gaps, gaps') && AllNulFree(gaps') && New(ps) == Marked(gaps', k)
  {
    PassKeepsNuls(ps, g);
    CutSplits(Was, ps);
    CutSplits(Becomes, ps);
    CutIsOk(ps, g);
    MarkedIsWoven(gaps, k);
    WovenIsNulFree(gaps, k);
    SplitJoin(Woven(gaps, k), NUL);
    gaps' := PlaceholdersStay(Cut(ps), g, gaps, k);
    JoinSplit(New(ps), NUL);
    MarkedIsWoven(gaps', k);
    SplitPartsClean(New(ps), NUL);
    GapsAreStretches(gaps', k);
  }

  lemma {:induction false} GapsAreStretches(gaps: seq<string>, k: nat)
    requires |gaps| >= 1 && AllNulFree(Woven(gaps, k))
    ensures AllNulFree(gaps)
    decreases |gaps|
  {
    if |gaps| > 1 {
      var w := Woven(gaps, k);
      assert w[2..] == Woven(gaps[1..], k + 1);
      GapsAreStretches(gaps[1..], k + 1);
      assert w[0] == gaps[0] && gaps == [gaps[0]] + gaps[1..];
    }
  }

  /** A pass makes no gap deceptive. */
  lemma PassDeceivesNoMore(g: Piece -> bool, gaps: seq<string>, gaps': seq<string>)
    requires GapsPass(g, gaps, gaps') && !Deceptive(gaps, 0)
    ensures !Deceptive(gaps', 0)
  {
    forall t: int, i: nat ensures !Deceives(gaps', 0, t, i) {
      if Deceives(gaps', 0, t, i) {
        assert '{' !in Body(i);
        assert GapPass(g, gaps[t], gaps'[t]);
        assert Deceives(gaps, 0, t, i);
      }
    }
  }

  // ------------------------------------------------------------------ the literals of the two passes

  /** A text to be wrapped: white space, the literal, white space, and the call. */
  datatype Literal = Literal(lead: string, seg: string, trail: string, call: string)

  predicate Has(s: string, arabic: char -> bool) { exists i :: 0 <= i < |s| && arabic(s[i]) }

  function LiteralOf(s: string): Option<Literal> {
    var call := WrapLiteral(Strip(s));
    if call.None? then None else Some(Literal(s[..SpaceEnd(s, 0)], Strip(s), s[SpaceStart(s, |s|)..], call.value))
  }

  /** The tests of `_wrap_text_nodes`. */
  function NodeLiteral(s: string, arabic: char -> bool): Option<Literal> {
    if Has(s, arabic) && Strip(s) != "" && Has(Strip(s), arabic) then LiteralOf(s) else None
  }

  /** The tests of `_wrap_attrs`. */
  function ValueLiteral(s: string, arabic: char -> bool): Option<Literal> {
    if Has(s, arabic) then LiteralOf(s) else None
  }

  ghost predicate LiteralOk(s: string, r: Option<Literal>) {
    r.Some? ==> r.value.lead + r.value.seg + r.value.trail == s && WrapLiteral(r.value.seg) == Some(r.value.call)
  }

  /** Arabic letters are not white space. */
  ghost predicate NotBlank(arabic: char -> bool) { forall c :: arabic(c) ==> !IsSpace(c) }

  lemma HasIsNotBlank(s: string, arabic: char -> bool)
    requires NotBlank(arabic) && Has(s, arabic)
    ensures Strip(s) != ""
  {
    var i :| 0 <= i < |s| && arabic(s[i]);
    assert !IsSpace(s[i]);
  }

  lemma LiteralOfOk(s: string)
    requires Strip(s) != ""
    ensures LiteralOk(s, LiteralOf(s))
  {
    var a, b := SpaceEnd(s, 0), SpaceStart(s, |s|);
    assert s[..a] + s[a..b] + s[b..] == s;
  }

  lemma LiteralsOk(s: string, arabic: char -> bool)
    requires NotBlank(arabic)
    ensures LiteralOk(s, NodeLiteral(s, arabic)) && LiteralOk(s, ValueLiteral(s, arabic))
  {
    if Has(s, arabic) {
      HasIsNotBlank(s, arabic);
      LiteralOfOk(s);
    }
  }
}

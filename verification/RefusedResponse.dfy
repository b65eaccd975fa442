/** The two passes of `_readonly_refused_forms` (app/__init__.py) on one response: the forms are wrapped, then the
    buttons outside them are disabled on the page that comes out. */
module RefusedResponse {
  import opened Text
  import opened RefusedForms

  // ------------------------------------------------------------------ characters that know where they come from

  /** A character, and whether it is one of the page (or of an inserted fragment). */
  type Marked = seq<(char, bool)>

  function Mark(text: string, kept: bool): (m: Marked)
    ensures |m| == |text| && forall i :: 0 <= i < |m| ==> m[i] == (text[i], kept)
  {
    seq(|text|, i requires 0 <= i < |text| => (text[i], kept))
  }

  function MarkPieces(ps: seq<Piece>): Marked {
    if ps == [] then [] else Mark(PieceText(ps[0]), ps[0].Keep?) + MarkPieces(ps[1..])
  }

  function TextOf(m: Marked): (s: string)
    ensures |s| == |m| && forall i :: 0 <= i < |m| ==> s[i] == m[i].0
  {
    seq(|m|, i requires 0 <= i < |m| => m[i].0)
  }

  function Shown(c: (char, bool)): string { if c.1 then [c.0] else "" }

  /** The characters of the page, the insertions erased. */
  function PageOf(m: Marked): string {
    if m == [] then "" else Shown(m[0]) + PageOf(m[1..])
  }

  lemma {:induction false} PageAppend(a: Marked, b: Marked)
    ensures PageOf(a + b) == PageOf(a) + PageOf(b)
  {
    if a == [] {
      assert a + b == b;
    } else {
      assert (a + b)[0] == a[0] && (a + b)[1..] == a[1..] + b;
      PageAppend(a[1..], b);
      Assoc(Shown(a[0]), PageOf(a[1..]), PageOf(b));
    }
  }

  lemma {:induction false} PageOfMark(text: string, kept: bool)
    ensures PageOf(Mark(text, kept)) == if kept then text else ""
  {
    if text != "" {
      assert Mark(text, kept)[1..] == Mark(text[1..], kept);
      PageOfMark(text[1..], kept);
      assert text == [text[0]] + text[1..];
    }
  }

  function PieceText(p: Piece): string { if p.Keep? then p.text else MarkText(p.mark) }

  lemma {:induction false} PiecesMarked(ps: seq<Piece>)
    ensures TextOf(MarkPieces(ps)) == Show(ps) && PageOf(MarkPieces(ps)) == Erase(ps)
  {
    if ps != [] {
      var t, kept, rest := PieceText(ps[0]), ps[0].Keep?, MarkPieces(ps[1..]);
      PiecesMarked(ps[1..]);
      assert PageOf(Mark(t, kept) + rest) == (if kept then t else "") + PageOf(rest) by {
        PageOfMark(t, kept);
        PageAppend(Mark(t, kept), rest);
      }
      TextOfMark(t, kept, rest);
    }
  }

  lemma TextOfMark(t: string, kept: bool, rest: Marked)
    ensures TextOf(Mark(t, kept) + rest) == t + TextOf(rest)
  {
  }

  // ------------------------------------------------------------------ the second pass

  /** The page from pos to e, the attributes put in at b and what stands between b and c left out. */
  function DisabledTag(m: Marked, pos: nat, b: nat, c: nat, e: nat): Marked
    requires pos <= b <= c <= e <= |m|
  {
    m[pos..b] + Mark(MarkText(DisabledAttributes), false) + m[c..e]
  }

  /** Disabling on marked characters. */
  function Disabled(m: Marked, subs: seq<Submit>, ids: set<string>, pos: nat): Marked
    requires OrderedSubmits(TextOf(m), subs, pos)
  {
    if subs == [] then m[pos..]
    else if !ToDisable(subs[0], ids) then (SubmitsFrom(TextOf(m), subs, pos); Disabled(m, subs[1..], ids, pos))
    else
      DisabledTag(m, pos, BodyEnd(TextOf(m), subs[0]), Closing(TextOf(m), subs[0]), subs[0].end)
      + Disabled(m, subs[1..], ids, subs[0].end)
  }

  lemma {:induction false} DisabledShows(m: Marked, subs: seq<Submit>, ids: set<string>, pos: nat)
    requires OrderedSubmits(TextOf(m), subs, pos)
    ensures TextOf(Disabled(m, subs, ids, pos)) == Show(DisabledPieces(TextOf(m), subs, ids, pos))
  {
    var t := TextOf(m);
    if subs == [] {
      ShowOne(Keep(t[pos..], pos));
      TextOfSlice(m, pos, |m|);
    } else if !ToDisable(subs[0], ids) {
      SubmitsFrom(t, subs, pos);
      DisabledShows(m, subs[1..], ids, pos);
    } else {
      DisabledShows(m, subs[1..], ids, subs[0].end);
      TagShows(m, subs[0], pos, Disabled(m, subs[1..], ids, subs[0].end),
               DisabledPieces(t, subs[1..], ids, subs[0].end));
    }
  }

  lemma TagShows(m: Marked, s: Submit, pos: nat, rest: Marked, more: seq<Piece>)
    requires pos <= s.start && TagAt(TextOf(m), s.start, s.end) && TextOf(rest) == Show(more)
    ensures var b, c := BodyEnd(TextOf(m), s), Closing(TextOf(m), s);
            TextOf(DisabledTag(m, pos, b, c, s.end) + rest) == Show(SubmitPieces(TextOf(m), s, pos) + more)
  {
    var t := TextOf(m);
    var b, c := BodyEnd(t, s), Closing(t, s);
    ShowThree(Keep(t[pos..b], pos), Insert(DisabledAttributes), Keep(t[c..s.end], c), more);
    TextOfFour(m[pos..b], Mark(MarkText(DisabledAttributes), false), m[c..s.end], rest);
    TextOfSlice(m, pos, b);
    TextOfSlice(m, c, s.end);
    assert TextOf(Mark(MarkText(DisabledAttributes), false)) == MarkText(DisabledAttributes);
  }

  lemma TextOfSlice(m: Marked, i: nat, j: nat)
    requires i <= j <= |m|
    ensures TextOf(m[i..j]) == TextOf(m)[i..j] && (j == |m| ==> TextOf(m[i..]) == TextOf(m)[i..])
  {
  }

  lemma TextOfFour(a: Marked, b: Marked, c: Marked, d: Marked)
    ensures TextOf(a + b + c + d) == TextOf(a) + TextOf(b) + TextOf(c) + TextOf(d)
  {
  }

  lemma ShowCons(p: Piece, rest: seq<Piece>)
    ensures Show([p] + rest) == PieceText(p) + Show(rest)
  {
    assert ([p] + rest)[1..] == rest;
  }

  lemma ShowOne(p: Piece)
    ensures Show([p]) == PieceText(p)
  {
    ShowCons(p, []);
    assert [p] + [] == [p] && PieceText(p) + "" == PieceText(p);
  }

  lemma ShowThree(p: Piece, q: Piece, r: Piece, more: seq<Piece>)
    ensures Show([p, q, r] + more) == PieceText(p) + PieceText(q) + PieceText(r) + Show(more)
  {
    ShowCons(r, more);
    ShowCons(q, [r] + more);
    ShowCons(p, [q] + ([r] + more));
    assert [p, q, r] + more == [p] + ([q] + ([r] + more));
    Assoc(PieceText(q), PieceText(r), Show(more));
    Assoc(PieceText(p), PieceText(q) + PieceText(r), Show(more));
    Assoc(PieceText(p), PieceText(q), PieceText(r));
  }

  // ------------------------------------------------------------------ white space in front of a bracket is of the page

  /** White space of an inserted fragment is followed by another character than the end of a tag. */
  ghost predicate Tight(m: Marked) {
    forall i :: 0 <= i < |m| && !m[i].1 && IsSpace(m[i].0) ==> i + 1 < |m| && m[i + 1].0 != '>' && m[i + 1].0 != '/'
  }

  lemma TightAppend(a: Marked, b: Marked)
    requires Tight(a) && Tight(b)
    ensures Tight(a + b)
  {
  }

  predicate TightText(t: string) {
    forall i :: 0 <= i < |t| && IsSpace(t[i]) ==> i + 1 < |t| && t[i + 1] != '>' && t[i + 1] != '/'
  }

  lemma TightMark(t: string, kept: bool)
    requires kept || TightText(t)
    ensures Tight(Mark(t, kept))
  {
  }

  lemma TightTexts(a: string, b: string)
    requires TightText(a) && TightText(b)
    ensures TightText(a + b)
  {
  }

  /** A text of letters with at most one blank. */
  lemma OneBlank(t: string, k: nat)
    requires forall i :: 0 <= i < |t| && i != k ==> ' ' < t[i] <= '~'
    requires k < |t| ==> k + 1 < |t| && t[k + 1] != '>' && t[k + 1] != '/'
    ensures TightText(t)
  {
  }

  lemma TightWords()
    ensures TightText(" data-hr-readonly=\"1\"") && TightText(" data-hr-readonly-note")
    ensures TightText("<fieldset disabled")
  {
    OneBlank(" data-hr-readonly=\"1\"", 0);
    OneBlank(" data-hr-readonly-note", 0);
    OneBlank("<fieldset disabled", 9);
  }

  lemma TightAttributes()
    ensures TightText(" style=\"border:0;padding:0;") && TightText(" disabled") && TightText(" aria-disabled=\"true\"")
  {
    OneBlank(" style=\"border:0;padding:0;", 0);
    OneBlank(" disabled", 0);
    OneBlank(" aria-disabled=\"true\"", 0);
  }

  lemma SolidWords()
    ensures TightText("<p") && TightText("=\"1\"></p>") && TightText("</fieldset>")
            && TightText("margin:0;min-width:0\">")
  {
    OneBlank("<p", 2);
    OneBlank("=\"1\"></p>", 9);
    OneBlank("</fieldset>", 11);
    OneBlank("margin:0;min-width:0\">", 22);
  }

  lemma FragmentsTight(mark: RefusedForms.Mark)
    ensures TightText(MarkText(mark))
  {
    TightWords();
    TightAttributes();
    SolidWords();
    TightTexts("<p", " data-hr-readonly-note");
    TightTexts("<p" + " data-hr-readonly-note", "=\"1\"></p>");
    TightTexts("<fieldset disabled", " style=\"border:0;padding:0;");
    TightTexts("<fieldset disabled" + " style=\"border:0;padding:0;", "margin:0;min-width:0\">");
    TightTexts(" disabled", " aria-disabled=\"true\"");
  }

  lemma {:induction false} PiecesTight(ps: seq<Piece>)
    ensures Tight(MarkPieces(ps))
  {
    if ps != [] {
      PiecesTight(ps[1..]);
      if ps[0].Insert? { FragmentsTight(ps[0].mark); }
      var t := PieceText(ps[0]);
      TightMark(t, ps[0].Keep?);
      TightAppend(Mark(t, ps[0].Keep?), MarkPieces(ps[1..]));
    }
  }

  /** If something is stripped in front of the bracket, white space stands there. */
  lemma StrippedIsSpace(t: string, s: Submit)
    requires TagAt(t, s.start, s.end)
    ensures var b, c := BodyEnd(t, s), Closing(t, s);
            b == c || (b < c < s.end && (t[c] == '>' || t[c] == '/') && IsSpace(t[c - 1]))
  {
    var b, c := BodyEnd(t, s), Closing(t, s);
    if b < c {
      var w := t[s.start..c];
      assert w[|RStrip(w)|..][c - 1 - b] == t[c - 1];
    }
  }

  /** Then a character of the page is lost. */
  lemma StrippedIsOfPage(m: Marked, b: nat, c: nat)
    requires Tight(m) && b < c < |m| && (m[c].0 == '>' || m[c].0 == '/') && IsSpace(m[c - 1].0)
    ensures |PageOf(m[b..c])| >= 1
  {
    assert m[c - 1].1;
    assert m[b..c] == m[b..c - 1] + [m[c - 1]];
    PageAppend(m[b..c - 1], [m[c - 1]]);
    assert PageOf([m[c - 1]]) == Shown(m[c - 1]) + PageOf([]);
  }

  /** Disabling keeps the page, or loses some of it. */
  predicate Keeps(kept: string, page: string, whole: bool) {
    |kept| <= |page| && (if whole then kept == page else |kept| < |page|)
  }

  lemma {:induction false} DisabledPage(m: Marked, subs: seq<Submit>, ids: set<string>, pos: nat)
    requires Tight(m) && OrderedSubmits(TextOf(m), subs, pos)
    ensures Keeps(PageOf(Disabled(m, subs, ids, pos)), PageOf(m[pos..]), NoTrailingSpace(TextOf(m), subs, ids, pos))
  {
    if subs != [] {
      var s, t := subs[0], TextOf(m);
      if !ToDisable(s, ids) {
        SubmitsFrom(t, subs, pos);
        DisabledPage(m, subs[1..], ids, pos);
        NoTrailingSpaceFrom(t, subs[1..], ids, pos, s.end);
      } else {
        DisabledPage(m, subs[1..], ids, s.end);
        TagPage(m, s, pos, Disabled(m, subs[1..], ids, s.end), NoTrailingSpace(t, subs[1..], ids, s.end));
      }
    }
  }

  /** One button, and what is behind it. */
  lemma TagPage(m: Marked, s: Submit, pos: nat, rest: Marked, whole: bool)
    requires Tight(m) && pos <= s.start && TagAt(TextOf(m), s.start, s.end)
    requires Keeps(PageOf(rest), PageOf(m[s.end..]), whole)
    ensures var b, c := BodyEnd(TextOf(m), s), Closing(TextOf(m), s);
            Keeps(PageOf(DisabledTag(m, pos, b, c, s.end) + rest), PageOf(m[pos..]), whole && b == c)
  {
    var b, c := BodyEnd(TextOf(m), s), Closing(TextOf(m), s);
    StrippedIsSpace(TextOf(m), s);
    if b < c { StrippedIsOfPage(m, b, c); } else { assert m[b..c] == []; }
    DisabledOne(m, pos, b, c, s.end, rest);
    KeepsAround(PageOf(m[pos..b]), PageOf(m[b..c]), PageOf(m[c..s.end]), PageOf(rest), PageOf(m[s.end..]), whole);
  }

  lemma KeepsAround(a: string, lost: string, c: string, kept: string, page: string, whole: bool)
    requires Keeps(kept, page, whole)
    ensures Keeps(a + c + kept, a + lost + c + page, whole && lost == "")
  {
    if lost == "" { assert a + lost == a; }
  }

  lemma DisabledOne(m: Marked, pos: nat, b: nat, c: nat, e: nat, rest: Marked)
    requires pos <= b <= c <= e <= |m|
    ensures PageOf(DisabledTag(m, pos, b, c, e) + rest) == PageOf(m[pos..b]) + PageOf(m[c..e]) + PageOf(rest)
    ensures PageOf(m[pos..]) == PageOf(m[pos..b]) + PageOf(m[b..c]) + PageOf(m[c..e]) + PageOf(m[e..])
  {
    PageOfMark(MarkText(DisabledAttributes), false);
    PageOfThree(m[pos..b], Mark(MarkText(DisabledAttributes), false), m[c..e], rest);
    FourSlices(m, pos, b, c, e);
    PageOfFour(m[pos..b], m[b..c], m[c..e], m[e..]);
  }

  lemma FourSlices(m: Marked, pos: nat, b: nat, c: nat, e: nat)
    requires pos <= b <= c <= e <= |m|
    ensures m[pos..] == m[pos..b] + m[b..c] + m[c..e] + m[e..]
  {
  }

  lemma PageOfThree(a: Marked, inserted: Marked, c: Marked, d: Marked)
    requires PageOf(inserted) == ""
    ensures PageOf(a + inserted + c + d) == PageOf(a) + PageOf(c) + PageOf(d)
  {
    PageOfFour(a, inserted, c, d);
    assert PageOf(a) + "" == PageOf(a);
  }

  lemma PageOfFour(a: Marked, b: Marked, c: Marked, d: Marked)
    ensures PageOf(a + b + c + d) == PageOf(a) + PageOf(b) + PageOf(c) + PageOf(d)
  {
    PageAppend(a + b + c, d);
    PageAppend(a + b, c);
    PageAppend(a, b);
  }

  // ------------------------------------------------------------------ the whole response

  /** The page that is sent, with its characters marked. */
  function Response(html: string, forms: seq<Form>, subs: seq<Submit>, ids: set<string>): Marked
    requires Ordered(html, forms) && OrderedSubmits(Show(Rewritten(html, forms)), subs, 0)
  {
    PiecesMarked(Rewritten(html, forms));
    Disabled(MarkPieces(Rewritten(html, forms)), subs, ids, 0)
  }

  /** Erasing everything that was inserted gives back the page if and only if the page does not mix wrapped and
      self-disabled refused forms, and no button that is disabled has white space in front of its closing bracket. */
  lemma ResponseOnlyInsertsIff(html: string, forms: seq<Form>, subs: seq<Submit>, ids: set<string>)
    requires Ordered(html, forms) && OrderedSubmits(Show(Rewritten(html, forms)), subs, 0)
    ensures PageOf(Response(html, forms, subs, ids)) == html
            <==> !(AnyWrap(Actions(html, forms, 0)) && AnySkip(Actions(html, forms, 0)))
                 && NoTrailingSpace(Show(Rewritten(html, forms)), subs, ids, 0)
  {
    var ps := Rewritten(html, forms);
    var m := MarkPieces(ps);
    PiecesMarked(ps);
    PiecesTight(ps);
    DisabledPage(m, subs, ids, 0);
    assert m[0..] == m;
    OnlyInsertsIff(html, forms);
    if AnyWrap(Actions(html, forms, 0)) && AnySkip(Actions(html, forms, 0)) { MixedPagesLoseText(html, forms); }
  }

  /** `_readonly_refused_forms`, lines 1597-1637: both passes. `find` lists the buttons of a page that name a form. */
  method RewriteResponse(html: string, forms: seq<Form>, find: string -> seq<Submit>)
    returns (page: string, changed: bool)
    requires Ordered(html, forms) && forall p :: OrderedSubmits(p, find(p), 0)
    ensures var wrapped, ids := Show(Rewritten(html, forms)), Blocked(Actions(html, forms, 0));
            && page == TextOf(Response(html, forms, find(wrapped), ids))
            && (changed <==> AnyWrap(Actions(html, forms, 0)) || exists m :: m in find(wrapped) && ToDisable(m, ids))
  {
    var wrapped, wraps, ids := RewriteForms(html, forms);
    var subs := find(wrapped);
    PiecesMarked(Rewritten(html, forms));
    DisabledShows(MarkPieces(Rewritten(html, forms)), subs, ids, 0);
    if ids == {} {
      NothingToDisable(wrapped, subs, 0);
      assert wrapped[0..] == wrapped;
      return wrapped, wraps;
    }
    var n: nat;
    page, n := DisableExternalSubmits(wrapped, subs, ids);
    changed := wraps || n > 0;
  }

  lemma {:induction false} NothingToDisable(t: string, subs: seq<Submit>, pos: nat)
    requires OrderedSubmits(t, subs, pos)
    ensures Show(DisabledPieces(t, subs, {}, pos)) == t[pos..]
  {
    if subs == [] {
      ShowOne(Keep(t[pos..], pos));
    } else {
      SubmitsFrom(t, subs, pos);
      NothingToDisable(t, subs[1..], pos);
    }
  }
}

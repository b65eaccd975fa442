/** The page rewriter of app/__init__.py that makes refused forms read-only: `_readonly_refused_forms` and
    `_disable_external_submits`. Regular-expression matches are given as ordered, disjoint ranges of the page. */
module RefusedForms {
  import opened Text

  // ------------------------------------------------------------------ output as kept and inserted pieces

  /** The fragments the rewriting inserts. */
  datatype Mark = ReadonlyAttribute | Note | FieldsetOpen | FieldsetClose | DisabledAttributes

  /** The wording of the note is translated and styled in the source; only its frame is kept here. */
  function MarkText(m: Mark): string {
    match m
    case ReadonlyAttribute => " data-hr-readonly=\"1\""
    case Note => "<p" + " data-hr-readonly-note" + "=\"1\"></p>"
    case FieldsetOpen => "<fieldset disabled" + " style=\"border:0;padding:0;" + "margin:0;min-width:0\">"
    case FieldsetClose => "</fieldset>"
    case DisabledAttributes => " disabled" + " aria-disabled=\"true\""
  }

  /** A stretch of the page with the position it comes from, or an inserted fragment. */
  datatype Piece = Keep(text: string, at: nat) | Insert(mark: Mark)

  function Show(ps: seq<Piece>): string {
    if ps == [] then "" else (if ps[0].Keep? then ps[0].text else MarkText(ps[0].mark)) + Show(ps[1..])
  }

  /** The output with the inserted fragments erased. */
  function Erase(ps: seq<Piece>): string {
    if ps == [] then "" else (if ps[0].Keep? then ps[0].text else "") + Erase(ps[1..])
  }

  lemma {:induction false} EraseAppend(a: seq<Piece>, b: seq<Piece>)
    ensures Erase(a + b) == Erase(a) + Erase(b)
  {
    if a == [] {
      assert a + b == b;
    } else {
      EraseAppend(a[1..], b);
      assert (a + b)[1..] == a[1..] + b;
    }
  }

  // ------------------------------------------------------------------ forms

  /** A match of the POST form's opening tag, [start, open), with the server's decision about its action. */
  datatype Form = Form(start: nat, open: nat, refused: bool, id: Option<string>)

  predicate TagAt(html: string, start: nat, end: nat) {
    start < end <= |html| && html[end - 1] == '>' && '>' !in html[start..end - 1]
  }

  predicate Ordered(html: string, forms: seq<Form>) {
    && (forall i :: 0 <= i < |forms| ==> TagAt(html, forms[i].start, forms[i].open))
    && (forall i, j :: 0 <= i < j < |forms| ==> forms[i].open <= forms[j].start)
  }

  /** The template has already disabled this form itself (lines 1619-1621). */
  predicate SelfDisabled(html: string, f: Form, end: nat)
    requires f.start <= f.open <= end <= |html|
  {
    || Occurs("data-hr-readonly", html[f.start..f.open])
    || Occurs("hr-ro-note", html[f.open..end])
    || Occurs("hr-readonly", html[f.open..end])
  }

  /** What the loop does with a form it stops at: wrap it up to its closing tag, or step over it. */
  datatype Action = Wrap(form: Form, end: nat) | Skip(form: Form, end: nat)

  function Close(html: string, f: Form): Option<nat> { Find(html, "</form>", f.open) }

  /** The forms the loop acts on, in order; pos is where the last one it acted on ended. */
  function Actions(html: string, forms: seq<Form>, pos: nat): seq<Action>
    requires Ordered(html, forms)
  {
    if forms == [] then []
    else
      var f := forms[0];
      var end := Close(html, f);
      if f.start < pos || !f.refused || end.None? then Actions(html, forms[1..], pos)
      else
        [if SelfDisabled(html, f, end.value) then Skip(f, end.value) else Wrap(f, end.value)]
        + Actions(html, forms[1..], end.value)
  }

  /** The actions advance through the page without gaps in what they cover. */
  predicate Advancing(html: string, acts: seq<Action>, pos: nat) {
    if acts == [] then pos <= |html|
    else
      var a := acts[0];
      && pos <= a.form.start && TagAt(html, a.form.start, a.form.open) && a.form.open <= a.end <= |html|
      && Advancing(html, acts[1..], a.end)
  }

  lemma {:induction false} ActionsAdvance(html: string, forms: seq<Form>, pos: nat)
    requires Ordered(html, forms) && pos <= |html|
    ensures Advancing(html, Actions(html, forms, pos), pos)
  {
    if forms != [] {
      var f := forms[0];
      var end := Close(html, f);
      if f.start < pos || !f.refused || end.None? {
        ActionsAdvance(html, forms[1..], pos);
      } else {
        ActionsAdvance(html, forms[1..], end.value);
        assert Actions(html, forms, pos)[1..] == Actions(html, forms[1..], end.value);
      }
    }
  }

  function WrapPieces(html: string, f: Form, end: nat, pos: nat): seq<Piece>
    requires pos <= f.start && TagAt(html, f.start, f.open) && f.open <= end <= |html|
  {
    [Keep(html[pos..f.open - 1], pos), Insert(ReadonlyAttribute), Keep(">", f.open - 1),
     Insert(Note), Insert(FieldsetOpen), Keep(html[f.open..end], f.open), Insert(FieldsetClose)]
  }

  /** What the loop emits from pos on, with the rest of the page at the end; a skipped form moves pos and emits
      nothing. */
  function Pieces(html: string, acts: seq<Action>, pos: nat): seq<Piece>
    requires Advancing(html, acts, pos)
  {
    if acts == [] then [Keep(html[pos..], pos)]
    else if acts[0].Wrap? then WrapPieces(html, acts[0].form, acts[0].end, pos) + Pieces(html, acts[1..], acts[0].end)
    else Pieces(html, acts[1..], acts[0].end)
  }

  predicate AnyWrap(acts: seq<Action>) { exists i :: 0 <= i < |acts| && acts[i].Wrap? }
  predicate AnySkip(acts: seq<Action>) { exists i :: 0 <= i < |acts| && acts[i].Skip? }

  function IdOf(f: Form): set<string> { if f.id.Some? then {f.id.value} else {} }

  /** The ids of the forms acted on, wrapped or stepped over. */
  function Blocked(acts: seq<Action>): set<string> {
    if acts == [] then {} else IdOf(acts[0].form) + Blocked(acts[1..])
  }

  /** The rewritten page, as the pieces it is made of. */
  function Rewritten(html: string, forms: seq<Form>): seq<Piece>
    requires Ordered(html, forms)
  {
    ActionsAdvance(html, forms, 0);
    var acts := Actions(html, forms, 0);
    if AnyWrap(acts) then Pieces(html, acts, 0) else [Keep(html, 0)]
  }

  lemma EraseWrapped(html: string, f: Form, end: nat, pos: nat)
    requires pos <= f.start && TagAt(html, f.start, f.open) && f.open <= end <= |html|
    ensures Erase(WrapPieces(html, f, end, pos)) == html[pos..end]
  {
    var ps := WrapPieces(html, f, end, pos);
    EraseFour(ps[0], ps[1], ps[2], ps[3]);
    EraseFour(ps[4], ps[5], ps[6], Insert(FieldsetClose));
    EraseAppend([ps[0], ps[1], ps[2], ps[3]], [ps[4], ps[5], ps[6]]);
    assert ps == [ps[0], ps[1], ps[2], ps[3]] + [ps[4], ps[5], ps[6]];
    assert html[pos..end] == html[pos..f.open - 1] + ">" + html[f.open..end];
  }

  function Kept(p: Piece): string { if p.Keep? then p.text else "" }

  lemma EraseFour(p: Piece, q: Piece, r: Piece, s: Piece)
    ensures Erase([p, q, r]) == Kept(p) + Kept(q) + Kept(r)
    ensures Erase([p, q, r, s]) == Kept(p) + Kept(q) + Kept(r) + Kept(s)
  {
    EraseLast(r, []);
    EraseLast(s, []);
    EraseLast(q, [r]);
    EraseLast(p, [q, r]);
    EraseAppend([p, q, r], [s]);
    assert [r] + [] == [r] && [s] + [] == [s] && [q] + [r] == [q, r] && [p] + [q, r] == [p, q, r];
    assert [p, q, r] + [s] == [p, q, r, s];
  }

  lemma EraseLast(p: Piece, rest: seq<Piece>)
    ensures Erase([p] + rest) == Kept(p) + Erase(rest)
  {
    assert ([p] + rest)[1..] == rest;
  }

  lemma {:induction false} EraseLength(html: string, acts: seq<Action>, pos: nat)
    requires Advancing(html, acts, pos)
    ensures !AnySkip(acts) ==> Erase(Pieces(html, acts, pos)) == html[pos..]
    ensures |Erase(Pieces(html, acts, pos))| <= |html| - pos
    ensures AnySkip(acts) ==> |Erase(Pieces(html, acts, pos))| < |html| - pos
  {
    if acts != [] {
      var a, rest := acts[0], acts[1..];
      EraseLength(html, rest, a.end);
      assert AnySkip(acts) <==> a.Skip? || AnySkip(rest) by {
        assert forall i :: 0 <= i < |rest| ==> rest[i] == acts[i + 1];
        assert forall i :: 1 <= i < |acts| ==> acts[i] == rest[i - 1];
      }
      if a.Wrap? {
        EraseWrapped(html, a.form, a.end, pos);
        EraseAppend(WrapPieces(html, a.form, a.end, pos), Pieces(html, rest, a.end));
        assert html[pos..a.end] + html[a.end..] == html[pos..];
      }
    } else {
      assert Erase([Keep(html[pos..], pos)]) == html[pos..] + Erase([]);
    }
  }

  /** The rewriting only inserts text, that is, erasing the inserted fragments gives back the page, if and only if the
      page does not have both a wrapped refused form and a self-disabled refused form that the loop stops at. */
  lemma OnlyInsertsIff(html: string, forms: seq<Form>)
    requires Ordered(html, forms)
    ensures Erase(Rewritten(html, forms)) == html
            <==> !(AnyWrap(Actions(html, forms, 0)) && AnySkip(Actions(html, forms, 0)))
  {
    ActionsAdvance(html, forms, 0);
    var acts := Actions(html, forms, 0);
    if AnyWrap(acts) {
      EraseLength(html, acts, 0);
      assert html[0..] == html;
    } else {
      assert Erase([Keep(html, 0)]) == html + Erase([]);
    }
  }

  /** On a mixed page text is lost. */
  lemma MixedPagesLoseText(html: string, forms: seq<Form>)
    requires Ordered(html, forms) && AnyWrap(Actions(html, forms, 0)) && AnySkip(Actions(html, forms, 0))
    ensures |Erase(Rewritten(html, forms))| < |html|
  {
    ActionsAdvance(html, forms, 0);
    EraseLength(html, Actions(html, forms, 0), 0);
  }

  // ------------------------------------------------------------------ the loop

  /** Whether the loop acts on the form, and where the form ends. */
  predicate ActsOn(html: string, f: Form, pos: nat) {
    f.start >= pos && f.refused && Close(html, f).Some?
  }

  function ActionFor(html: string, f: Form): Action
    requires TagAt(html, f.start, f.open) && Close(html, f).Some?
  {
    var end := Close(html, f).value;
    if SelfDisabled(html, f, end) then Skip(f, end) else Wrap(f, end)
  }

  lemma ActionsUnfold(html: string, forms: seq<Form>, n: nat, pos: nat)
    requires Ordered(html, forms) && n < |forms|
    ensures Ordered(html, forms[n..]) && Ordered(html, forms[n + 1..])
    ensures Actions(html, forms[n..], pos)
            == if ActsOn(html, forms[n], pos)
               then [ActionFor(html, forms[n])] + Actions(html, forms[n + 1..], ActionFor(html, forms[n]).end)
               else Actions(html, forms[n + 1..], pos)
  {
    assert forms[n..][0] == forms[n] && forms[n..][1..] == forms[n + 1..];
  }

  lemma PiecesUnfold(html: string, a: Action, rest: seq<Action>, pos: nat)
    requires Advancing(html, [a] + rest, pos)
    ensures Advancing(html, rest, a.end)
    ensures Pieces(html, [a] + rest, pos)
            == (if a.Wrap? then WrapPieces(html, a.form, a.end, pos) else []) + Pieces(html, rest, a.end)
    ensures AnyWrap([a] + rest) <==> a.Wrap? || AnyWrap(rest)
    ensures Blocked([a] + rest) == IdOf(a.form) + Blocked(rest)
  {
    var acts := [a] + rest;
    assert acts[1..] == rest;
    assert forall i :: 0 <= i < |rest| ==> rest[i] == acts[i + 1];
    assert forall i :: 1 <= i < |acts| ==> acts[i] == rest[i - 1];
  }

  /** The loop's variables. */
  datatype Scan = Scan(out: seq<Piece>, pos: nat, changed: bool, blocked: set<string>)

  /** What one round does to them. */
  function Visit(html: string, f: Form, s: Scan): Scan
    requires TagAt(html, f.start, f.open)
  {
    if !ActsOn(html, f, s.pos) then s
    else
      var a := ActionFor(html, f);
      Scan(s.out + (if a.Wrap? then WrapPieces(html, f, a.end, s.pos) else []), a.end, s.changed || a.Wrap?,
           s.blocked + IdOf(f))
  }

  /** One round of the loop (lines 1600-1631); `out` records which of its pieces come from the page. */
  method VisitForm(html: string, f: Form, s: Scan) returns (s': Scan)
    requires TagAt(html, f.start, f.open)
    ensures s' == Visit(html, f, s)
  {
    s' := s;
    if f.start < s.pos || !f.refused { return; }
    var close := Close(html, f);
    if close.None? { return; }
    var end := close.value;
    if f.id.Some? { s' := s'.(blocked := s.blocked + {f.id.value}); }
    if SelfDisabled(html, f, end) {
      s' := s'.(pos := end);
      return;
    }
    s' := s'.(out := s.out + [Keep(html[s.pos..f.open - 1], s.pos), Insert(ReadonlyAttribute), Keep(">", f.open - 1),
                              Insert(Note), Insert(FieldsetOpen), Keep(html[f.open..end], f.open),
                              Insert(FieldsetClose)],
              pos := end, changed := true);
  }

  /** What is already emitted, followed by what the remaining forms will emit, is the whole output. */
  ghost predicate LoopInv(html: string, forms: seq<Form>, n: nat, s: Scan) {
    && Ordered(html, forms) && n <= |forms|
    && var all, acts := Actions(html, forms, 0), Actions(html, forms[n..], s.pos);
    && Advancing(html, all, 0) && Advancing(html, acts, s.pos)
    && (AnyWrap(all) <==> s.changed || AnyWrap(acts))
    && s.out + Pieces(html, acts, s.pos) == Pieces(html, all, 0)
    && s.blocked + Blocked(acts) == Blocked(all)
  }

  lemma LoopStep(html: string, forms: seq<Form>, n: nat, s: Scan)
    requires LoopInv(html, forms, n, s) && n < |forms|
    ensures LoopInv(html, forms, n + 1, Visit(html, forms[n], s))
  {
    ActionsUnfold(html, forms, n, s.pos);
    if ActsOn(html, forms[n], s.pos) {
      var a := ActionFor(html, forms[n]);
      var rest := Actions(html, forms[n + 1..], a.end);
      PiecesUnfold(html, a, rest, s.pos);
      var added := if a.Wrap? then WrapPieces(html, a.form, a.end, s.pos) else [];
      Assoc(s.out, added, Pieces(html, rest, a.end));
    }
  }

  /** `_readonly_refused_forms`, lines 1597-1634. */
  method RewriteForms(html: string, forms: seq<Form>) returns (page: string, changed: bool, blocked: set<string>)
    requires Ordered(html, forms)
    ensures page == Show(Rewritten(html, forms))
    ensures changed == AnyWrap(Actions(html, forms, 0)) && blocked == Blocked(Actions(html, forms, 0))
  {
    ActionsAdvance(html, forms, 0);
    var s := Scan([], 0, false, {});
    assert LoopInv(html, forms, 0, s) by { assert forms[0..] == forms; }
    for n := 0 to |forms|
      invariant LoopInv(html, forms, n, s)
    {
      LoopStep(html, forms, n, s);
      s := VisitForm(html, forms[n], s);
    }
    assert forms[|forms|..] == [];
    changed, blocked := s.changed, s.blocked;
    if changed {
      page := Show(s.out + [Keep(html[s.pos..], s.pos)]);
    } else {
      assert Show([Keep(html, 0)]) == html + Show([]);
      page := html;
    }
  }

  // ------------------------------------------------------------------ submit buttons outside their form

  /** A match of a button or input with a `form` attribute. */
  datatype Submit = Submit(start: nat, end: nat, form: string, disabled: bool)

  predicate OrderedSubmits(html: string, subs: seq<Submit>, pos: nat) {
    if subs == [] then pos <= |html|
    else pos <= subs[0].start && TagAt(html, subs[0].start, subs[0].end) && OrderedSubmits(html, subs[1..], subs[0].end)
  }

  predicate ToDisable(m: Submit, ids: set<string>) { m.form in ids && !m.disabled }

  /** Where the closing "/>" or ">" of a tag begins. */
  function Closing(html: string, m: Submit): nat
    requires TagAt(html, m.start, m.end)
  {
    if m.end - m.start >= 2 && html[m.end - 2] == '/' then m.end - 2 else m.end - 1
  }

  /** Where the tag's text ends once trailing white space is stripped (line 1572). */
  function BodyEnd(html: string, m: Submit): (e: nat)
    requires TagAt(html, m.start, m.end)
    ensures m.start <= e <= Closing(html, m)
  {
    m.start + |RStrip(html[m.start..Closing(html, m)])|
  }

  function SubmitPieces(html: string, m: Submit, pos: nat): seq<Piece>
    requires pos <= m.start && TagAt(html, m.start, m.end)
  {
    [Keep(html[pos..BodyEnd(html, m)], pos), Insert(DisabledAttributes),
     Keep(html[Closing(html, m)..m.end], Closing(html, m))]
  }

  function DisabledPieces(html: string, subs: seq<Submit>, ids: set<string>, pos: nat): seq<Piece>
    requires OrderedSubmits(html, subs, pos)
  {
    if subs == [] then [Keep(html[pos..], pos)]
    else if !ToDisable(subs[0], ids) then (SubmitsFrom(html, subs, pos); DisabledPieces(html, subs[1..], ids, pos))
    else SubmitPieces(html, subs[0], pos) + DisabledPieces(html, subs[1..], ids, subs[0].end)
  }

  lemma {:induction false} SubmitsFrom(html: string, subs: seq<Submit>, pos: nat)
    requires OrderedSubmits(html, subs, pos) && subs != []
    ensures OrderedSubmits(html, subs[1..], pos)
  {
    if |subs| > 1 { SubmitsFrom(html, subs[1..], subs[0].end); }
  }

  /** No tag that is to be disabled has white space in front of its closing bracket. */
  predicate NoTrailingSpace(html: string, subs: seq<Submit>, ids: set<string>, pos: nat)
    requires OrderedSubmits(html, subs, pos)
  {
    if subs == [] then true
    else
      && (ToDisable(subs[0], ids) ==> BodyEnd(html, subs[0]) == Closing(html, subs[0]))
      && NoTrailingSpace(html, subs[1..], ids, subs[0].end)
  }

  lemma {:induction false} NoTrailingSpaceFrom(html: string, subs: seq<Submit>, ids: set<string>, pos: nat, pos': nat)
    requires OrderedSubmits(html, subs, pos) && OrderedSubmits(html, subs, pos')
    ensures NoTrailingSpace(html, subs, ids, pos) == NoTrailingSpace(html, subs, ids, pos')
  {
  }

  lemma EraseSubmit(html: string, m: Submit, pos: nat)
    requires pos <= m.start && TagAt(html, m.start, m.end)
    ensures |Erase(SubmitPieces(html, m, pos))| == m.end - pos - (Closing(html, m) - BodyEnd(html, m))
    ensures BodyEnd(html, m) == Closing(html, m) ==> Erase(SubmitPieces(html, m, pos)) == html[pos..m.end]
  {
    EraseBetween(html[pos..BodyEnd(html, m)], pos, html[Closing(html, m)..m.end], Closing(html, m));
    TwoSlices(html, pos, BodyEnd(html, m), Closing(html, m), m.end);
  }

  lemma EraseBetween(a: string, i: nat, b: string, j: nat)
    ensures Erase([Keep(a, i), Insert(DisabledAttributes), Keep(b, j)]) == a + b
  {
    EraseFour(Keep(a, i), Insert(DisabledAttributes), Keep(b, j), Keep(b, j));
    assert a + "" == a;
  }

  lemma TwoSlices(html: string, pos: nat, b: nat, c: nat, end: nat)
    requires pos <= b <= c <= end <= |html|
    ensures |html[pos..b] + html[c..end]| == end - pos - (c - b)
    ensures b == c ==> html[pos..b] + html[c..end] == html[pos..end]
  {
    if b == c { SliceJoin(html, pos, b, end); }
  }

  lemma EraseSubmitAndMore(html: string, m: Submit, pos: nat, more: seq<Piece>)
    requires pos <= m.start && TagAt(html, m.start, m.end)
    ensures var kept := Erase(SubmitPieces(html, m, pos) + more);
            && |kept| == m.end - pos - (Closing(html, m) - BodyEnd(html, m)) + |Erase(more)|
            && (BodyEnd(html, m) == Closing(html, m) && Erase(more) == html[m.end..] ==> kept == html[pos..])
  {
    EraseSubmit(html, m, pos);
    EraseAppend(SubmitPieces(html, m, pos), more);
    SliceTail(html, pos, m.end);
  }

  lemma {:induction false} EraseDisabled(html: string, subs: seq<Submit>, ids: set<string>, pos: nat)
    requires OrderedSubmits(html, subs, pos)
    ensures var kept := Erase(DisabledPieces(html, subs, ids, pos));
            && |kept| <= |html| - pos
            && (NoTrailingSpace(html, subs, ids, pos) ==> kept == html[pos..])
            && (!NoTrailingSpace(html, subs, ids, pos) ==> |kept| < |html| - pos)
  {
    if subs == [] {
      EraseLast(Keep(html[pos..], pos), []);
    } else {
      var m, rest := subs[0], subs[1..];
      if !ToDisable(m, ids) {
        SubmitsFrom(html, subs, pos);
        EraseDisabled(html, rest, ids, pos);
        NoTrailingSpaceFrom(html, rest, ids, pos, m.end);
      } else {
        EraseDisabled(html, rest, ids, m.end);
        EraseSubmitAndMore(html, m, pos, DisabledPieces(html, rest, ids, m.end));
      }
    }
  }

  /** Disabling only inserts text if and only if no disabled tag has white space before its closing bracket: the code
      strips that space. */
  lemma DisablingOnlyInsertsIff(html: string, subs: seq<Submit>, ids: set<string>)
    requires OrderedSubmits(html, subs, 0)
    ensures Erase(DisabledPieces(html, subs, ids, 0)) == html <==> NoTrailingSpace(html, subs, ids, 0)
  {
    EraseDisabled(html, subs, ids, 0);
    assert html[0..] == html;
  }

  /** One round of the loop. */
  lemma SubmitStep(html: string, subs: seq<Submit>, ids: set<string>, n: nat, pos: nat)
    requires n < |subs| && OrderedSubmits(html, subs[n..], pos)
    ensures var m, rest := subs[n], subs[n + 1..];
            && pos <= m.start && TagAt(html, m.start, m.end)
            && OrderedSubmits(html, rest, m.end) && OrderedSubmits(html, rest, pos)
            && DisabledPieces(html, subs[n..], ids, pos)
               == if ToDisable(m, ids) then SubmitPieces(html, m, pos) + DisabledPieces(html, rest, ids, m.end)
                  else DisabledPieces(html, rest, ids, pos)
  {
    assert subs[n..][0] == subs[n] && subs[n..][1..] == subs[n + 1..];
    SubmitsFrom(html, subs[n..], pos);
  }

  /** `_disable_external_submits`. */
  method DisableExternalSubmits(html: string, subs: seq<Submit>, ids: set<string>) returns (page: string, count: nat)
    requires OrderedSubmits(html, subs, 0)
    ensures page == Show(DisabledPieces(html, subs, ids, 0))
    ensures count == 0 <==> forall m :: m in subs ==> !ToDisable(m, ids)
  {
    var out: seq<Piece> := [];
    var pos: nat := 0;
    count := 0;
    assert DisableInv(html, subs, ids, 0, out, pos, count) by { assert subs[0..] == subs; }
    for n := 0 to |subs|
      invariant DisableInv(html, subs, ids, n, out, pos, count)
    {
      var m := subs[n];
      DisableStep(html, subs, ids, n, out, pos, count);
      if !ToDisable(m, ids) { continue; }
      out := out + SubmitPieces(html, m, pos);
      pos, count := m.end, count + 1;
    }
    AllDisabled(html, subs, ids, out, pos, count);
    if count == 0 { return html, 0; }
    page := Show(out + [Keep(html[pos..], pos)]);
  }

  /** What is already emitted, followed by what the remaining tags will emit, is the whole output. */
  ghost predicate DisableInv(html: string, subs: seq<Submit>, ids: set<string>, n: nat, out: seq<Piece>, pos: nat,
                             count: nat) {
    && n <= |subs| && OrderedSubmits(html, subs, 0) && OrderedSubmits(html, subs[n..], pos)
    && out + DisabledPieces(html, subs[n..], ids, pos) == DisabledPieces(html, subs, ids, 0)
    && (count == 0 ==> out == [] && pos == 0)
    && (count == 0 <==> forall k :: 0 <= k < n ==> !ToDisable(subs[k], ids))
  }

  lemma AllDisabled(html: string, subs: seq<Submit>, ids: set<string>, out: seq<Piece>, pos: nat, count: nat)
    requires DisableInv(html, subs, ids, |subs|, out, pos, count)
    ensures pos <= |html| && out + [Keep(html[pos..], pos)] == DisabledPieces(html, subs, ids, 0)
    ensures count == 0 ==> Show(DisabledPieces(html, subs, ids, 0)) == html
    ensures count == 0 <==> forall m :: m in subs ==> !ToDisable(m, ids)
  {
    assert subs[|subs|..] == [];
    if count == 0 {
      assert html[0..] == html && out + [Keep(html, 0)] == [Keep(html, 0)];
      assert Show([Keep(html, 0)]) == html + Show([]);
    }
  }

  lemma DisableStep(html: string, subs: seq<Submit>, ids: set<string>, n: nat, out: seq<Piece>, pos: nat, count: nat)
    requires n < |subs| && DisableInv(html, subs, ids, n, out, pos, count)
    ensures pos <= subs[n].start && TagAt(html, subs[n].start, subs[n].end)
    ensures if ToDisable(subs[n], ids)
            then DisableInv(html, subs, ids, n + 1, out + SubmitPieces(html, subs[n], pos), subs[n].end, count + 1)
            else DisableInv(html, subs, ids, n + 1, out, pos, count)
  {
    SubmitStep(html, subs, ids, n, pos);
    if ToDisable(subs[n], ids) {
      Assoc(out, SubmitPieces(html, subs[n], pos), DisabledPieces(html, subs[n + 1..], ids, subs[n].end));
    }
  }
}

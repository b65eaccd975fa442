/** Form by form, what `_readonly_refused_forms` (app/__init__.py) inserts: each refused form that is to be wrapped
    gets one note and one fieldset, and nothing is inserted anywhere else. */
module FormWrapping {
  import opened Text
  import opened RefusedForms

  // ------------------------------------------------------------------ which forms are handled

  /** The form is refused, has an end, and does not start inside a form that is handled before it. */
  ghost predicate Handled(html: string, forms: seq<Form>, i: nat)
    requires i < |forms|
    decreases i
  {
    && forms[i].refused && Close(html, forms[i]).Some?
    && forall j :: 0 <= j < i && Handled(html, forms, j) ==> Close(html, forms[j]).value <= forms[i].start
  }

  /** It is handled and has not disabled itself. */
  ghost predicate ToWrap(html: string, forms: seq<Form>, i: nat)
    requires Ordered(html, forms) && i < |forms|
  {
    Handled(html, forms, i) && !SelfDisabled(html, forms[i], Close(html, forms[i]).value)
  }

  /** Where the last handled form among the first n ends. */
  ghost function LastEnd(html: string, forms: seq<Form>, n: nat): nat
    requires n <= |forms|
  {
    if n == 0 then 0
    else if Handled(html, forms, n - 1) then Close(html, forms[n - 1]).value
    else LastEnd(html, forms, n - 1)
  }

  /** The loop's cursor says as much as all ends of handled forms together. */
  lemma {:induction false} LastEndIsLast(html: string, forms: seq<Form>, n: nat, x: nat)
    requires Ordered(html, forms) && n <= |forms|
    ensures LastEnd(html, forms, n) <= x
            <==> forall j :: 0 <= j < n && Handled(html, forms, j) ==> Close(html, forms[j]).value <= x
  {
    if n > 0 {
      LastEndIsLast(html, forms, n - 1, x);
      if Handled(html, forms, n - 1) {
        forall j | 0 <= j < n - 1 && Handled(html, forms, j)
          ensures Close(html, forms[j]).value <= Close(html, forms[n - 1]).value
        {
          assert Close(html, forms[j]).value <= forms[n - 1].start;
        }
      }
    }
  }

  lemma ActsOnHandled(html: string, forms: seq<Form>, n: nat)
    requires Ordered(html, forms) && n < |forms|
    ensures ActsOn(html, forms[n], LastEnd(html, forms, n)) <==> Handled(html, forms, n)
  {
    LastEndIsLast(html, forms, n, forms[n].start);
  }

  /** The action of a handled form, from form n on. */
  ghost predicate ActionFrom(html: string, forms: seq<Form>, n: nat, a: Action)
    requires Ordered(html, forms)
  {
    exists i :: n <= i < |forms| && Handled(html, forms, i) && a == ActionFor(html, forms[i])
  }

  lemma ActionFromStep(html: string, forms: seq<Form>, n: nat, a: Action)
    requires Ordered(html, forms) && n < |forms|
    ensures ActionFrom(html, forms, n, a) <==>
            (Handled(html, forms, n) && a == ActionFor(html, forms[n])) || ActionFrom(html, forms, n + 1, a)
  {
  }

  /** What the loop does from form n on: exactly the handled forms, each as ActionFor says. */
  lemma {:induction false} ActionsAreHandled(html: string, forms: seq<Form>, n: nat, a: Action)
    requires Ordered(html, forms) && n <= |forms|
    ensures Ordered(html, forms[n..])
    ensures a in Actions(html, forms[n..], LastEnd(html, forms, n)) <==> ActionFrom(html, forms, n, a)
    decreases |forms| - n
  {
    if n < |forms| {
      var pos := LastEnd(html, forms, n);
      ActionsUnfold(html, forms, n, pos);
      ActsOnHandled(html, forms, n);
      ActionFromStep(html, forms, n, a);
      ActionsAreHandled(html, forms, n + 1, a);
      assert LastEnd(html, forms, n + 1) == if ActsOn(html, forms[n], pos) then ActionFor(html, forms[n]).end else pos;
    }
  }

  // ------------------------------------------------------------------ where the pieces are

  /** The forms that are wrapped, in order. */
  function Wraps(acts: seq<Action>): seq<Action> {
    if acts == [] then [] else (if acts[0].Wrap? then [acts[0]] else []) + Wraps(acts[1..])
  }

  lemma {:induction false} WrapsMembers(acts: seq<Action>, a: Action)
    ensures a in Wraps(acts) <==> a in acts && a.Wrap?
  {
    if acts != [] { WrapsMembers(acts[1..], a); }
  }

  /** From piece k on: the page up to the bracket of the form's opening tag, the attribute, the bracket, the note, the
      fieldset, the form up to its end, and the end of the fieldset. */
  predicate WrapsAt(html: string, ps: seq<Piece>, k: nat, f: Form, end: nat) {
    && k + 7 <= |ps| && 1 <= f.open <= end <= |html|
    && ps[k].Keep? && ps[k].at + |ps[k].text| == f.open - 1
    && ps[k + 1] == Insert(ReadonlyAttribute) && ps[k + 2] == Keep(">", f.open - 1)
    && ps[k + 3] == Insert(Note) && ps[k + 4] == Insert(FieldsetOpen)
    && ps[k + 5] == Keep(html[f.open..end], f.open) && ps[k + 6] == Insert(FieldsetClose)
  }

  /** Seven pieces for each wrap, and the rest of the page. */
  ghost predicate Laid(html: string, ps: seq<Piece>, ws: seq<Action>) {
    && |ps| == 7 * |ws| + 1 && ps[7 * |ws|].Keep?
    && forall j :: 0 <= j < |ws| ==> WrapsAt(html, ps, 7 * j, ws[j].form, ws[j].end)
  }

  lemma WrapsShift(html: string, block: seq<Piece>, ps: seq<Piece>, k: nat, f: Form, end: nat)
    ensures WrapsAt(html, ps, k, f, end) ==> WrapsAt(html, block + ps, |block| + k, f, end)
    ensures WrapsAt(html, block, k, f, end) ==> WrapsAt(html, block + ps, k, f, end)
  {
    var all := block + ps;
    assert forall q :: 0 <= q < |ps| ==> all[|block| + q] == ps[q];
  }

  lemma LaidCons(html: string, block: seq<Piece>, w: Action, ps: seq<Piece>, ws: seq<Action>)
    requires |block| == 7 && WrapsAt(html, block, 0, w.form, w.end) && Laid(html, ps, ws)
    ensures Laid(html, block + ps, [w] + ws)
  {
    var all, more := block + ps, [w] + ws;
    forall j | 0 <= j < |more| ensures WrapsAt(html, all, 7 * j, more[j].form, more[j].end) {
      if j == 0 {
        WrapsShift(html, block, ps, 0, w.form, w.end);
      } else {
        WrapsShift(html, block, ps, 7 * (j - 1), ws[j - 1].form, ws[j - 1].end);
      }
    }
  }

  lemma {:induction false} PiecesAreLaid(html: string, acts: seq<Action>, pos: nat)
    requires Advancing(html, acts, pos)
    ensures Laid(html, Pieces(html, acts, pos), Wraps(acts))
  {
    if acts != [] {
      var a, rest := acts[0], acts[1..];
      PiecesAreLaid(html, rest, a.end);
      if a.Wrap? {
        LaidCons(html, WrapPieces(html, a.form, a.end, pos), a, Pieces(html, rest, a.end), Wraps(rest));
      } else {
        assert [] + Wraps(rest) == Wraps(rest);
      }
    }
  }

  /** Opening tags of wraps come one after the other. */
  lemma {:induction false} WrapsAscend(html: string, acts: seq<Action>, pos: nat)
    requires Advancing(html, acts, pos)
    ensures forall j :: 0 <= j < |Wraps(acts)| ==> pos < Wraps(acts)[j].form.open
    ensures forall j, k :: 0 <= j < k < |Wraps(acts)| ==> Wraps(acts)[j].form.open < Wraps(acts)[k].form.open
  {
    if acts != [] { WrapsAscend(html, acts[1..], acts[0].end); }
  }

  /** A wrap is found only where one was laid, and for its own form. */
  lemma FoundWhereLaid(html: string, ps: seq<Piece>, ws: seq<Action>, k: nat, f: Form, end: nat) returns (j: nat)
    requires Laid(html, ps, ws) && WrapsAt(html, ps, k, f, end)
    ensures k == 7 * j && j < |ws| && ws[j].form.open == f.open && ws[j].end == end
  {
    j := (k + 1) / 7;
    assert j < |ws|;
    assert WrapsAt(html, ps, 7 * j, ws[j].form, ws[j].end);
    assert ps[k + 1] == ps[7 * j + (k + 1) % 7];
  }

  /** An inserted piece belongs to the wrap whose seven pieces it is among. */
  lemma InsertedWhereLaid(html: string, ps: seq<Piece>, ws: seq<Action>, q: nat) returns (j: nat)
    requires Laid(html, ps, ws) && q < |ps| && ps[q].Insert?
    ensures j < |ws| && 7 * j < q < 7 * j + 7 && WrapsAt(html, ps, 7 * j, ws[j].form, ws[j].end)
  {
    j := q / 7;
    assert j < |ws|;
    assert WrapsAt(html, ps, 7 * j, ws[j].form, ws[j].end);
  }

  // ------------------------------------------------------------------ each form once

  lemma RewrittenIsLaid(html: string, forms: seq<Form>)
    requires Ordered(html, forms)
    ensures Laid(html, Rewritten(html, forms), Wraps(Actions(html, forms, 0)))
  {
    var acts := Actions(html, forms, 0);
    ActionsAdvance(html, forms, 0);
    if AnyWrap(acts) {
      PiecesAreLaid(html, acts, 0);
    } else if Wraps(acts) != [] {
      WrapsMembers(acts, Wraps(acts)[0]);
    }
  }

  /** The wraps are those of the forms to wrap. */
  lemma WrapsOfForms(html: string, forms: seq<Form>, w: Action)
    requires Ordered(html, forms)
    ensures w in Wraps(Actions(html, forms, 0)) <==>
            exists i :: 0 <= i < |forms| && ToWrap(html, forms, i) && w == ActionFor(html, forms[i])
  {
    WrapsMembers(Actions(html, forms, 0), w);
    ActionsAreHandled(html, forms, 0, w);
    assert forms[0..] == forms;
    if exists i :: 0 <= i < |forms| && Handled(html, forms, i) && w == ActionFor(html, forms[i]) {
      var i :| 0 <= i < |forms| && Handled(html, forms, i) && w == ActionFor(html, forms[i]);
      assert w.Wrap? <==> ToWrap(html, forms, i);
    }
  }

  /** Two forms with the same opening bracket are one form. */
  lemma SameForm(html: string, forms: seq<Form>, i: nat, j: nat)
    requires Ordered(html, forms) && i < |forms| && j < |forms| && forms[i].open == forms[j].open
    ensures i == j
  {
    assert TagAt(html, forms[i].start, forms[i].open) && TagAt(html, forms[j].start, forms[j].open);
  }

  /** Where a form is wrapped in the output, it is one to wrap, and it is wrapped up to its own end. */
  lemma WrappedOnlyIfMeant(html: string, forms: seq<Form>, i: nat, k: nat, end: nat) returns (j: nat)
    requires Ordered(html, forms) && i < |forms| && WrapsAt(html, Rewritten(html, forms), k, forms[i], end)
    ensures ToWrap(html, forms, i) && Close(html, forms[i]) == Some(end)
    ensures var ws := Wraps(Actions(html, forms, 0)); k == 7 * j && j < |ws| && ws[j] == ActionFor(html, forms[i])
  {
    var ws := Wraps(Actions(html, forms, 0));
    RewrittenIsLaid(html, forms);
    j := FoundWhereLaid(html, Rewritten(html, forms), ws, k, forms[i], end);
    WrapsOfForms(html, forms, ws[j]);
    var i' :| 0 <= i' < |forms| && ToWrap(html, forms, i') && ws[j] == ActionFor(html, forms[i']);
    SameForm(html, forms, i, i');
  }

  lemma WrappedOnce(html: string, forms: seq<Form>, i: nat, k: nat, end: nat, k': nat, end': nat)
    requires Ordered(html, forms) && i < |forms|
    requires WrapsAt(html, Rewritten(html, forms), k, forms[i], end)
             && WrapsAt(html, Rewritten(html, forms), k', forms[i], end')
    ensures k == k' && end == end'
  {
    var j := WrappedOnlyIfMeant(html, forms, i, k, end);
    var j' := WrappedOnlyIfMeant(html, forms, i, k', end');
    ActionsAdvance(html, forms, 0);
    WrapsAscend(html, Actions(html, forms, 0), 0);
    assert j == j';
  }

  lemma WrappedIfMeant(html: string, forms: seq<Form>, i: nat) returns (k: nat)
    requires Ordered(html, forms) && i < |forms| && ToWrap(html, forms, i)
    ensures WrapsAt(html, Rewritten(html, forms), k, forms[i], Close(html, forms[i]).value)
  {
    var ws, w := Wraps(Actions(html, forms, 0)), ActionFor(html, forms[i]);
    RewrittenIsLaid(html, forms);
    WrapsOfForms(html, forms, w);
    var j :| 0 <= j < |ws| && ws[j] == w;
    k := 7 * j;
  }

  /** Form i stands wrapped at exactly one place of the output. */
  ghost predicate WrappedExactlyOnce(html: string, ps: seq<Piece>, f: Form, end: nat) {
    exists k :: WrapsAt(html, ps, k, f, end)
      && forall k', end' :: WrapsAt(html, ps, k', f, end') ==> k' == k && end' == end
  }

  /** Each form that is refused, has an end, has not disabled itself and does not start inside a form handled before
      it gets exactly one note and one fieldset, the fieldset closing right before the form's own end tag; no other
      form gets any. */
  lemma EachFormWrappedOnce(html: string, forms: seq<Form>, i: nat)
    requires Ordered(html, forms) && i < |forms|
    ensures var ps := Rewritten(html, forms);
            if ToWrap(html, forms, i) then
              var end := Close(html, forms[i]).value;
              WrappedExactlyOnce(html, ps, forms[i], end) && StartsAt(html, end, "</form>")
            else forall k, end :: !WrapsAt(html, ps, k, forms[i], end)
  {
    var ps := Rewritten(html, forms);
    if ToWrap(html, forms, i) {
      var end := Close(html, forms[i]).value;
      var k := WrappedIfMeant(html, forms, i);
      forall k', end' | WrapsAt(html, ps, k', forms[i], end') ensures k' == k && end' == end {
        WrappedOnce(html, forms, i, k', end', k, end);
      }
    } else {
      forall k, end ensures !WrapsAt(html, ps, k, forms[i], end) {
        if WrapsAt(html, ps, k, forms[i], end) { var _ := WrappedOnlyIfMeant(html, forms, i, k, end); }
      }
    }
  }

  /** Every inserted fragment is one of those of a wrapped form. */
  lemma NothingElseInserted(html: string, forms: seq<Form>, q: nat) returns (i: nat, k: nat)
    requires Ordered(html, forms) && q < |Rewritten(html, forms)| && Rewritten(html, forms)[q].Insert?
    ensures i < |forms| && ToWrap(html, forms, i) && k < q < k + 7
    ensures WrapsAt(html, Rewritten(html, forms), k, forms[i], Close(html, forms[i]).value)
  {
    var ps, ws := Rewritten(html, forms), Wraps(Actions(html, forms, 0));
    RewrittenIsLaid(html, forms);
    var j := InsertedWhereLaid(html, ps, ws, q);
    k := 7 * j;
    WrapsOfForms(html, forms, ws[j]);
    i :| 0 <= i < |forms| && ToWrap(html, forms, i) && ws[j] == ActionFor(html, forms[i]);
  }

  /** Behind a wrapped form the page goes on at its end tag, unless a form that disabled itself is stepped over next. */
  lemma {:induction false} GoesOnAtEnd(html: string, acts: seq<Action>, pos: nat)
    requires Advancing(html, acts, pos) && !AnySkip(acts)
    ensures var ps := Pieces(html, acts, pos);
            && ps != [] && ps[0].Keep? && ps[0].at == pos
            && |ps| == 7 * |acts| + 1
            && forall j :: 0 <= j < |acts| ==> ps[7 * j + 7].Keep? && ps[7 * j + 7].at == acts[j].end
  {
    if acts != [] {
      var a, rest := acts[0], acts[1..];
      assert a.Wrap? && !AnySkip(rest) by { assert forall i :: 0 <= i < |rest| ==> rest[i] == acts[i + 1]; }
      GoesOnAtEnd(html, rest, a.end);
      var block, more := WrapPieces(html, a.form, a.end, pos), Pieces(html, rest, a.end);
      var all: seq<Piece> := block + more;
      forall j | 0 <= j < |acts| ensures all[7 * j + 7].Keep? && all[7 * j + 7].at == acts[j].end {
        if j > 0 { assert more[7 * (j - 1) + 7].at == rest[j - 1].end; }
      }
    }
  }

  lemma {:induction false} AllWraps(acts: seq<Action>)
    requires !AnySkip(acts)
    ensures Wraps(acts) == acts
  {
    if acts != [] {
      assert !AnySkip(acts[1..]) by { assert forall i :: 0 <= i < |acts[1..]| ==> acts[1..][i] == acts[i + 1]; }
      AllWraps(acts[1..]);
      assert acts == [acts[0]] + acts[1..];
    }
  }

  /** On a page without such forms, the text behind the end of the fieldset goes on at the form's end tag. */
  lemma FieldsetEndsAtEndTag(html: string, forms: seq<Form>, i: nat, k: nat, end: nat)
    requires Ordered(html, forms) && i < |forms| && !AnySkip(Actions(html, forms, 0))
    requires WrapsAt(html, Rewritten(html, forms), k, forms[i], end)
    ensures var ps := Rewritten(html, forms);
            k + 7 < |ps| && ps[k + 7].Keep? && ps[k + 7].at == end && StartsAt(html, end, "</form>")
  {
    var acts := Actions(html, forms, 0);
    var j := WrappedOnlyIfMeant(html, forms, i, k, end);
    AllWraps(acts);
    ActionsAdvance(html, forms, 0);
    EndTagPiece(html, acts, j);
  }

  lemma EndTagPiece(html: string, acts: seq<Action>, j: nat)
    requires Advancing(html, acts, 0) && !AnySkip(acts) && j < |acts|
    ensures AnyWrap(acts)
    ensures var ps := Pieces(html, acts, 0); 7 * j + 7 < |ps| && ps[7 * j + 7].Keep? && ps[7 * j + 7].at == acts[j].end
  {
    assert acts[j].Wrap?;
    GoesOnAtEnd(html, acts, 0);
  }

  // ------------------------------------------------------------------ inputs on which text is lost

  /** Two refused forms with nothing in them, the second of which has disabled itself. */
  function TwoForms(a: string, b: string): string { a + "</form>" + b + "</form>" }

  function TwoMatches(a: string, b: string): seq<Form> {
    [Form(0, |a|, true, None), Form(|a| + 7, |a| + 7 + |b|, true, None)]
  }

  predicate IsTag(a: string) { TagAt(a, 0, |a|) }

  lemma TwoFormsAreMixed(a: string, b: string)
    requires IsTag(a) && IsTag(b) && !Occurs("data-hr-readonly", a) && Occurs("data-hr-readonly", b)
    ensures var html, forms := TwoForms(a, b), TwoMatches(a, b);
            && Ordered(html, forms) && AnyWrap(Actions(html, forms, 0)) && AnySkip(Actions(html, forms, 0))
            && |Erase(Rewritten(html, forms))| < |html|
  {
    var html, forms := TwoForms(a, b), TwoMatches(a, b);
    TwoFormsClose(a, b);
    var f, g := forms[0], forms[1];
    assert ActionFor(html, f) == Wrap(f, |a|) && ActionFor(html, g) == Skip(g, |a| + 7 + |b|);
    ActionsUnfold(html, forms, 0, 0);
    ActionsUnfold(html, forms, 1, |a|);
    assert forms[0..] == forms && forms[2..] == [];
    var acts := Actions(html, forms, 0);
    assert acts == [Wrap(f, |a|), Skip(g, |a| + 7 + |b|)];
    assert acts[0].Wrap? && acts[1].Skip?;
    MixedPagesLoseText(html, forms);
  }

  lemma TwoFormsClose(a: string, b: string)
    requires IsTag(a) && IsTag(b) && !Occurs("data-hr-readonly", a) && Occurs("data-hr-readonly", b)
    ensures var html, f, g := TwoForms(a, b), TwoMatches(a, b)[0], TwoMatches(a, b)[1];
            && TagAt(html, f.start, f.open) && TagAt(html, g.start, g.open)
            && Close(html, f) == Some(|a|) && Close(html, g) == Some(|a| + 7 + |b|)
            && !SelfDisabled(html, f, |a|) && SelfDisabled(html, g, |a| + 7 + |b|)
  {
    var html, n := TwoForms(a, b), |a| + 7;
    assert html[0..|a|] == a && html[n..n + |b|] == b;
    assert html[0..|a| - 1] == a[0..|a| - 1] && html[n..n + |b| - 1] == b[0..|b| - 1];
    assert html[|a|..n] == "</form>" && html[n + |b|..n + |b| + 7] == "</form>";
    assert StartsAt(html, |a|, "</form>") && StartsAt(html, n + |b|, "</form>");
    assert html[|a|..|a|] == "";
  }

  /** A page that mixes a form to wrap and a form that has disabled itself. */
  lemma AMixedPage()
    ensures var a, b := "<form method=post>", "<form method=post data-hr-readonly>";
            var html, forms := TwoForms(a, b), TwoMatches(a, b);
            Ordered(html, forms) && AnyWrap(Actions(html, forms, 0)) && |Erase(Rewritten(html, forms))| < |html|
  {
    var a, b, p := "<form method=post>", "<form method=post data-hr-readonly>", "data-hr-readonly";
    assert IsTag(a) && IsTag(b);
    assert !Occurs(p, a) by {
      forall i ensures !StartsAt(a, i, p) {
        if 0 <= i <= 2 { assert a[i..i + 16][0] == a[i] != p[0]; }
      }
    }
    assert b == "<form method=post " + p + ">";
    OccursBetween("<form method=post ", p, ">");
    TwoFormsAreMixed(a, b);
  }

  lemma OccursBetween(a: string, p: string, b: string)
    ensures Occurs(p, a + p + b)
  {
    assert StartsAt(a + p + b, |a|, p);
  }

  /** A button with a blank before its closing bracket: the blank is lost. */
  lemma AButtonWithABlank()
    ensures var html, subs := "<button form=x >", [Submit(0, 16, "x", false)];
            OrderedSubmits(html, subs, 0) && Erase(DisabledPieces(html, subs, {"x"}, 0)) != html
  {
    var html, m := "<button form=x >", Submit(0, 16, "x", false);
    assert TagAt(html, 0, 16);
    assert [m][1..] == [];
    assert OrderedSubmits(html, [m], 0);
    assert Closing(html, m) == 15;
    var s := html[0..15];
    assert s[14] == ' ' && s[13] == 'x';
    assert SpaceStart(s, 15) == SpaceStart(s, 14) == 14;
    assert BodyEnd(html, m) == 14;
    assert !NoTrailingSpace(html, [m], {"x"}, 0);
    DisablingOnlyInsertsIff(html, [m], {"x"});
  }
}

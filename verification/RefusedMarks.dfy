/** What the insertions of `_readonly_refused_forms` (app/__init__.py) do to a page: which ids are blocked, which
    buttons are disabled, that the fieldset is a disabled one, and that a wrapped form is not wrapped again. */
module RefusedMarks {
  import opened Text
  import opened RefusedForms
  import opened FormWrapping

  // ------------------------------------------------------------------ the fragments

  /** The text goes on with this attribute, and then with another attribute or the end of the tag. */
  predicate HasAttribute(t: string, i: nat, name: string) {
    StartsAt(t, i, " " + name) && var j := i + 1 + |name|; j < |t| ==> t[j] == ' ' || t[j] == '=' || t[j] == '>'
  }

  /** The fieldset is opened disabled and closed again; a button gets the attribute `disabled`; the note is a
      paragraph of its own. */
  lemma FragmentsDisable()
    ensures var open := MarkText(FieldsetOpen);
            StartsAt(open, 0, "<fieldset") && HasAttribute(open, 9, "disabled") && open[|open| - 1] == '>'
    ensures MarkText(FieldsetClose) == "</fieldset>"
    ensures HasAttribute(MarkText(DisabledAttributes), 0, "disabled")
    ensures HasAttribute(MarkText(ReadonlyAttribute), 0, "data-hr-readonly")
    ensures var note := MarkText(Note);
            StartsAt(note, 0, "<p") && HasAttribute(note, 2, "data-hr-readonly-note") && note[|note| - 5..] == "></p>"
  {
    var open, rest := MarkText(FieldsetOpen), " style=\"border:0;padding:0;" + "margin:0;min-width:0\">";
    Assoc("<fieldset disabled", " style=\"border:0;padding:0;", "margin:0;min-width:0\">");
    assert open == "<fieldset disabled" + rest;
    PrefixChars(open, "<fieldset disabled", rest);
    var d := MarkText(DisabledAttributes);
    PrefixChars(d, " disabled", " aria-disabled=\"true\"");
    var r := MarkText(ReadonlyAttribute);
    assert r == " data-hr-readonly" + "=\"1\"";
    PrefixChars(r, " data-hr-readonly", "=\"1\"");
    NoteIsClosed();
  }

  lemma NoteIsClosed()
    ensures var note := MarkText(Note);
            StartsAt(note, 0, "<p") && HasAttribute(note, 2, "data-hr-readonly-note") && note[|note| - 5..] == "></p>"
  {
    var a, b, c := "<p", " data-hr-readonly-note", "=\"1\"></p>";
    var note := MarkText(Note);
    assert note == a + b + c;
    ThreeParts(note, a, b, c);
    NoteName();
    assert c[0] == '=' && c[4..] == "></p>";
  }

  lemma NoteName()
    ensures " data-hr-readonly-note" == " " + "data-hr-readonly-note"
  {
    var b, w := " data-hr-readonly-note", "data-hr-readonly-note";
    assert |b| == 22 && |w| == 21;
    assert forall k :: 0 <= k < 21 ==> b[k + 1] == w[k];
  }

  lemma ThreeParts(t: string, a: string, b: string, c: string)
    requires t == a + b + c && c != ""
    ensures StartsAt(t, 0, a) && StartsAt(t, |a|, b) && t[|a| + |b|] == c[0]
    ensures |t| == |a| + |b| + |c| && forall k :: 0 <= k <= |c| ==> t[|a| + |b| + k..] == c[k..]
  {
  }

  lemma PrefixChars(t: string, a: string, b: string)
    requires t == a + b
    ensures (forall i, j :: 0 <= i <= j <= |a| ==> t[i..j] == a[i..j])
            && (b != "" ==> t[|a|] == b[0] && t[|t| - 1] == b[|b| - 1])
  {
  }

  // ------------------------------------------------------------------ which ids are blocked

  lemma {:induction false} BlockedIds(acts: seq<Action>, id: string)
    ensures id in Blocked(acts) <==> exists i :: 0 <= i < |acts| && acts[i].form.id == Some(id)
  {
    if acts != [] {
      BlockedIds(acts[1..], id);
      if i :| 0 <= i < |acts[1..]| && acts[1..][i].form.id == Some(id) { assert acts[i + 1] == acts[1..][i]; }
      if i :| 0 <= i < |acts| && acts[i].form.id == Some(id) { assert i > 0 ==> acts[1..][i - 1] == acts[i]; }
    }
  }

  /** The ids whose outside buttons are disabled are exactly those of the handled forms. */
  lemma BlockedIff(html: string, forms: seq<Form>, id: string)
    requires Ordered(html, forms)
    ensures id in Blocked(Actions(html, forms, 0))
            <==> exists i :: 0 <= i < |forms| && Handled(html, forms, i) && forms[i].id == Some(id)
  {
    var acts := Actions(html, forms, 0);
    BlockedIds(acts, id);
    assert forms[0..] == forms;
    forall a ensures a in acts <==> ActionFrom(html, forms, 0, a) { ActionsAreHandled(html, forms, 0, a); }
    if i :| 0 <= i < |acts| && acts[i].form.id == Some(id) {
      assert ActionFrom(html, forms, 0, acts[i]);
    }
    if i :| 0 <= i < |forms| && Handled(html, forms, i) && forms[i].id == Some(id) {
      assert ActionFrom(html, forms, 0, ActionFor(html, forms[i]));
    }
  }

  // ------------------------------------------------------------------ which buttons are disabled

  /** Where the bracket of a tag, with the slash in front of it, begins. */
  predicate IsClosing(html: string, m: Submit, c: nat) {
    && m.start <= c < m.end <= |html|
    && (html[c..m.end] == ">" || html[c..m.end] == "/>")
    && (html[c..m.end] == ">" && c > m.start ==> html[c - 1] != '/')
  }

  /** From piece k on: text that ends in the tag, the attributes, and the tag's closing bracket. */
  predicate DisabledAt(html: string, ps: seq<Piece>, k: nat, m: Submit) {
    && k + 2 < |ps| && ps[k].Keep? && ps[k + 1] == Insert(DisabledAttributes) && ps[k + 2].Keep?
    && IsClosing(html, m, ps[k + 2].at) && ps[k + 2].text == html[ps[k + 2].at..m.end]
    && m.start <= ps[k].at + |ps[k].text| <= ps[k + 2].at
    && forall i :: ps[k].at + |ps[k].text| <= i < ps[k + 2].at ==> IsSpace(html[i])
  }

  ghost predicate IsDisabled(html: string, ps: seq<Piece>, m: Submit) { exists k: nat :: DisabledAt(html, ps, k, m) }

  /** The button sends a blocked form and does not mention that it is disabled. */
  predicate Sends(m: Submit, ids: set<string>) { m.form in ids && !m.disabled }

  lemma ClosingIs(html: string, m: Submit)
    requires TagAt(html, m.start, m.end)
    ensures IsClosing(html, m, Closing(html, m))
    ensures forall i :: BodyEnd(html, m) <= i < Closing(html, m) ==> IsSpace(html[i])
  {
    var c := Closing(html, m);
    assert html[c..m.end] == if c == m.end - 1 then ">" else "/>";
    StrippedSpaces(html, m.start, c);
  }

  lemma StrippedSpaces(html: string, a: nat, c: nat)
    requires a <= c <= |html|
    ensures forall i :: a + |RStrip(html[a..c])| <= i < c ==> IsSpace(html[i])
  {
    var w := html[a..c];
    forall i | a + |RStrip(w)| <= i < c ensures IsSpace(html[i]) {
      assert w[|RStrip(w)|..][i - a - |RStrip(w)|] == html[i];
    }
  }

  lemma ShiftDisabled(html: string, block: seq<Piece>, ps: seq<Piece>, m: Submit)
    ensures IsDisabled(html, ps, m) ==> IsDisabled(html, block + ps, m)
    ensures IsDisabled(html, block, m) ==> IsDisabled(html, block + ps, m)
  {
    var all := block + ps;
    if k: nat :| DisabledAt(html, ps, k, m) {
      assert all[|block| + k] == ps[k] && all[|block| + k + 1] == ps[k + 1] && all[|block| + k + 2] == ps[k + 2];
      assert DisabledAt(html, all, |block| + k, m);
    }
    if k: nat :| DisabledAt(html, block, k, m) { assert DisabledAt(html, all, k, m); }
  }

  lemma SubmitIsDisabled(html: string, m: Submit, pos: nat)
    requires pos <= m.start && TagAt(html, m.start, m.end)
    ensures IsDisabled(html, SubmitPieces(html, m, pos), m)
  {
    ClosingIs(html, m);
    assert DisabledAt(html, SubmitPieces(html, m, pos), 0, m);
  }

  /** Every button that sends a blocked form is disabled. */
  lemma {:induction false} SendersAreDisabled(html: string, subs: seq<Submit>, ids: set<string>, pos: nat, m: Submit)
    requires OrderedSubmits(html, subs, pos) && m in subs && Sends(m, ids)
    ensures IsDisabled(html, DisabledPieces(html, subs, ids, pos), m)
    decreases |subs|
  {
    var s, rest := subs[0], subs[1..];
    if !ToDisable(s, ids) {
      SubmitsFrom(html, subs, pos);
      SendersAreDisabled(html, rest, ids, pos, m);
    } else {
      var more := DisabledPieces(html, rest, ids, s.end);
      if m == s {
        SubmitIsDisabled(html, s, pos);
      } else {
        SendersAreDisabled(html, rest, ids, s.end, m);
      }
      ShiftDisabled(html, SubmitPieces(html, s, pos), more, m);
    }
  }

  /** How many of the buttons send a blocked form. */
  function Senders(subs: seq<Submit>, ids: set<string>): nat {
    if subs == [] then 0 else (if Sends(subs[0], ids) then 1 else 0) + Senders(subs[1..], ids)
  }

  function Insertions(ps: seq<Piece>): nat {
    if ps == [] then 0 else (if ps[0].Insert? then 1 else 0) + Insertions(ps[1..])
  }

  lemma {:induction false} InsertionsAppend(a: seq<Piece>, b: seq<Piece>)
    ensures Insertions(a + b) == Insertions(a) + Insertions(b)
  {
    if a == [] {
      assert a + b == b;
    } else {
      assert (a + b)[0] == a[0] && (a + b)[1..] == a[1..] + b;
      InsertionsAppend(a[1..], b);
    }
  }

  /** Nothing else is inserted: there are as many insertions as such buttons. */
  lemma {:induction false} InsertionsAreSenders(html: string, subs: seq<Submit>, ids: set<string>, pos: nat)
    requires OrderedSubmits(html, subs, pos)
    ensures Insertions(DisabledPieces(html, subs, ids, pos)) == Senders(subs, ids)
    decreases |subs|
  {
    if subs != [] {
      var s, rest := subs[0], subs[1..];
      if !ToDisable(s, ids) {
        SubmitsFrom(html, subs, pos);
        InsertionsAreSenders(html, rest, ids, pos);
      } else {
        InsertionsAreSenders(html, rest, ids, s.end);
        InsertionsAppend(SubmitPieces(html, s, pos), DisabledPieces(html, rest, ids, s.end));
        OneInsertion(html, s, pos);
      }
    }
  }

  lemma OneInsertion(html: string, s: Submit, pos: nat)
    requires pos <= s.start && TagAt(html, s.start, s.end)
    ensures Insertions(SubmitPieces(html, s, pos)) == 1
  {
    var ps := SubmitPieces(html, s, pos);
    assert ps[1..] == [ps[1], ps[2]] && ps[1..][1..] == [ps[2]] && ps[1..][1..][1..] == [];
    assert Insertions(ps[1..][1..]) == Insertions(ps[1..][1..][1..]) == 0;
    assert Insertions(ps[1..]) == 1 + Insertions(ps[1..][1..]);
  }

  /** The button sends this handled form. */
  ghost predicate SendsHandled(html: string, forms: seq<Form>, m: Submit, i: int) {
    0 <= i < |forms| && Handled(html, forms, i) && forms[i].id == Some(m.form)
  }

  /** Of the buttons on the page with the forms wrapped, exactly those are disabled that send a handled refused form
      and do not mention that they are disabled. */
  lemma RefusedButtonsAreDisabled(html: string, forms: seq<Form>, page: string, subs: seq<Submit>)
    requires Ordered(html, forms) && OrderedSubmits(page, subs, 0)
    ensures var ids := Blocked(Actions(html, forms, 0));
            var ps := DisabledPieces(page, subs, ids, 0);
            && Insertions(ps) == Senders(subs, ids)
            && forall m, i :: m in subs && !m.disabled && SendsHandled(html, forms, m, i) ==> IsDisabled(page, ps, m)
  {
    var ids := Blocked(Actions(html, forms, 0));
    InsertionsAreSenders(page, subs, ids, 0);
    forall m, i | m in subs && !m.disabled && SendsHandled(html, forms, m, i)
      ensures IsDisabled(page, DisabledPieces(page, subs, ids, 0), m)
    {
      BlockedIff(html, forms, m.form);
      SendersAreDisabled(page, subs, ids, 0, m);
    }
  }

  // ------------------------------------------------------------------ a wrapped form is not wrapped again

  /** The opening tag of a wrapped form, as it is written, tells the rewriting that the form has disabled itself: on any
      page on which it stands, the form is not wrapped again. */
  lemma WrappedDisablesItself(html: string, f: Form, page: string, g: Form, end: nat)
    requires TagAt(html, f.start, f.open) && g.start <= g.open <= end <= |page|
    requires page[g.start..g.open] == html[f.start..f.open - 1] + MarkText(ReadonlyAttribute) + ">"
    ensures SelfDisabled(page, g, end)
  {
    var a, r := html[f.start..f.open - 1], MarkText(ReadonlyAttribute);
    var tag := a + r + ">";
    FragmentsDisable();
    StartsAtChars(r, 0, " data-hr-readonly");
    var w := "data-hr-readonly";
    forall k | 0 <= k < |w| ensures tag[|a| + 1 + k] == w[k] {
      assert r[0 + (k + 1)] == (" " + w)[k + 1];
    }
    assert tag[|a| + 1..|a| + 1 + |w|] == w;
    assert StartsAt(tag, |a| + 1, w);
  }

  /** Neither is a form whose template says in it that it is for reading only. */
  lemma NotesAreRespected(page: string, g: Form, end: nat, i: nat)
    requires g.start <= g.open <= end <= |page| && g.open <= i <= end
    requires StartsAt(page[..end], i, "hr-ro-note") || StartsAt(page[..end], i, "hr-readonly")
    ensures SelfDisabled(page, g, end)
  {
    var w, t, k := page[..end], page[g.open..end], i - g.open;
    var n := if StartsAt(w, i, "hr-ro-note") then |"hr-ro-note"| else |"hr-readonly"|;
    assert w[i..i + n] == t[k..k + n];
    assert StartsAt(w, i, "hr-ro-note") ==> StartsAt(t, k, "hr-ro-note");
    assert !StartsAt(w, i, "hr-ro-note") ==> StartsAt(t, k, "hr-readonly");
  }
}

/** Importing translations from the master table (`fix_translation` and `cmd_import` in tools/i18n_master.py). */
module MasterImport {
  import opened Text
  import opened EntryStore
  import opened PoText
  import opened PoEntry
  import opened PoFile

  // ------------------------------------------------------------------ fix_translation

  /** The characters that make a percent sign part of a format. */
  predicate AfterPercent(c: char) { c == '%' || c == '(' || c == 's' || c == 'd' || c == 'i' || c == 'f' || c == 'r' }

  /** A percent sign at the front that no format character follows. */
  predicate LoneAtFront(s: string) { s != "" && s[0] == '%' && (|s| == 1 || !AfterPercent(s[1])) }

  /** `_LONE_PCT.sub("%%", s)` when the character before s is a percent sign (`after`) or not. */
  function DoubleLone(s: string, after: bool): string {
    if s == "" then ""
    else if LoneAtFront(s) && !after then "%%" + DoubleLone(s[1..], true)
    else [s[0]] + DoubleLone(s[1..], s[0] == '%')
  }

  lemma DoubleLoneHead(s: string)
    requires s != ""
    ensures DoubleLone(s, true) != "" && DoubleLone(s, true)[0] == s[0]
  {
  }

  /** One pass is enough: what was doubled is not doubled again. */
  lemma {:induction false} DoublingIsStable(s: string, after: bool)
    ensures DoubleLone(DoubleLone(s, after), after) == DoubleLone(s, after)
  {
    if s != "" {
      var rest := s[1..];
      if LoneAtFront(s) && !after {
        DoublingIsStable(rest, true);
        var t := DoubleLone(rest, true);
        var y := "%%" + t;
        assert y[1..] == "%" + t && y[1..][1..] == t;
      } else {
        DoublingIsStable(rest, s[0] == '%');
        var t := DoubleLone(rest, s[0] == '%');
        var y := [s[0]] + t;
        assert y[1..] == t;
        if s[0] == '%' && rest != "" { DoubleLoneHead(rest); }
        assert LoneAtFront(y) && !after ==> LoneAtFront(s);
      }
    }
  }

  lemma AllSpaceAppend(a: string, b: string)
    ensures AllSpace(a + b) <==> AllSpace(a) && AllSpace(b)
  {
    assert forall i :: 0 <= i < |a| ==> (a + b)[i] == a[i];
    assert forall i :: 0 <= i < |b| ==> (a + b)[|a| + i] == b[i];
  }

  lemma {:induction false} DoublingKeepsBlank(s: string, after: bool)
    ensures AllSpace(DoubleLone(s, after)) <==> AllSpace(s)
  {
    if s != "" {
      var rest := s[1..];
      AllSpaceAppend([s[0]], rest);
      assert s == [s[0]] + rest;
      if LoneAtFront(s) && !after {
        assert !IsSpace(s[0]) && DoubleLone(s, after)[0] == '%';
      } else {
        DoublingKeepsBlank(rest, s[0] == '%');
        AllSpaceAppend([s[0]], DoubleLone(rest, s[0] == '%'));
      }
    }
  }

  /** A carriage return and a line feed stand next to each other. */
  predicate HasCrlf(s: string) { |s| >= 2 && ((s[0] == '\r' && s[1] == '\n') || HasCrlf(s[1..])) }

  /** Two carriage returns and a line feed stand next to each other. */
  predicate HasCrCrLf(s: string) { |s| >= 3 && ((s[0] == '\r' && s[1] == '\r' && s[2] == '\n') || HasCrCrLf(s[1..])) }

  lemma {:induction false} DoublingKeepsCrlf(s: string, after: bool)
    ensures HasCrlf(DoubleLone(s, after)) <==> HasCrlf(s)
    ensures s != "" ==> DoubleLone(s, after) != "" && DoubleLone(s, after)[0] == s[0]
  {
    if s != "" {
      var rest := s[1..];
      if LoneAtFront(s) && !after {
        DoublingKeepsCrlf(rest, true);
        var t := DoubleLone(rest, true);
        var y := "%%" + t;
        assert y[1..] == "%" + t && y[1..][1..] == t;
      } else {
        DoublingKeepsCrlf(rest, s[0] == '%');
        var t := DoubleLone(rest, s[0] == '%');
        assert ([s[0]] + t)[1..] == t;
      }
    }
  }

  lemma {:induction false} CrlfAfterToLf(s: string)
    ensures HasCrlf(ToLf(s)) <==> HasCrCrLf(s)
    ensures s != "" ==> ToLf(s) != ""
                        && (ToLf(s)[0] == '\n' <==> s[0] == '\n' || (|s| >= 2 && s[0] == '\r' && s[1] == '\n'))
    decreases |s|
  {
    if |s| >= 2 {
      if s[0] == '\r' && s[1] == '\n' {
        CrlfAfterToLf(s[2..]);
        assert ("\n" + ToLf(s[2..]))[1..] == ToLf(s[2..]) && s[1..][1..] == s[2..];
      } else {
        CrlfAfterToLf(s[1..]);
        assert ([s[0]] + ToLf(s[1..]))[1..] == ToLf(s[1..]);
      }
    }
  }

  /** Normalising again changes the text exactly when there is something left to normalise. */
  lemma {:induction false} ToLfFixedIff(s: string)
    ensures |ToLf(s)| <= |s| && (ToLf(s) == s <==> !HasCrlf(s))
    ensures HasCrlf(s) ==> |ToLf(s)| < |s|
    decreases |s|
  {
    if |s| >= 2 {
      if s[0] == '\r' && s[1] == '\n' {
        ToLfFixedIff(s[2..]);
      } else {
        ToLfFixedIff(s[1..]);
        assert s == [s[0]] + s[1..];
        assert ([s[0]] + ToLf(s[1..]))[1..] == ToLf(s[1..]);
      }
    }
  }

  /** What is checked with regular expressions and the `%` operator: which messages are formats, the placeholders of a
      text, and whether a translation formats without an error. */
  datatype Checks = Checks(isFormat: string -> bool, tokens: string -> multiset<string>,
                           formats: (string, string) -> bool)

  function Doubled(t: string, format: bool): string { if format then DoubleLone(t, false) else t }

  /** The tests behind the two repairs. */
  predicate Passes(c: Checks, msgid: string, t: string, format: bool) {
    c.tokens(msgid) == c.tokens(t) && (format ==> c.formats(msgid, t))
  }

  /** `fix_translation`. */
  function Fix(c: Checks, msgid: string, text: string, inTemplate: bool): Option<string> {
    var format := c.isFormat(msgid) || inTemplate;
    var t := ToLf(text);
    if Strip(t) == "" then None
    else
      var u := Doubled(t, format);
      if Passes(c, msgid, u, format) then Some(u) else None
  }

  lemma BlankIff(t: string, format: bool)
    ensures Strip(Doubled(t, format)) == "" <==> Strip(t) == ""
  {
    DoublingKeepsBlank(t, false);
  }

  /** An accepted translation is not blank and keeps the placeholders of its message. */
  lemma AcceptedIsNotBlank(c: Checks, msgid: string, text: string, inTemplate: bool)
    requires Fix(c, msgid, text, inTemplate).Some?
    ensures var t := Fix(c, msgid, text, inTemplate).value; Strip(t) != "" && c.tokens(t) == c.tokens(msgid)
  {
    BlankIff(ToLf(text), c.isFormat(msgid) || inTemplate);
  }

  /** An accepted translation is accepted again as it is if and only if the text it came from has no carriage return in
      front of a carriage return and a line feed. */
  lemma FixIsIdempotentIff(c: Checks, msgid: string, text: string, inTemplate: bool)
    requires Fix(c, msgid, text, inTemplate).Some?
    ensures var t := Fix(c, msgid, text, inTemplate).value;
            Fix(c, msgid, t, inTemplate) == Some(t) <==> !HasCrCrLf(text)
  {
    var format := c.isFormat(msgid) || inTemplate;
    var t := Fix(c, msgid, text, inTemplate).value;
    CrlfAfterToLf(text);
    DoublingKeepsCrlf(ToLf(text), false);
    DoublingIsStable(ToLf(text), false);
    ToLfFixedIff(t);
    BlankIff(ToLf(text), format);
    if HasCrCrLf(text) {
      ShorterStaysShorter(t, format);
    }
  }

  /** The smallest such text: the second pass changes what the first accepted. */
  lemma TwoReturnsAreFixedTwice(c: Checks, msgid: string)
    requires !c.isFormat(msgid) && c.tokens(msgid) == c.tokens("a\r\n") == c.tokens("a\n")
    ensures Fix(c, msgid, "a\r\r\n", false) == Some("a\r\n") && Fix(c, msgid, "a\r\n", false) == Some("a\n")
  {
    assert ToLf("\r\n") == "\n" + ToLf("");
    assert ToLf("a\r\n") == "a" + ToLf("\r\n") == "a\n";
    assert ToLf("\r\r\n") == "\r" + ToLf("\r\n") == "\r\n";
    assert ToLf("a\r\r\n") == "a" + ToLf("\r\r\n") == "a\r\n";
    assert "a\r\n"[0] == 'a' && "a\n"[0] == 'a';
  }

  lemma {:induction false} DoublingKeepsReturns(s: string, after: bool)
    ensures CountChar(DoubleLone(s, after), '\r') == CountChar(s, '\r')
  {
    if s != "" {
      var rest := s[1..];
      if LoneAtFront(s) && !after {
        DoublingKeepsReturns(rest, true);
        CountAppend("%%", DoubleLone(rest, true), '\r');
        CountZero("%%", '\r');
      } else {
        DoublingKeepsReturns(rest, s[0] == '%');
        var t := DoubleLone(rest, s[0] == '%');
        assert ([s[0]] + t)[1..] == t;
      }
    }
  }

  lemma {:induction false} ToLfLosesReturns(s: string)
    ensures CountChar(ToLf(s), '\r') <= CountChar(s, '\r')
    ensures HasCrlf(s) ==> CountChar(ToLf(s), '\r') < CountChar(s, '\r')
    decreases |s|
  {
    if |s| >= 2 {
      if s[0] == '\r' && s[1] == '\n' {
        ToLfLosesReturns(s[2..]);
        assert s[1..][1..] == s[2..] && ("\n" + ToLf(s[2..]))[1..] == ToLf(s[2..]);
      } else {
        ToLfLosesReturns(s[1..]);
        assert ([s[0]] + ToLf(s[1..]))[1..] == ToLf(s[1..]);
      }
    }
  }

  /** Doubling does not bring back what normalising took away. */
  lemma ShorterStaysShorter(t: string, format: bool)
    requires HasCrlf(t)
    ensures Doubled(ToLf(t), format) != t
  {
    ToLfLosesReturns(t);
    DoublingKeepsReturns(ToLf(t), false);
  }

  // ------------------------------------------------------------------ rows

  /** A row of the table for one locale. */
  datatype Row = Row(ctx: string, msgid: string, cell: string)

  /** The messages of the template catalogue, with what the import needs to know about each. */
  datatype Catalogue = Catalogue(keys: seq<Key>, inTemplate: Key -> bool, location: Key -> string)

  /** `re.sub(r"\s+", " ", s).strip()`. */
  function Normalised(s: string): string { Strip(Collapse(s, false)) }

  function Collapse(s: string, after: bool): string {
    if s == "" then ""
    else if IsSpace(s[0]) then (if after then "" else " ") + Collapse(s[1..], true)
    else [s[0]] + Collapse(s[1..], false)
  }

  /** The keys with this context and this normalised message. */
  function Candidates(keys: seq<Key>, ctx: string, norm: string): seq<Key> {
    if keys == [] then []
    else
      (if keys[0].ctx == ctx && Normalised(keys[0].msgid) == norm then [keys[0]] else [])
      + Candidates(keys[1..], ctx, norm)
  }

  /** The key a row is about: its own, or the only one that differs from it in white space. */
  function Resolve(cat: Catalogue, row: Row): Option<Key> {
    var key := Key(Strip(row.ctx), ToLf(row.msgid));
    if key in cat.keys then Some(key)
    else
      var cands := Candidates(cat.keys, key.ctx, Normalised(key.msgid));
      if |cands| == 1 then Some(cands[0]) else None
  }

  /** The key and the translation a row gives, if it is accepted. */
  function Accept(c: Checks, cat: Catalogue, row: Row): Option<(Key, string)> {
    var key := Resolve(cat, row);
    if key.None? || Strip(row.cell) == "" || Strip(row.cell) == Strip(key.value.msgid) then None
    else
      var t := Fix(c, key.value.msgid, row.cell, cat.inTemplate(key.value));
      if t.None? then None else Some((key.value, t.value))
  }

  function CallFor(c: Checks, cat: Catalogue, key: Key, value: string): Call {
    Call(key, value, cat.location(key), c.isFormat(key.msgid))
  }

  /** The calls of `set` the accepted rows ask for. `accept` is what becomes of a row. */
  function Calls(accept: Row -> Option<Call>, rows: seq<Row>): seq<Call> {
    if rows == [] then []
    else (if accept(rows[0]).Some? then [accept(rows[0]).value] else []) + Calls(accept, rows[1..])
  }

  function Accepts(c: Checks, cat: Catalogue): Row -> Option<Call> {
    row => var a := Accept(c, cat, row); if a.None? then None else Some(CallFor(c, cat, a.value.0, a.value.1))
  }

  // ------------------------------------------------------------------ the loop

  /** The body of the loop for one accepted row: set the translation unless it is there already. */
  method ImportOne(po: PoFile, call: Call) returns (added: bool)
    requires po.Valid()
    modifies po
    ensures po.Valid() && po.lines == old(po.lines) && po.crlf == old(po.crlf)
    ensures po.State() == Import(PO(), old(po.State()), [OpOf(call)])
    ensures added == Changes(PO(), old(po.State()), [OpOf(call)]) && po.changed == (old(po.changed) || added)
  {
    ghost var ops := [OpOf(call)];
    assert ops[1..] == [];
    var cur := po.Lookup(call.key);
    added := cur != Some(call.value);
    if added { po.Assign(call.key, call.value, call.location, call.pythonFormat); }
  }

  lemma OpsSnoc(calls: seq<Call>, call: Call)
    ensures Ops(calls + [call]) == Ops(calls) + [OpOf(call)]
  {
  }

  lemma {:induction false} CallsSnoc(accept: Row -> Option<Call>, rows: seq<Row>, row: Row)
    ensures Calls(accept, rows + [row]) == Calls(accept, rows) + (if accept(row).Some? then [accept(row).value] else [])
    decreases |rows|
  {
    if rows == [] {
      assert rows + [row] == [row] && [row][1..] == [];
    } else {
      assert (rows + [row])[0] == rows[0] && (rows + [row])[1..] == rows[1..] + [row];
      CallsSnoc(accept, rows[1..], row);
      Assoc(if accept(rows[0]).Some? then [accept(rows[0]).value] else [], Calls(accept, rows[1..]),
            if accept(row).Some? then [accept(row).value] else []);
    }
  }

  /** The tables and the flag after the calls so far. */
  ghost predicate Progress(st: Tables, was: bool, calls: seq<Call>, now: Tables, changed: bool)
    requires Sane(st)
  {
    now == Import(PO(), st, Ops(calls)) && changed == (was || Changes(PO(), st, Ops(calls)))
  }

  lemma ProgressStep(st: Tables, was: bool, calls: seq<Call>, mid: Tables, changed: bool, call: Call)
    requires Sane(st) && Progress(st, was, calls, mid, changed)
    ensures Sane(mid)
    ensures Progress(st, was, calls + [call], Import(PO(), mid, [OpOf(call)]),
                     changed || Changes(PO(), mid, [OpOf(call)]))
  {
    OpsSnoc(calls, call);
    ImportAppend(PO(), st, Ops(calls), [OpOf(call)]);
  }

  /** One round of the loop. */
  method ImportRow(po: PoFile, accept: Row -> Option<Call>, row: Row, ghost st: Tables, ghost was: bool,
                   ghost calls: seq<Call>)
    requires po.Valid() && Sane(st) && Progress(st, was, calls, po.State(), po.changed)
    modifies po
    ensures po.Valid() && po.lines == old(po.lines) && po.crlf == old(po.crlf)
    ensures Progress(st, was, calls + (if accept(row).Some? then [accept(row).value] else []), po.State(), po.changed)
  {
    var call := accept(row);
    if call.Some? {
      ProgressStep(st, was, calls, po.State(), po.changed, call.value);
      var _ := ImportOne(po, call.value);
    } else {
      assert calls + [] == calls;
    }
  }

  /** The loop of `cmd_import` for one locale: what is in the tables afterwards, and whether the file is to be saved. */
  method ImportRows(po: PoFile, accept: Row -> Option<Call>, rows: seq<Row>)
    requires po.Valid()
    modifies po
    ensures po.Valid() && po.lines == old(po.lines) && po.crlf == old(po.crlf)
    ensures po.State() == Import(PO(), old(po.State()), Ops(Calls(accept, rows)))
    ensures po.changed == (old(po.changed) || Changes(PO(), old(po.State()), Ops(Calls(accept, rows))))
  {
    ghost var st, was := po.State(), po.changed;
    ghost var calls: seq<Call> := [];
    for i := 0 to |rows|
      invariant po.Valid() && po.lines == old(po.lines) && po.crlf == old(po.crlf)
      invariant calls == Calls(accept, rows[..i])
      invariant Progress(st, was, calls, po.State(), po.changed)
    {
      ImportRow(po, accept, rows[i], st, was, calls);
      calls := calls + (if accept(rows[i]).Some? then [accept(rows[i]).value] else []);
      CallsUpTo(accept, rows, i);
    }
    assert rows[..|rows|] == rows;
  }

  lemma CallsUpTo(accept: Row -> Option<Call>, rows: seq<Row>, i: nat)
    requires i < |rows|
    ensures Calls(accept, rows[..i + 1])
            == Calls(accept, rows[..i]) + (if accept(rows[i]).Some? then [accept(rows[i]).value] else [])
  {
    assert rows[..i + 1] == rows[..i] + [rows[i]];
    CallsSnoc(accept, rows[..i], rows[i]);
  }

  // ------------------------------------------------------------------ what an import does to a file

  /** The template catalogue has no empty message, and its locations are on one line. */
  ghost predicate CatalogueOk(cat: Catalogue) {
    forall k :: k in cat.keys ==> k.msgid != "" && OneLine(cat.location(k))
  }

  lemma {:induction false} CandidatesAreKeys(keys: seq<Key>, ctx: string, norm: string)
    ensures forall k :: k in Candidates(keys, ctx, norm) ==> k in keys
  {
    if keys != [] { CandidatesAreKeys(keys[1..], ctx, norm); }
  }

  lemma ResolvedIsKey(cat: Catalogue, row: Row)
    requires Resolve(cat, row).Some?
    ensures Resolve(cat, row).value in cat.keys
  {
    CandidatesAreKeys(cat.keys, Strip(row.ctx), Normalised(ToLf(row.msgid)));
  }

  ghost predicate CallOk(call: Call) { call.key.msgid != "" && OneLine(call.location) && Strip(call.value) != "" }

  lemma AcceptedCallOk(c: Checks, cat: Catalogue, row: Row)
    requires CatalogueOk(cat) && Accepts(c, cat)(row).Some?
    ensures CallOk(Accepts(c, cat)(row).value)
  {
    ResolvedIsKey(cat, row);
    var key := Resolve(cat, row).value;
    AcceptedIsNotBlank(c, key.msgid, row.cell, cat.inTemplate(key));
  }

  lemma {:induction false} AcceptedCallsOk(c: Checks, cat: Catalogue, rows: seq<Row>)
    requires CatalogueOk(cat)
    ensures forall i :: 0 <= i < |Calls(Accepts(c, cat), rows)| ==> CallOk(Calls(Accepts(c, cat), rows)[i])
    decreases |rows|
  {
    if rows != [] {
      AcceptedCallsOk(c, cat, rows[1..]);
      if Accepts(c, cat)(rows[0]).Some? { AcceptedCallOk(c, cat, rows[0]); }
    }
  }

  ghost function Imported(raw: string, calls: seq<Call>): Tables { Import(PO(), TablesOf(raw), Ops(calls)) }

  ghost predicate AllCallsOk(calls: seq<Call>) { forall i :: 0 <= i < |calls| ==> CallOk(calls[i]) }

  lemma ImportedAnswers(raw: string, calls: seq<Call>, key: Key)
    requires FileOk(raw) && AllCallsOk(calls)
    ensures From(raw, Imported(raw, calls))
            && Get(PO(), Imported(raw, calls), key) == LastSet(Ops(calls), key, Answer(raw, key))
  {
    PoIsLawful();
    CallsFit(calls);
    LoadedFrom(raw);
    ImportAnswers(PO(), TablesOf(raw), Ops(calls), key);
  }

  /** Whatever the table holds, an import never turns a translation into a blank one. */
  lemma ImportNeverBlanks(c: Checks, cat: Catalogue, raw: string, rows: seq<Row>, crlf: bool, key: Key)
    requires FileOk(raw) && CatalogueOk(cat) && Answer(raw, key).Some? && Strip(Answer(raw, key).value) != ""
    ensures var text := TextAfter(raw, Imported(raw, Calls(Accepts(c, cat), rows)), crlf);
            Answer(text, key).Some? && Strip(Answer(text, key).value) != ""
  {
    var calls := Calls(Accepts(c, cat), rows);
    AcceptedCallsOk(c, cat, rows);
    ImportedAnswers(raw, calls, key);
    SavedAnswers(raw, Imported(raw, calls), crlf, key);
    LastSetIsSet(Ops(calls), key, Answer(raw, key));
  }

  lemma SameAnswers(ops: seq<Op<seq<string>, Key, string>>, key: Key, before: Option<string>)
    ensures LastSet(ops, key, LastSet(ops, key, before)) == LastSet(ops, key, before)
  {
    LastSetIsSet(ops, key, before);
    if i :| 0 <= i < |ops| && ops[i].key == key {
      LastSetTwice(ops, key, LastSet(ops, key, before), before);
    } else {
      LastSetIsSet(ops, key, LastSet(ops, key, before));
    }
  }

  /** The file after an import. */
  ghost function After(raw: string, calls: seq<Call>, crlf: bool): string { TextAfter(raw, Imported(raw, calls), crlf) }

  lemma AfterAnswers(raw: string, calls: seq<Call>, crlf: bool, key: Key)
    requires FileOk(raw) && AllCallsOk(calls)
    ensures FileOk(After(raw, calls, crlf))
            && Answer(After(raw, calls, crlf), key) == LastSet(Ops(calls), key, Answer(raw, key))
  {
    ImportedAnswers(raw, calls, key);
    SavedAnswers(raw, Imported(raw, calls), crlf, key);
  }

  /** Importing the same table a second time, into the saved file, gives the same answers, whatever the table. */
  lemma SecondImportAnswers(c: Checks, cat: Catalogue, raw: string, rows: seq<Row>, crlf: bool, key: Key)
    requires FileOk(raw) && CatalogueOk(cat)
    ensures var calls := Calls(Accepts(c, cat), rows); var text := After(raw, calls, crlf);
            Answer(After(text, calls, crlf), key) == Answer(text, key)
  {
    var calls := Calls(Accepts(c, cat), rows);
    AcceptedCallsOk(c, cat, rows);
    AfterAnswers(raw, calls, crlf, key);
    AfterAnswers(After(raw, calls, crlf), calls, crlf, key);
    SameAnswers(Ops(calls), key, Answer(raw, key));
  }

  /** … and it sets nothing, so that the file is not written again, if and only if the table does not give two different
      translations for one message. */
  lemma SecondImportChangesIff(c: Checks, cat: Catalogue, raw: string, rows: seq<Row>, crlf: bool)
    requires FileOk(raw) && CatalogueOk(cat)
    ensures var calls := Calls(Accepts(c, cat), rows);
            !Changes(PO(), TablesOf(After(raw, calls, crlf)), Ops(calls)) <==> Consistent(Ops(calls))
  {
    var calls := Calls(Accepts(c, cat), rows);
    AcceptedCallsOk(c, cat, rows);
    var again := TablesOf(After(raw, calls, crlf));
    forall k ensures Get(PO(), again, k) == LastSet(Ops(calls), k, Answer(raw, k)) {
      AfterAnswers(raw, calls, crlf, k);
    }
    ReimportChangesIff(PO(), Ops(calls), again, k => Answer(raw, k));
  }
}

/** Which rows of the master table are taken and what they set (`fix_translation` and `cmd_import` in
    tools/i18n_master.py), said of the cells alone. */
module MasterRows {
  import opened Text
  import opened Paragraphs
  import opened PoText
  import opened PoEntry
  import opened PoFile
  import opened MasterImport
  import opened EntryStore
  import opened PoUsed

  // ------------------------------------------------------------------ texts that differ in white space only

  /** The characters up to the first white space. */
  function Run(s: string): (w: string)
    ensures w <= s && (|w| < |s| ==> IsSpace(s[|w|])) && forall i :: 0 <= i < |w| ==> !IsSpace(w[i])
  {
    if s == "" || IsSpace(s[0]) then "" else [s[0]] + Run(s[1..])
  }

  /** The words of a text, between its white space. */
  function Words(s: string): (ws: seq<string>)
    ensures forall k :: 0 <= k < |ws| ==> IsWord(ws[k])
    decreases |s|
  {
    if s == "" then []
    else if IsSpace(s[0]) then Words(s[1..])
    else
      assert |Run(s)| > 0;
      [Run(s)] + Words(s[|Run(s)|..])
  }

  predicate IsWord(w: string) { w != "" && forall i :: 0 <= i < |w| ==> !IsSpace(w[i]) }

  function Spaced(ws: seq<string>): string {
    if ws == [] then "" else if |ws| == 1 then ws[0] else ws[0] + " " + Spaced(ws[1..])
  }

  /** Behind a word comes nothing or white space. */
  lemma {:induction false} CollapseWord(w: string, rest: string, after: bool)
    requires w != "" && forall i :: 0 <= i < |w| ==> !IsSpace(w[i])
    ensures Collapse(w + rest, after) == w + Collapse(rest, false)
    decreases |w|
  {
    assert (w + rest)[1..] == w[1..] + rest;
    if |w| == 1 {
      assert w[1..] + rest == rest;
    } else {
      CollapseWord(w[1..], rest, false);
      assert w == [w[0]] + w[1..];
      Assoc([w[0]], w[1..], Collapse(rest, false));
    }
  }

  /** Collapsed text behind white space: its words with blanks between them, and a blank if white space ends it. */
  lemma {:induction false} CollapseIs(s: string)
    ensures Collapse(s, true) == Spaced(Words(s)) || (Words(s) != [] && Collapse(s, true) == Spaced(Words(s)) + " ")
    decreases |s|
  {
    if s != "" && IsSpace(s[0]) {
      CollapseIs(s[1..]);
      assert "" + Collapse(s[1..], true) == Collapse(s[1..], true);
    } else if s != "" {
      var w, rest := Run(s), s[|Run(s)|..];
      assert s == w + rest && |w| > 0;
      CollapseWord(w, rest, true);
      CollapseIs(rest);
      var ws := Words(rest);
      assert Words(s) == [w] + ws && ([w] + ws)[1..] == ws;
      if rest == "" {
        assert w + "" == w;
      } else {
        CollapseSpace(rest);
        Assoc(w, " ", Collapse(rest, true));
        if ws == [] { assert w + " " + "" == w + " "; } else { Assoc(w + " ", Spaced(ws), " "); }
      }
    }
  }

  lemma CollapseSpace(s: string)
    requires s != "" && IsSpace(s[0])
    ensures Collapse(s, false) == " " + Collapse(s, true)
  {
    assert "" + Collapse(s[1..], true) == Collapse(s[1..], true);
  }

  ghost predicate AllWords(ws: seq<string>) { forall k :: 0 <= k < |ws| ==> IsWord(ws[k]) }

  lemma {:induction false} SpacedEnds(ws: seq<string>)
    requires ws != [] && AllWords(ws)
    ensures var t := Spaced(ws); t != "" && !IsSpace(t[0]) && !IsSpace(t[|t| - 1])
    decreases |ws|
  {
    assert IsWord(ws[0]);
    if |ws| > 1 {
      SpacedEnds(ws[1..]);
      var t, u := Spaced(ws), Spaced(ws[1..]);
      assert t[|t| - 1] == u[|u| - 1] && t[0] == ws[0][0];
    }
  }

  lemma {:induction false} WordsOfSpaced(ws: seq<string>)
    requires AllWords(ws)
    ensures Words(Spaced(ws)) == ws
    decreases |ws|
  {
    if ws != [] {
      assert IsWord(ws[0]);
      if |ws| == 1 {
        WordFirst(ws[0], "");
        assert ws[0] + "" == ws[0];
      } else {
        var rest := Spaced(ws[1..]);
        WordsOfSpaced(ws[1..]);
        WordFirst(ws[0], " " + rest);
        assert (" " + rest)[1..] == rest && Words(" " + rest) == Words(rest);
        assert Spaced(ws) == ws[0] + (" " + rest);
      }
    }
  }

  lemma {:induction false} RunIs(w: string, rest: string)
    requires (forall i :: 0 <= i < |w| ==> !IsSpace(w[i])) && (rest == "" || IsSpace(rest[0]))
    ensures Run(w + rest) == w
    decreases |w|
  {
    if w == "" {
      assert w + rest == rest;
    } else {
      assert (w + rest)[1..] == w[1..] + rest;
      RunIs(w[1..], rest);
    }
  }

  lemma WordFirst(w: string, rest: string)
    requires IsWord(w) && (rest == "" || IsSpace(rest[0]))
    ensures Words(w + rest) == [w] + Words(rest)
  {
    RunIs(w, rest);
    assert (w + rest)[|w|..] == rest && (w + rest)[0] == w[0];
  }

  /** Text between blanks. */
  lemma StripBlanks(u: string, a: nat, b: nat, t: string)
    requires a <= b <= |u| && u[a..b] == t && (t != "" ==> !IsSpace(t[0]) && !IsSpace(t[|t| - 1]))
    requires (forall k :: 0 <= k < a ==> IsSpace(u[k])) && (forall k :: b <= k < |u| ==> IsSpace(u[k]))
    ensures Strip(u) == t
  {
    if t == "" {
      assert AllSpace(u);
    } else {
      assert u[a] == t[0] && u[b - 1] == t[|t| - 1];
      StripBetween(u, a, b);
    }
  }

  lemma StripCollapsed(c: string, lead: string, t: string, tail: string)
    requires c == lead + (t + tail) && (lead == "" || lead == " ") && (tail == "" || tail == " ")
    requires t != "" ==> !IsSpace(t[0]) && !IsSpace(t[|t| - 1])
    ensures Strip(c) == t
  {
    var n := |lead|;
    assert c[n..n + |t|] == t;
    assert |tail| == 1 ==> c[n + |t|] == ' ';
    StripBlanks(c, n, n + |t|, t);
  }

  lemma NormalisedIs(s: string)
    ensures Normalised(s) == Spaced(Words(s))
  {
    var t := Spaced(Words(s));
    CollapseIs(s);
    if Words(s) != [] { SpacedEnds(Words(s)); }
    var tail := if Collapse(s, true) == t then "" else " ";
    assert Collapse(s, true) == t + tail;
    if s != "" && IsSpace(s[0]) {
      CollapseSpace(s);
      StripCollapsed(Collapse(s, false), " ", t, tail);
    } else {
      assert Collapse(s, false) == "" + Collapse(s, true);
      StripCollapsed(Collapse(s, false), "", t, tail);
    }
  }

  /** Two texts are the same once normalised if and only if they have the same words. */
  lemma NormalisedIff(s: string, t: string)
    ensures Normalised(s) == Normalised(t) <==> Words(s) == Words(t)
  {
    NormalisedIs(s);
    NormalisedIs(t);
    WordsOfSpaced(Words(s));
    WordsOfSpaced(Words(t));
  }

  // ------------------------------------------------------------------ which message a row is about

  /** The same context and the same words. */
  predicate Near(own: Key, k: Key) { k.ctx == own.ctx && Words(k.msgid) == Words(own.msgid) }

  /** The message of the row itself, or, if the catalogue does not have it, the only one near it. */
  ghost predicate IsAbout(cat: Catalogue, row: Row, key: Key) {
    var own := Key(Strip(row.ctx), ToLf(row.msgid));
    if own in cat.keys then key == own else exists i :: OnlyNear(cat.keys, own, i) && cat.keys[i] == key
  }

  ghost predicate OnlyNear(keys: seq<Key>, own: Key, i: int) {
    0 <= i < |keys| && Near(own, keys[i]) && forall j :: 0 <= j < |keys| && Near(own, keys[j]) ==> j == i
  }

  ghost predicate NoneNear(keys: seq<Key>, own: Key) { forall j :: 0 <= j < |keys| ==> !Near(own, keys[j]) }

  lemma NearIff(own: Key, k: Key)
    ensures Near(own, k) <==> k.ctx == own.ctx && Normalised(k.msgid) == Normalised(own.msgid)
  {
    NormalisedIff(k.msgid, own.msgid);
  }

  lemma OneOf<T>(first: T, more: seq<T>, x: T)
    ensures [first] + more == [x] <==> more == [] && first == x
  {
    assert ([first] + more)[0] == first;
    if more == [] { assert [first] + more == [first]; }
  }

  lemma {:induction false} CandidatesAre(keys: seq<Key>, own: Key, key: Key)
    ensures var cands := Candidates(keys, own.ctx, Normalised(own.msgid));
            && (cands == [] <==> NoneNear(keys, own))
            && (cands == [key] <==> exists i :: OnlyNear(keys, own, i) && keys[i] == key)
    decreases |keys|
  {
    if keys != [] {
      var first, rest := keys[0], keys[1..];
      var more := Candidates(rest, own.ctx, Normalised(own.msgid));
      NearIff(own, first);
      CandidatesAre(rest, own, key);
      NoneNearCons(keys, own);
      OnlyNearCons(keys, own, key);
      OneOf(first, more, key);
      assert [] + more == more;
    }
  }

  lemma NoneNearCons(keys: seq<Key>, own: Key)
    requires keys != []
    ensures NoneNear(keys, own) <==> !Near(own, keys[0]) && NoneNear(keys[1..], own)
  {
    assert forall j :: 0 <= j < |keys[1..]| ==> keys[1..][j] == keys[j + 1];
    if NoneNear(keys[1..], own) && !Near(own, keys[0]) {
      forall j | 0 <= j < |keys| ensures !Near(own, keys[j]) { if j > 0 { assert keys[1..][j - 1] == keys[j]; } }
    }
  }

  lemma OnlyNearCons(keys: seq<Key>, own: Key, key: Key)
    requires keys != []
    ensures (exists i :: OnlyNear(keys, own, i) && keys[i] == key)
            <==> if Near(own, keys[0]) then keys[0] == key && NoneNear(keys[1..], own)
                 else exists i :: OnlyNear(keys[1..], own, i) && keys[1..][i] == key
  {
    var rest := keys[1..];
    NoneNearCons(keys, own);
    if i :| OnlyNear(keys, own, i) && keys[i] == key {
      if i > 0 {
        forall j | 0 <= j < |rest| && Near(own, rest[j]) ensures j == i - 1 { assert keys[j + 1] == rest[j]; }
        assert OnlyNear(rest, own, i - 1) && rest[i - 1] == key;
      } else {
        forall j | 0 <= j < |rest| ensures !Near(own, rest[j]) { assert keys[j + 1] == rest[j]; }
      }
    }
    if Near(own, keys[0]) && NoneNear(rest, own) {
      forall j | 0 < j < |keys| ensures !Near(own, keys[j]) { assert rest[j - 1] == keys[j]; }
      assert OnlyNear(keys, own, 0);
    }
    if !Near(own, keys[0]) {
      if i :| OnlyNear(rest, own, i) && rest[i] == key {
        forall j | 0 <= j < |keys| && Near(own, keys[j]) ensures j == i + 1 { assert rest[j - 1] == keys[j]; }
        assert OnlyNear(keys, own, i + 1) && keys[i + 1] == key;
      }
    }
  }

  lemma ResolveIff(cat: Catalogue, row: Row, key: Key)
    ensures Resolve(cat, row) == Some(key) <==> IsAbout(cat, row, key)
  {
    var own := Key(Strip(row.ctx), ToLf(row.msgid));
    if own !in cat.keys {
      CandidatesAre(cat.keys, own, key);
      OnlyCandidate(Candidates(cat.keys, own.ctx, Normalised(own.msgid)), key);
    }
  }

  lemma OnlyCandidate(cands: seq<Key>, key: Key)
    ensures |cands| == 1 && cands[0] == key <==> cands == [key]
  {
  }

  // ------------------------------------------------------------------ which translation it gives

  /** A percent sign by itself: none before it, and none of `% ( s d i f r` behind it. */
  predicate LonePercent(t: string, i: nat)
    requires i < |t|
  {
    && t[i] == '%' && (i > 0 ==> t[i - 1] != '%')
    && (i + 1 < |t| ==> t[i + 1] !in "%(sdifr")
  }

  /** The text from i on, with such percent signs doubled. */
  function LoneDoubled(t: string, i: nat): string
    requires i <= |t|
    decreases |t| - i
  {
    if i == |t| then "" else (if LonePercent(t, i) then "%%" else [t[i]]) + LoneDoubled(t, i + 1)
  }

  lemma {:induction false} DoublingIs(t: string, i: nat)
    requires i <= |t|
    ensures DoubleLone(t[i..], i > 0 && t[i - 1] == '%') == LoneDoubled(t, i)
    decreases |t| - i
  {
    if i < |t| {
      var s := t[i..];
      assert s[0] == t[i] && s[1..] == t[i + 1..] && (|s| > 1 ==> s[1] == t[i + 1]);
      DoublingIs(t, i + 1);
    }
  }

  /** What a cell is repaired to: line ends in one form, and lone percent signs doubled where the text is a format. */
  function Repaired(cell: string, format: bool): string {
    if format then LoneDoubled(ToLf(cell), 0) else ToLf(cell)
  }

  /** A cell is accepted, repaired, exactly when it is not blank, the repaired text has the placeholders of its
      message, and it formats where it has to. */
  lemma FixIff(c: Checks, msgid: string, cell: string, inTemplate: bool, v: string)
    ensures var format := c.isFormat(msgid) || inTemplate;
            Fix(c, msgid, cell, inTemplate) == Some(v)
            <==> v == Repaired(cell, format) && !AllSpace(ToLf(cell)) && c.tokens(v) == c.tokens(msgid)
                 && (format ==> c.formats(msgid, v))
  {
    DoublingIs(ToLf(cell), 0);
    assert ToLf(cell)[0..] == ToLf(cell);
  }

  /** The call a row asks for: its message, its own cell repaired, the place of the message in the source and whether
      it is a format. */
  ghost predicate Asks(c: Checks, cat: Catalogue, row: Row, call: Call) {
    && IsAbout(cat, row, call.key)
    && !AllSpace(row.cell) && Strip(row.cell) != Strip(call.key.msgid)
    && var format := c.isFormat(call.key.msgid) || cat.inTemplate(call.key);
    && call.value == Repaired(row.cell, format) && !AllSpace(ToLf(row.cell))
    && c.tokens(call.value) == c.tokens(call.key.msgid) && (format ==> c.formats(call.key.msgid, call.value))
    && call.location == cat.location(call.key) && call.pythonFormat == c.isFormat(call.key.msgid)
  }

  /** A row is taken exactly when it asks for a call, and for that call. */
  lemma AcceptsIff(c: Checks, cat: Catalogue, row: Row, call: Call)
    ensures Accepts(c, cat)(row) == Some(call) <==> Asks(c, cat, row, call)
  {
    ResolveIff(cat, row, call.key);
    FixIff(c, call.key.msgid, row.cell, cat.inTemplate(call.key), call.value);
  }

  // ------------------------------------------------------------------ the file after an import

  /** No row from i on asks for a call with this key. */
  ghost predicate NoneFrom(c: Checks, cat: Catalogue, rows: seq<Row>, i: nat, key: Key) {
    forall j, call :: i <= j < |rows| && Asks(c, cat, rows[j], call) ==> call.key != key
  }

  /** The key of the call that a row is taken for. */
  function KeyAsked(call: Option<Call>): Option<Key> { if call.None? then None else Some(call.value.key) }

  ghost predicate NoneAccepted(accept: Row -> Option<Call>, rows: seq<Row>, i: nat, key: Key) {
    forall j :: i <= j < |rows| ==> KeyAsked(accept(rows[j])) != Some(key)
  }

  lemma NoneIsAccepted(c: Checks, cat: Catalogue, rows: seq<Row>, i: nat, key: Key)
    requires NoneFrom(c, cat, rows, i, key)
    ensures NoneAccepted(Accepts(c, cat), rows, i, key)
  {
    forall j | i <= j < |rows| ensures KeyAsked(Accepts(c, cat)(rows[j])) != Some(key) {
      var call := Accepts(c, cat)(rows[j]);
      if call.Some? { AcceptsIff(c, cat, rows[j], call.value); }
    }
  }

  lemma CallsCons(accept: Row -> Option<Call>, row: Row, rest: seq<Row>)
    ensures Ops(Calls(accept, [row] + rest))
            == (if accept(row).Some? then [OpOf(accept(row).value)] else []) + Ops(Calls(accept, rest))
  {
    assert ([row] + rest)[1..] == rest;
  }

  /** What the rows set, one after the other. */
  function RowsSet(accept: Row -> Option<Call>, rows: seq<Row>, key: Key, before: Option<string>): Option<string> {
    if rows == [] then before
    else
      RowsSet(accept, rows[1..], key,
              if KeyAsked(accept(rows[0])) == Some(key) then Some(accept(rows[0]).value.value) else before)
  }

  lemma {:induction false} RowsSetLast(accept: Row -> Option<Call>, rows: seq<Row>, key: Key, before: Option<string>)
    ensures LastSet(Ops(Calls(accept, rows)), key, before) == RowsSet(accept, rows, key, before)
    decreases |rows|
  {
    if rows != [] {
      var first, rest := accept(rows[0]), Ops(Calls(accept, rows[1..]));
      assert rows == [rows[0]] + rows[1..];
      CallsCons(accept, rows[0], rows[1..]);
      RowsSetLast(accept, rows[1..], key,
                  if KeyAsked(first) == Some(key) then Some(first.value.value) else before);
      if first.Some? { assert ([OpOf(first.value)] + rest)[1..] == rest; } else { assert [] + rest == rest; }
    }
  }

  lemma NoneTail(accept: Row -> Option<Call>, rows: seq<Row>, i: nat, key: Key)
    requires rows != [] && NoneAccepted(accept, rows, i + 1, key)
    ensures NoneAccepted(accept, rows[1..], i, key)
  {
    assert forall j :: 0 <= j < |rows[1..]| ==> rows[1..][j] == rows[j + 1];
  }

  lemma {:induction false} NoneSets(accept: Row -> Option<Call>, rows: seq<Row>, key: Key, before: Option<string>)
    requires NoneAccepted(accept, rows, 0, key)
    ensures RowsSet(accept, rows, key, before) == before
    decreases |rows|
  {
    if rows != [] {
      NoneTail(accept, rows, 0, key);
      NoneSets(accept, rows[1..], key, before);
    }
  }

  /** The last row that is taken for a message sets it. */
  lemma {:induction false} LastRowSets(accept: Row -> Option<Call>, rows: seq<Row>, i: nat, call: Call,
                                       before: Option<string>)
    requires i < |rows| && accept(rows[i]) == Some(call) && NoneAccepted(accept, rows, i + 1, call.key)
    ensures RowsSet(accept, rows, call.key, before) == Some(call.value)
    decreases |rows|
  {
    NoneTail(accept, rows, i, call.key);
    if i == 0 {
      NoneSets(accept, rows[1..], call.key, Some(call.value));
    } else {
      LastRowSets(accept, rows[1..], i - 1, call,
                  if KeyAsked(accept(rows[0])) == Some(call.key) then Some(accept(rows[0]).value.value) else before);
    }
  }

  /** After an import and a save, each message has the translation of the last row that asks for one, and a message for
      which no row does has the one it had. */
  lemma ImportedFromRows(c: Checks, cat: Catalogue, raw: string, rows: seq<Row>, crlf: bool, i: nat, call: Call,
                         key: Key)
    requires FileOk(raw) && CatalogueOk(cat)
    ensures var text := After(raw, Calls(Accepts(c, cat), rows), crlf);
            && (i < |rows| && Asks(c, cat, rows[i], call) && NoneFrom(c, cat, rows, i + 1, call.key) ==>
                  Answer(text, call.key) == Some(call.value))
            && (NoneFrom(c, cat, rows, 0, key) ==> Answer(text, key) == Answer(raw, key))
  {
    var accept := Accepts(c, cat);
    AcceptedCallsOk(c, cat, rows);
    AfterAnswers(raw, Calls(accept, rows), crlf, key);
    AfterAnswers(raw, Calls(accept, rows), crlf, call.key);
    RowsSetLast(accept, rows, key, Answer(raw, key));
    RowsSetLast(accept, rows, call.key, Answer(raw, call.key));
    if i < |rows| && Asks(c, cat, rows[i], call) && NoneFrom(c, cat, rows, i + 1, call.key) {
      AcceptsIff(c, cat, rows[i], call);
      NoneIsAccepted(c, cat, rows, i + 1, call.key);
      LastRowSets(accept, rows, i, call, Answer(raw, call.key));
    }
    if NoneFrom(c, cat, rows, 0, key) {
      NoneIsAccepted(c, cat, rows, 0, key);
      NoneSets(accept, rows, key, Answer(raw, key));
    }
  }

  // ------------------------------------------------------------------ fuzzy entries

  /** Some operation gives the key another value than this. */
  predicate GivesOther(ops: seq<Op<seq<string>, Key, string>>, key: Key, v: Option<string>) {
    exists i :: 0 <= i < |ops| && ops[i].key == key && Some(ops[i].value) != v
  }

  lemma GivesOtherCons(ops: seq<Op<seq<string>, Key, string>>, key: Key, v: Option<string>)
    requires ops != []
    ensures GivesOther(ops, key, v) <==> (ops[0].key == key && Some(ops[0].value) != v) || GivesOther(ops[1..], key, v)
  {
    if GivesOther(ops[1..], key, v) {
      var i :| 0 <= i < |ops[1..]| && ops[1..][i].key == key && Some(ops[1..][i].value) != v;
      assert ops[i + 1] == ops[1..][i];
    }
    if GivesOther(ops, key, v) {
      var i :| 0 <= i < |ops| && ops[i].key == key && Some(ops[i].value) != v;
      if i > 0 { assert ops[1..][i - 1] == ops[i]; }
    }
  }

  ghost predicate Fit(ops: seq<Op<seq<string>, Key, string>>) { AllFit(PO(), ops) && AllFit(Used(), ops) }

  /** Setting one value. */
  lemma SetUsed(st: Tables, o: Op<seq<string>, Key, string>, key: Key)
    requires Good(PO(), st) && Good(Used(), st) && Fit([o])
    ensures var r := Set(PO(), st, o.key, o.value, o.entry);
            && Good(PO(), r) && Good(Used(), r)
            && Get(PO(), r, key) == (if o.key == key then Some(o.value) else Get(PO(), st, key))
            && Get(Used(), r, key) == (if o.key == key then Some(o.value) else Get(Used(), st, key))
  {
    assert [o][0] == o;
    PoIsLawful();
    UsedIsLawful();
    SetIsGood(PO(), st, o.key, o.value, o.entry);
    SetThenGet(PO(), st, o.key, o.value, o.entry, key);
    SetIsGood(Used(), st, o.key, o.value, o.entry);
    SetThenGet(Used(), st, o.key, o.value, o.entry, key);
    assert Set(Used(), st, o.key, o.value, o.entry) == Set(PO(), st, o.key, o.value, o.entry);
  }

  /** A value that is there already is not set again, so a fuzzy entry stays fuzzy when the import only repeats what it
      says; otherwise readers use what the import leaves. */
  lemma {:induction false} ImportUsed(st: Tables, ops: seq<Op<seq<string>, Key, string>>, key: Key)
    requires Good(PO(), st) && Good(Used(), st) && Fit(ops)
    ensures var r := Import(PO(), st, ops);
            && Good(PO(), r) && Good(Used(), r)
            && Get(Used(), r, key)
               == if Get(Used(), st, key) == Get(PO(), st, key) || GivesOther(ops, key, Get(PO(), st, key))
                  then Get(PO(), r, key) else Get(Used(), st, key)
    decreases |ops|
  {
    if ops != [] {
      var o, was := ops[0], Get(PO(), st, key);
      assert Fit([o]) && Fit(ops[1..]);
      GivesOtherCons(ops, key, was);
      if Get(PO(), st, o.key) == Some(o.value) {
        ImportUsed(st, ops[1..], key);
      } else {
        var mid := Set(PO(), st, o.key, o.value, o.entry);
        SetUsed(st, o, key);
        ImportUsed(mid, ops[1..], key);
      }
    }
  }

  /** After an import and a save, readers use the translation of a message if and only if they used it before, or the
      import gives it another translation than the file has; a fuzzy entry whose translation is only repeated stays
      unused. */
  lemma ImportedIsUsedIff(c: Checks, cat: Catalogue, raw: string, rows: seq<Row>, crlf: bool, key: Key)
    requires FileOk(raw) && CatalogueOk(cat)
    ensures var calls := Calls(Accepts(c, cat), rows); var text := After(raw, calls, crlf);
            UsedAnswer(text, key)
            == if UsedAnswer(raw, key) == Answer(raw, key) || GivesOther(Ops(calls), key, Answer(raw, key))
               then Answer(text, key) else UsedAnswer(raw, key)
  {
    var calls := Calls(Accepts(c, cat), rows);
    AcceptedCallsOk(c, cat, rows);
    UsedFits(calls);
    CallsFit(calls);
    LoadedFrom(raw);
    LoadedIsGood(Used(), Blocks(IsBlank, LinesOf(raw)));
    ImportUsed(TablesOf(raw), Ops(calls), key);
    ImportedAnswers(raw, calls, key);
    SavedTables(raw, Imported(raw, calls), crlf);
    ReloadKeepsAnswers(Used(), Imported(raw, calls), key);
    ReloadKeepsAnswers(PO(), Imported(raw, calls), key);
  }
}

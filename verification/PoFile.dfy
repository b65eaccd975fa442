/** Class `PoFile` of tools/i18n_master.py: load a .po file, look up and set translations, and save it so that only the
    touched entries change. */
module PoFile {
  import opened Text
  import opened Paragraphs
  import opened EntryStore
  import opened PoText
  import opened PoEntry

  // ------------------------------------------------------------------ text and lines

  /** `raw.replace("\r\n", "\n")`. */
  function ToLf(s: string): string
    decreases |s|
  {
    if |s| < 2 then s
    else if s[0] == '\r' && s[1] == '\n' then "\n" + ToLf(s[2..])
    else [s[0]] + ToLf(s[1..])
  }

  /** `text.replace("\n", "\r\n")`. */
  function ToCrlf(s: string): string { ReplaceChar(s, '\n', "\r\n") }

  function LinesOf(raw: string): seq<string> { Split(ToLf(raw), '\n') }

  /** The text `save` writes for these lines. */
  function TextOf(ls: seq<string>, crlf: bool): string {
    if crlf then ToCrlf(Join(ls, '\n')) else Join(ls, '\n')
  }

  lemma {:induction false} LfOfCrlf(s: string)
    ensures ToLf(ToCrlf(s)) == s
  {
    if s != "" {
      var t, rest := ToCrlf(s), ToCrlf(s[1..]);
      LfOfCrlf(s[1..]);
      assert s == [s[0]] + s[1..];
      if s[0] == '\n' {
        assert t[2..] == rest;
      } else {
        assert t[1..] == rest;
        assert rest != "" ==> rest[0] != '\n';
        if rest == "" { assert s[1..] == ""; }
      }
    }
  }

  ghost predicate NoCrlf(s: string) { forall i :: 0 <= i < |s| - 1 ==> !(s[i] == '\r' && s[i + 1] == '\n') }

  lemma {:induction false} LfOfLf(s: string)
    requires NoCrlf(s)
    ensures ToLf(s) == s
    decreases |s|
  {
    if |s| >= 2 {
      assert !(s[0] == '\r' && s[1] == '\n');
      forall i | 0 <= i < |s[1..]| - 1 ensures !(s[1..][i] == '\r' && s[1..][i + 1] == '\n') {
        assert s[1..][i] == s[i + 1] && s[1..][i + 1] == s[i + 2];
      }
      LfOfLf(s[1..]);
      assert s == [s[0]] + s[1..];
    }
  }

  /** A line of a file: no line end in it and no carriage return at its end. */
  predicate IsLine(l: string) { '\n' !in l && (l == "" || l[|l| - 1] != '\r') }

  lemma {:induction false} JoinedHasNoCrlf(ls: seq<string>)
    requires Every(IsLine, ls)
    ensures NoCrlf(Join(ls, '\n'))
    decreases |ls|
  {
    if |ls| == 1 {
      assert IsLine(ls[0]);
    } else if |ls| > 1 {
      var a, rest := ls[0], Join(ls[1..], '\n');
      assert IsLine(a);
      JoinedHasNoCrlf(ls[1..]);
      var t := a + ['\n'] + rest;
      forall i | 0 <= i < |t| - 1 ensures !(t[i] == '\r' && t[i + 1] == '\n') {
        if i >= |a| + 1 { assert t[i] == rest[i - |a| - 1] && t[i + 1] == rest[i - |a|]; }
      }
    }
  }

  /** Reading what was written gives the same lines, with either kind of line end. */
  lemma LinesOfText(ls: seq<string>, crlf: bool)
    requires ls != [] && Every(IsLine, ls)
    ensures LinesOf(TextOf(ls, crlf)) == ls
  {
    forall i | 0 <= i < |ls| ensures '\n' !in ls[i] { assert IsLine(ls[i]); }
    SplitJoin(ls, '\n');
    LfOfCrlf(Join(ls, '\n'));
    JoinedHasNoCrlf(ls);
    LfOfLf(Join(ls, '\n'));
  }

  // ------------------------------------------------------------------ entries

  /** Only comments, fields and continuations in their places, on lines of their own. */
  ghost predicate EntryOk(b: seq<string>) { b != [] && AllTidy(b) && WellFormed(KindOf, b, false) }

  /** How entries are read and written. */
  ghost function PO(): Format<seq<string>, Key, string> {
    Format(KeyOf, (b: seq<string>) => FieldValue(b, "msgstr"), WithMsgstr, (b: seq<string>) => EntryOk(b))
  }

  lemma PoIsLawful()
    ensures Lawful(PO())
  {
    forall b: seq<string>, v: string | PO().ok(b)
      ensures PO().ok(PO().with(b, v)) && PO().key(PO().with(b, v)) == PO().key(b)
              && PO().value(PO().with(b, v)) == Some(v)
    {
      WithMsgstrOk(b, v);
      WithMsgstrTidy(b, v);
    }
  }

  lemma NewBlockFits(key: Key, value: string, location: string, pythonFormat: bool)
    requires key.msgid != "" && OneLine(location)
    ensures Fits(PO(), key, value, NewBlock(key, value, location, pythonFormat))
  {
    NewBlockOk(key, value, location, pythonFormat);
    NewBlockTidy(key, value, location, pythonFormat);
  }

  type Tables = Store<seq<string>, Key>

  /** The lines `save` writes. */
  ghost function SavedLines(lines: seq<string>, st: Tables): seq<string> {
    var out := Rebuild(IsBlank, lines, NowLoaded(st));
    if st.appended == [] then out else Trim("", out) + Appendix("", st.appended)
  }

  lemma EntriesAreBlocks(bs: seq<seq<string>>)
    requires forall i :: 0 <= i < |bs| ==> EntryOk(bs[i])
    ensures AllBlocks(IsBlank, bs)
  {
    forall i | 0 <= i < |bs| ensures IsBlock(IsBlank, bs[i]) {
      forall j | 0 <= j < |bs[i]| ensures !IsBlank(bs[i][j]) { assert Tidy(bs[i][j]); }
    }
  }

  lemma EntriesAreOk(st: Tables)
    requires Good(PO(), st)
    ensures forall i :: 0 <= i < |NowLoaded(st)| ==> EntryOk(NowLoaded(st)[i])
    ensures forall i :: 0 <= i < |st.appended| ==> EntryOk(st.appended[i])
  {
    forall i | 0 <= i < |NowLoaded(st)| ensures EntryOk(NowLoaded(st)[i]) {
      assert PO().ok(st.loaded[i]);
      if i in st.replaced { assert PO().ok(st.replaced[i]); }
    }
    forall i | 0 <= i < |st.appended| ensures EntryOk(st.appended[i]) { assert PO().ok(st.appended[i]); }
  }

  lemma BlocksOfSaved(lines: seq<string>, st: Tables)
    requires AllBlocks(IsBlank, NowLoaded(st)) && AllBlocks(IsBlank, st.appended)
             && |st.loaded| == |Blocks(IsBlank, lines)| && IsBlank("")
    ensures Blocks(IsBlank, SavedLines(lines, st)) == Entries(st)
  {
    var now := NowLoaded(st);
    var out := Rebuild(IsBlank, lines, now);
    BlocksOfRebuild(IsBlank, lines, now);
    BlocksOfTrim(IsBlank, "", out);
    BlocksWithAppendix(IsBlank, "", Trim("", out), st.appended);
    assert now + [] == now;
  }

  /** The saved lines have exactly the entries as they stand. */
  lemma SavedBlocks(lines: seq<string>, st: Tables)
    requires Good(PO(), st) && st.loaded == Blocks(IsBlank, lines)
    ensures Blocks(IsBlank, SavedLines(lines, st)) == Entries(st)
  {
    EntriesAreOk(st);
    EntriesAreBlocks(NowLoaded(st));
    EntriesAreBlocks(st.appended);
    BlocksOfSaved(lines, st);
  }

  lemma TidyIsLine(bs: seq<seq<string>>)
    requires forall i :: 0 <= i < |bs| ==> EntryOk(bs[i])
    ensures EveryBlockLine(IsLine, bs)
  {
    forall i | 0 <= i < |bs| ensures Every(IsLine, bs[i]) {
      forall j | 0 <= j < |bs[i]| ensures IsLine(bs[i][j]) { assert Tidy(bs[i][j]); }
    }
  }

  lemma SavedAreLines(lines: seq<string>, st: Tables)
    requires Good(PO(), st) && st.loaded == Blocks(IsBlank, lines) && Every(IsLine, lines) && lines != []
    ensures Every(IsLine, SavedLines(lines, st)) && SavedLines(lines, st) != []
  {
    EntriesAreOk(st);
    EntriesAreBlocks(NowLoaded(st));
    TidyIsLine(NowLoaded(st));
    TidyIsLine(st.appended);
    SavedAreAll(IsLine, lines, st);
  }

  lemma SavedAreAll(p: string -> bool, lines: seq<string>, st: Tables)
    requires AllBlocks(IsBlank, NowLoaded(st)) && |st.loaded| == |Blocks(IsBlank, lines)| && lines != [] && p("")
    requires Every(p, lines) && EveryBlockLine(p, NowLoaded(st)) && EveryBlockLine(p, st.appended)
    ensures Every(p, SavedLines(lines, st)) && SavedLines(lines, st) != []
  {
    var out := Rebuild(IsBlank, lines, NowLoaded(st));
    RebuildEvery(IsBlank, p, lines, NowLoaded(st));
    AppendixEvery(p, "", st.appended);
    TrimLosesEmptyLines("", out);
    EveryPrefix(p, Trim("", out), out);
    EveryAppend(p, Trim("", out), Appendix("", st.appended));
  }

  // ------------------------------------------------------------------ whole runs

  /** One call of `set`. */
  datatype Call = Call(key: Key, value: string, location: string, pythonFormat: bool)

  function OpOf(c: Call): Op<seq<string>, Key, string> {
    Op(c.key, c.value, NewBlock(c.key, c.value, c.location, c.pythonFormat))
  }

  function Ops(calls: seq<Call>): (r: seq<Op<seq<string>, Key, string>>)
    ensures |r| == |calls| && forall i :: 0 <= i < |calls| ==> r[i] == OpOf(calls[i])
  {
    seq(|calls|, i requires 0 <= i < |calls| => OpOf(calls[i]))
  }

  /** Messages are not empty and locations are on one line. */
  ghost predicate CallsOk(calls: seq<Call>) {
    forall i :: 0 <= i < |calls| ==> calls[i].key.msgid != "" && OneLine(calls[i].location)
  }

  /** Every entry is well formed and no line ends in a lone carriage return. */
  ghost predicate FileOk(raw: string) {
    && Every(IsLine, LinesOf(raw))
    && forall i :: 0 <= i < |Blocks(IsBlank, LinesOf(raw))| ==> EntryOk(Blocks(IsBlank, LinesOf(raw))[i])
  }

  function TablesOf(raw: string): Tables { Loaded(Blocks(IsBlank, LinesOf(raw))) }

  /** What `get` answers on a freshly loaded file. */
  ghost function Answer(raw: string, key: Key): Option<string> { Get(PO(), TablesOf(raw), key) }

  /** The file after a run of `set` calls and `save`. */
  ghost function Saved(raw: string, calls: seq<Call>, crlf: bool): string {
    TextOf(SavedLines(LinesOf(raw), SetAll(PO(), TablesOf(raw), Ops(calls))), crlf)
  }

  lemma CallsFit(calls: seq<Call>)
    requires CallsOk(calls)
    ensures AllFit(PO(), Ops(calls))
  {
    forall i | 0 <= i < |Ops(calls)| ensures Fits(PO(), Ops(calls)[i].key, Ops(calls)[i].value, Ops(calls)[i].entry) {
      NewBlockFits(calls[i].key, calls[i].value, calls[i].location, calls[i].pythonFormat);
    }
  }

  /** Tables that stem from this file. */
  ghost predicate From(raw: string, st: Tables) { Good(PO(), st) && st.loaded == Blocks(IsBlank, LinesOf(raw)) }

  ghost function TextAfter(raw: string, st: Tables, crlf: bool): string { TextOf(SavedLines(LinesOf(raw), st), crlf) }

  /** A saved file answers as the tables did, and is again one that can be edited. */
  lemma SavedAnswers(raw: string, st: Tables, crlf: bool, key: Key)
    requires FileOk(raw) && From(raw, st)
    ensures Answer(TextAfter(raw, st, crlf), key) == Get(PO(), st, key) && FileOk(TextAfter(raw, st, crlf))
  {
    var lines := LinesOf(raw);
    SavedBlocks(lines, st);
    SavedAreLines(lines, st);
    LinesOfText(SavedLines(lines, st), crlf);
    ReloadKeepsAnswers(PO(), st, key);
    EntriesAreOk(st);
  }

  lemma LoadedFrom(raw: string)
    requires FileOk(raw)
    ensures From(raw, TablesOf(raw))
  {
    var was := Blocks(IsBlank, LinesOf(raw));
    forall i | 0 <= i < |was| ensures PO().ok(was[i]) {}
    LoadedIsGood(PO(), was);
  }

  /** After any run of `set` calls, saving and loading again, `get` gives the last value set for a key and the old value
      for every other key; and the new file is again one that can be edited so. */
  lemma SavedFileAnswers(raw: string, calls: seq<Call>, crlf: bool, key: Key)
    requires FileOk(raw) && CallsOk(calls)
    ensures Answer(Saved(raw, calls, crlf), key) == LastSet(Ops(calls), key, Answer(raw, key))
    ensures FileOk(Saved(raw, calls, crlf))
  {
    PoIsLawful();
    CallsFit(calls);
    LoadedFrom(raw);
    RunsAnswer(PO(), TablesOf(raw), Ops(calls), key);
    SavedAnswers(raw, SetAll(PO(), TablesOf(raw), Ops(calls)), crlf, key);
  }

  /** Line p of the file survives a save, in its order, unless it stands in a replaced entry or is one of the empty
      lines at the end before appended entries. */
  lemma LineSurvives(lines: seq<string>, st: Tables, p: nat)
    requires Untouched(IsBlank, lines, NowLoaded(st), p)
    ensures var q, saved := Place(IsBlank, lines, NowLoaded(st), p), SavedLines(lines, st);
            (q < |saved| && saved[q] == lines[p])
            || (lines[p] == "" && forall k :: q <= k < |Rebuild(IsBlank, lines, NowLoaded(st))| ==>
                                  Rebuild(IsBlank, lines, NowLoaded(st))[k] == "")
  {
    UntouchedSurvives(IsBlank, lines, NowLoaded(st), p);
    TrimLosesEmptyLines("", Rebuild(IsBlank, lines, NowLoaded(st)));
  }

  // ------------------------------------------------------------------ saving an unedited file

  /** Every line feed stands behind a carriage return. */
  ghost predicate AllCrlf(s: string) { forall i :: 0 <= i < |s| && s[i] == '\n' ==> i > 0 && s[i - 1] == '\r' }

  /** The line ends are all of one kind. */
  ghost predicate Uniform(s: string) { NoCrlf(s) || AllCrlf(s) }

  lemma {:induction false} CrlfOfLf(s: string)
    requires AllCrlf(s)
    ensures ToCrlf(ToLf(s)) == s
    decreases |s|
  {
    if |s| >= 2 && s[0] == '\r' && s[1] == '\n' {
      var rest := s[2..];
      assert AllCrlf(rest) by { assert forall i :: 0 <= i < |rest| ==> rest[i] == s[i + 2]; }
      CrlfOfLf(rest);
      assert ("\n" + ToLf(rest))[1..] == ToLf(rest) && s == "\r\n" + rest;
    } else if |s| >= 2 {
      var rest := s[1..];
      assert AllCrlf(rest) by { assert forall i :: 0 <= i < |rest| ==> rest[i] == s[i + 1]; }
      CrlfOfLf(rest);
      assert ([s[0]] + ToLf(rest))[1..] == ToLf(rest) && s == [s[0]] + rest;
    } else if |s| == 1 {
      assert s[0] != '\n' && s[1..] == "" && s == [s[0]];
      assert ToCrlf(s) == [s[0]] + ToCrlf(s[1..]);
    }
  }

  lemma {:induction false} CrlfEverywhere(s: string)
    ensures AllCrlf(ToCrlf(s))
  {
    if s != "" {
      CrlfEverywhere(s[1..]);
      var t, rest := ToCrlf(s), ToCrlf(s[1..]);
      var head := if s[0] == '\n' then "\r\n" else [s[0]];
      assert t == head + rest;
      forall i | 0 <= i < |t| && t[i] == '\n' ensures i > 0 && t[i - 1] == '\r' {
        if i >= |head| { assert t[i] == rest[i - |head|]; }
      }
    }
  }

  lemma CrlfOccurs(raw: string)
    ensures Occurs("\r\n", raw) <==> !NoCrlf(raw)
  {
    if Occurs("\r\n", raw) {
      var i :| 0 <= i <= |raw| && StartsAt(raw, i, "\r\n");
      assert raw[i..i + 2][0] == '\r' && raw[i..i + 2][1] == '\n';
    }
    if !NoCrlf(raw) {
      var i :| 0 <= i < |raw| - 1 && raw[i] == '\r' && raw[i + 1] == '\n';
      assert raw[i..i + 2] == "\r\n";
      assert StartsAt(raw, i, "\r\n");
    }
  }

  /** Reading a file and writing its lines with the line end found in it gives the file back if and only if its line
      ends are all of one kind. */
  lemma TextOfLinesIff(raw: string)
    ensures TextOf(LinesOf(raw), Occurs("\r\n", raw)) == raw <==> Uniform(raw)
  {
    JoinSplit(ToLf(raw), '\n');
    CrlfOccurs(raw);
    if NoCrlf(raw) {
      LfOfLf(raw);
    } else {
      CrlfEverywhere(ToLf(raw));
      if AllCrlf(raw) { CrlfOfLf(raw); }
    }
  }

  /** Saving a file right after loading it gives it back, byte for byte, if and only if its line ends are all of one
      kind. */
  lemma UneditedSaveIff(raw: string)
    ensures Saved(raw, [], Occurs("\r\n", raw)) == raw <==> Uniform(raw)
  {
    var st := TablesOf(raw);
    assert NowLoaded(st) == Blocks(IsBlank, LinesOf(raw));
    RebuildSame(IsBlank, LinesOf(raw));
    TextOfLinesIff(raw);
  }

  // ------------------------------------------------------------------ the class

  ghost predicate IndexOk(bs: seq<seq<string>>, n: nat, index: map<Key, nat>) {
    && n <= |bs|
    && forall k :: (k in index <==> LastWith(KeyOf, bs[..n], k).Some?)
                   && (k in index ==> LastWith(KeyOf, bs[..n], k) == Some(index[k]))
  }

  lemma IndexStep(bs: seq<seq<string>>, n: nat, index: map<Key, nat>)
    requires IndexOk(bs, n, index) && n < |bs|
    ensures IndexOk(bs, n + 1, if KeyOf(bs[n]).Some? then index[KeyOf(bs[n]).value := n] else index)
  {
    LastWithSnoc(KeyOf, bs, n);
  }

  class PoFile {
    var crlf: bool
    var lines: seq<string>
    var spans: seq<(nat, nat)>
    var index: map<Key, nat>
    var replaced: map<nat, seq<string>>
    var appended: seq<seq<string>>
    var appIndex: map<Key, nat>
    var changed: bool

    /** The spans are the blocks of the lines, the index their keys, and the tables point into the lists. */
    ghost predicate Valid()
      reads this`lines, this`spans, this`index, this`replaced, this`appended, this`appIndex
    {
      Indexed() && Sane(State())
    }

    ghost predicate Indexed()
      reads this`lines, this`spans, this`index
    {
      AreSpans(IsBlank, lines, 0, spans) && InLines(lines, spans) && IndexOk(Cut(lines, spans), |spans|, index)
    }

    ghost function State(): Tables
      reads this`lines, this`spans, this`replaced, this`appended, this`appIndex
      requires InLines(lines, spans)
    {
      Store(Cut(lines, spans), replaced, appended, appIndex)
    }

    constructor (raw: string)
      ensures Valid() && lines == LinesOf(raw) && crlf == Occurs("\r\n", raw) && !changed
      ensures State() == TablesOf(raw)
    {
      var ls := LinesOf(raw);
      var sp := FindSpans(IsBlank, ls);
      SpansAreBlocks(IsBlank, ls, 0, sp);
      assert ls[0..] == ls;
      ghost var bs := Cut(ls, sp);
      var idx: map<Key, nat> := map[];
      assert bs[..0] == [];
      for bi := 0 to |sp|
        invariant IndexOk(bs, bi, idx)
      {
        IndexStep(bs, bi, idx);
        var k := KeyOf(ls[sp[bi].0..sp[bi].1]);
        if k.Some? { idx := idx[k.value := bi]; }
      }
      crlf, lines, spans, index := Occurs("\r\n", raw), ls, sp, idx;
      replaced, appended, appIndex, changed := map[], [], map[], false;
    }

    /** `_block`. */
    method Block(key: Key) returns (b: Option<seq<string>>)
      requires Valid()
      ensures b == EntryStore.Find(PO(), State(), key)
    {
      assert Cut(lines, spans)[..|spans|] == Cut(lines, spans);
      if key in appIndex { return Some(appended[appIndex[key]]); }
      if key !in index { return None; }
      var bi := index[key];
      if bi in replaced { return Some(replaced[bi]); }
      return Some(lines[spans[bi].0..spans[bi].1]);
    }

    /** `get`. */
    method Lookup(key: Key) returns (r: Option<string>)
      requires Valid()
      ensures r == Get(PO(), State(), key)
    {
      var b := Block(key);
      if b.None? { return None; }
      r := FieldLoop(b.value, "msgstr");
    }

    /** `set` for a key that was appended before. */
    method AssignAppended(key: Key, value: string, ghost entry: seq<string>)
      requires Valid() && key in appIndex
      modifies this`appended
      ensures Valid() && State() == Set(PO(), old(State()), key, value, entry)
    {
      var ai := appIndex[key];
      var b := ReplaceMsgstr(appended[ai], value);
      appended := appended[ai := b];
    }

    /** `set` for a key of the file. */
    method AssignLoaded(key: Key, value: string, ghost entry: seq<string>)
      requires Valid() && key !in appIndex && key in index
      modifies this`replaced
      ensures Valid() && State() == Set(PO(), old(State()), key, value, entry)
    {
      ghost var st := State();
      assert LastWith(PO().key, st.loaded, key) == Some(index[key]) by {
        assert Cut(lines, spans)[..|spans|] == Cut(lines, spans);
      }
      SetLoaded(PO(), st, key, value, entry, index[key]);
      var b := Block(key);
      var r := ReplaceMsgstr(b.value, value);
      replaced := replaced[index[key] := r];
      assert State() == st.(replaced := replaced);
    }

    /** `set` for a new key. */
    method AssignNew(key: Key, value: string, entry: seq<string>)
      requires Valid() && key !in appIndex && key !in index
      modifies this`appended, this`appIndex
      ensures Valid() && State() == Set(PO(), old(State()), key, value, entry)
    {
      assert Cut(lines, spans)[..|spans|] == Cut(lines, spans);
      appIndex := appIndex[key := |appended|];
      appended := appended + [entry];
    }

    /** `set`, given the entry to append for a new key. */
    method AssignEntry(key: Key, value: string, entry: seq<string>)
      requires Valid()
      modifies this`replaced, this`appended, this`appIndex
      ensures Valid() && State() == Set(PO(), old(State()), key, value, entry)
    {
      if key in appIndex {
        AssignAppended(key, value, entry);
      } else if key in index {
        AssignLoaded(key, value, entry);
      } else {
        AssignNew(key, value, entry);
      }
    }

    /** `set`. */
    method Assign(key: Key, value: string, location: string, pythonFormat: bool)
      requires Valid()
      modifies this
      ensures Valid() && changed && lines == old(lines) && crlf == old(crlf)
      ensures State() == Set(PO(), old(State()), key, value, NewBlock(key, value, location, pythonFormat))
    {
      AssignEntry(key, value, NewBlock(key, value, location, pythonFormat));
      changed := true;
    }

    /** The lines of `save`. */
    method SaveLines() returns (out: seq<string>)
      requires Valid()
      ensures out == SavedLines(lines, State())
    {
      var spliced := SpliceBlocks(IsBlank, lines, spans, replaced);
      assert Now(lines, spans, replaced) == NowLoaded(State());
      out := AppendBlocks("", spliced, appended);
    }

    /** `save`: the text written to the file. */
    method Save() returns (text: string)
      requires Valid()
      ensures text == TextOf(SavedLines(lines, State()), crlf)
    {
      var out := SaveLines();
      text := TextOf(out, crlf);
    }
  }

  /** The class does what the functions say: load, set any number of times, save, load, get. */
  method EditFile(raw: string, calls: seq<Call>, key: Key) returns (text: string, answer: Option<string>)
    ensures text == Saved(raw, calls, Occurs("\r\n", raw)) && answer == Answer(text, key)
    ensures FileOk(raw) && CallsOk(calls) ==> answer == LastSet(Ops(calls), key, Answer(raw, key))
  {
    var po := new PoFile(raw);
    ghost var ops := Ops(calls);
    assert ops[0..] == ops;
    for i := 0 to |calls|
      invariant po.Valid() && fresh(po) && po.lines == LinesOf(raw) && po.crlf == Occurs("\r\n", raw)
      invariant SetAll(PO(), po.State(), ops[i..]) == SetAll(PO(), TablesOf(raw), ops)
    {
      assert ops[i..][0] == ops[i] && ops[i..][1..] == ops[i + 1..];
      po.Assign(calls[i].key, calls[i].value, calls[i].location, calls[i].pythonFormat);
    }
    assert ops[|calls|..] == [];
    text := po.Save();
    var again := new PoFile(text);
    answer := again.Lookup(key);
    if FileOk(raw) && CallsOk(calls) { SavedFileAnswers(raw, calls, Occurs("\r\n", raw), key); }
  }
}

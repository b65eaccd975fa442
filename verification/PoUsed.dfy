/** What the readers of a saved .po file use (`translations_map` and `cmd_compile` in tools/i18n_master.py leave fuzzy
    entries out): after any run of `set`, every translation that was set is used, and no entry has lost anything else
    it says. */
module PoUsed {
  import opened Text
  import opened Paragraphs
  import opened EntryStore
  import opened PoText
  import opened PoEntry
  import opened PoFlags
  import opened PoFile

  /** The translation, unless it is fuzzy. */
  function UsedValue(b: seq<string>): Option<string> { if IsFuzzy(b) then None else FieldValue(b, "msgstr") }

  /** How entries are read by those who leave fuzzy ones out. */
  ghost function Used(): Format<seq<string>, Key, string> { PO().(value := UsedValue) }

  lemma UsedIsLawful()
    ensures Lawful(Used())
  {
    PoIsLawful();
    forall b: seq<string>, v: string | Used().ok(b)
      ensures Used().ok(Used().with(b, v)) && Used().key(Used().with(b, v)) == Used().key(b)
              && Used().value(Used().with(b, v)) == Some(v)
    {
      assert PO().ok(b);
      WithMsgstrContent(b, v);
    }
  }

  /** The tables do not depend on how values are read. */
  lemma {:induction false} SameTables(st: Tables, ops: seq<Op<seq<string>, Key, string>>)
    requires Sane(st)
    ensures SetAll(Used(), st, ops) == SetAll(PO(), st, ops)
    decreases |ops|
  {
    if ops != [] { SameTables(Set(PO(), st, ops[0].key, ops[0].value, ops[0].entry), ops[1..]); }
  }

  /** What readers of a file use for a key. */
  ghost function UsedAnswer(raw: string, key: Key): Option<string> { Get(Used(), TablesOf(raw), key) }

  lemma UsedFits(calls: seq<Call>)
    requires CallsOk(calls)
    ensures AllFit(Used(), Ops(calls))
  {
    CallsFit(calls);
    forall i | 0 <= i < |Ops(calls)| ensures Fits(Used(), Ops(calls)[i].key, Ops(calls)[i].value, Ops(calls)[i].entry) {
      NewBlockNotFuzzy(calls[i].key, calls[i].value, calls[i].location, calls[i].pythonFormat);
    }
  }

  /** After any run of `set` calls and saving, readers use the last value set for a key, even if the entry was fuzzy,
      and for every other key what they used before. */
  lemma SavedFileIsUsed(raw: string, calls: seq<Call>, crlf: bool, key: Key)
    requires FileOk(raw) && CallsOk(calls)
    ensures UsedAnswer(Saved(raw, calls, crlf), key) == LastSet(Ops(calls), key, UsedAnswer(raw, key))
  {
    var st := SetAll(PO(), TablesOf(raw), Ops(calls));
    PoIsLawful();
    CallsFit(calls);
    LoadedFrom(raw);
    RunsAnswer(PO(), TablesOf(raw), Ops(calls), key);
    UsedIsLawful();
    UsedFits(calls);
    LoadedIsGood(Used(), Blocks(IsBlank, LinesOf(raw)));
    RunsAnswer(Used(), TablesOf(raw), Ops(calls), key);
    SameTables(TablesOf(raw), Ops(calls));
    SavedTables(raw, st, crlf);
    ReloadKeepsAnswers(Used(), st, key);
  }

  lemma SavedTables(raw: string, st: Tables, crlf: bool)
    requires FileOk(raw) && From(raw, st)
    ensures TablesOf(TextAfter(raw, st, crlf)) == Loaded(Entries(st))
  {
    var lines := LinesOf(raw);
    SavedBlocks(lines, st);
    SavedAreLines(lines, st);
    LinesOfText(SavedLines(lines, st), crlf);
  }

  // ------------------------------------------------------------------ nothing else is lost

  /** What an entry says besides `fuzzy` and its translation. */
  ghost function SaysOf(): seq<string> -> seq<Item> { (b: seq<string>) => Content(b, false) }

  ghost function Says(raw: string, key: Key): Option<seq<Item>> { ViewOf(PO(), SaysOf(), TablesOf(raw), key) }

  /** After any run of `set` calls and saving, each entry that was there says what it said: its other flags and all its
      lines that are no translation are there, in order. */
  lemma SavedFileSays(raw: string, calls: seq<Call>, crlf: bool, key: Key)
    requires FileOk(raw) && CallsOk(calls) && Says(raw, key).Some?
    ensures Says(Saved(raw, calls, crlf), key) == Says(raw, key)
  {
    var st := SetAll(PO(), TablesOf(raw), Ops(calls));
    PoIsLawful();
    CallsFit(calls);
    LoadedFrom(raw);
    RunsAnswer(PO(), TablesOf(raw), Ops(calls), key);
    forall b: seq<string>, v: string | PO().ok(b) ensures SaysOf()(PO().with(b, v)) == SaysOf()(b) {
      WithMsgstrContent(b, v);
    }
    RunsKeepView(PO(), SaysOf(), TablesOf(raw), Ops(calls), key);
    SavedTables(raw, st, crlf);
    FindIsLast(PO(), st, key);
  }
}

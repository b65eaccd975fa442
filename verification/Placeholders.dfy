/** Giving names to the holes of a message: the loop shared by `_fstring_call` and `_js_tpl_to_call`
    (tools/i18n_wrap_code.py). The same expression text always gets the same name, different texts different names. */
module Placeholders {
  import opened Text
  import opened Identifiers

  /** A stretch of text, or a hole with the source text of its expression. */
  datatype Slot = Words(text: string) | Hole(expr: string)

  /** The corresponding stretch of the message. */
  datatype Item = Lit(text: string) | Ref(name: string)

  /** The variables of the loop: message items, arguments (name, expression), names in use, and the name of each
      text. */
  datatype Draft = Draft(items: seq<Item>, kwargs: seq<(string, string)>, used: set<string>, names: map<string, string>)

  const EMPTY := Draft([], [], {}, map[])

  predicate MatchesOne(s: Slot, it: Item, names: map<string, string>) {
    match s
    case Words(text) => it == Lit(text)
    case Hole(expr) => expr in names && it == Ref(names[expr])
  }

  /** Every stretch of text is kept; every hole refers to the name of its text. */
  ghost predicate Matches(slots: seq<Slot>, items: seq<Item>, names: map<string, string>) {
    |items| == |slots| && forall i :: 0 <= i < |slots| ==> MatchesOne(slots[i], items[i], names)
  }

  /** The arguments bind exactly the recorded texts, each name once. */
  ghost predicate Binds(names: map<string, string>, kwargs: seq<(string, string)>) {
    && (forall k :: 0 <= k < |kwargs| ==> kwargs[k].1 in names && names[kwargs[k].1] == kwargs[k].0)
    && (forall k :: 0 <= k < |kwargs| ==> IsName(kwargs[k].0))
    && (forall t :: t in names ==> (names[t], t) in kwargs)
    && (forall j, k :: 0 <= j < k < |kwargs| ==> kwargs[j].0 != kwargs[k].0)
  }

  /** The names of the draft are in use and fit together. */
  ghost predicate Named(slots: seq<Slot>, d: Draft) {
    && Matches(slots, d.items, d.names) && Binds(d.names, d.kwargs)
    && forall k :: 0 <= k < |d.kwargs| ==> d.kwargs[k].0 in d.used
  }

  /** Moreover only texts of holes have names. */
  ghost predicate Ok(slots: seq<Slot>, d: Draft) {
    Named(slots, d) && forall t :: t in d.names ==> Hole(t) in slots
  }

  lemma BindsSnoc(names: map<string, string>, kwargs: seq<(string, string)>, used: set<string>, name: string,
                  text: string)
    requires Binds(names, kwargs) && text !in names && name !in used && IsName(name)
    requires forall k :: 0 <= k < |kwargs| ==> kwargs[k].0 in used
    ensures Binds(names[text := name], kwargs + [(name, text)])
  {
    var more := kwargs + [(name, text)];
    assert more[|kwargs|] == (name, text);
    assert forall k :: 0 <= k < |kwargs| ==> more[k] == kwargs[k];
    forall t | t in names ensures (names[t], t) in more { assert (names[t], t) in kwargs; }
  }

  lemma MatchesGrow(slots: seq<Slot>, items: seq<Item>, names: map<string, string>, names': map<string, string>)
    requires Matches(slots, items, names) && forall t :: t in names ==> t in names' && names'[t] == names[t]
    ensures Matches(slots, items, names')
  {
  }

  lemma MatchesSnoc(slots: seq<Slot>, items: seq<Item>, names: map<string, string>, s: Slot, it: Item)
    requires Matches(slots, items, names) && MatchesOne(s, it, names)
    ensures Matches(slots + [s], items + [it], names)
  {
  }

  ghost function NamesOf(kwargs: seq<(string, string)>): set<string> { set k | 0 <= k < |kwargs| :: kwargs[k].0 }

  /** The text has its name from the part that it is first read from, given the names before it. */
  ghost predicate IsNamed<P(!new)>(parts: seq<P>, read: P -> Option<Slot>, base: P -> string,
                                   kwargs: seq<(string, string)>, k: nat)
  {
    && k < |kwargs|
    && exists i: nat :: i < |parts| && read(parts[i]) == Some(Hole(kwargs[k].1))
                        && (forall j :: 0 <= j < i ==> read(parts[j]) != read(parts[i]))
                        && IsFirstFree(base(parts[i]), NamesOf(kwargs[..k]), kwargs[k].0)
  }

  ghost predicate AllNamed<P(!new)>(parts: seq<P>, read: P -> Option<Slot>, base: P -> string,
                                    kwargs: seq<(string, string)>)
  {
    forall k: nat :: k < |kwargs| ==> IsNamed(parts, read, base, kwargs, k)
  }

  /** Another part that is no new hole. */
  lemma NamedStays<P(!new)>(parts: seq<P>, p: P, read: P -> Option<Slot>, base: P -> string,
                            kwargs: seq<(string, string)>)
    requires AllNamed(parts, read, base, kwargs)
    ensures AllNamed(parts + [p], read, base, kwargs)
  {
    var more := parts + [p];
    assert forall i :: 0 <= i < |parts| ==> more[i] == parts[i];
    forall k: nat | k < |kwargs| ensures IsNamed(more, read, base, kwargs, k) {
      assert IsNamed(parts, read, base, kwargs, k);
    }
  }

  /** Another part with a new hole. */
  lemma NamedSnoc<P(!new)>(parts: seq<P>, p: P, read: P -> Option<Slot>, base: P -> string,
                           kwargs: seq<(string, string)>, name: string, text: string)
    requires AllNamed(parts, read, base, kwargs) && read(p) == Some(Hole(text))
    requires (forall j :: 0 <= j < |parts| ==> read(parts[j]) != read(p)) && IsFirstFree(base(p), NamesOf(kwargs), name)
    ensures AllNamed(parts + [p], read, base, kwargs + [(name, text)])
  {
    var more, args := parts + [p], kwargs + [(name, text)];
    assert forall i :: 0 <= i < |parts| ==> more[i] == parts[i];
    forall k: nat | k < |args| ensures IsNamed(more, read, base, args, k) {
      if k < |kwargs| {
        assert IsNamed(parts, read, base, kwargs, k) && args[..k] == kwargs[..k];
      } else {
        assert args[..k] == kwargs && more[|parts|] == p;
      }
    }
  }

  /** A text that has a name keeps it and nothing changes; a new text gets a name not in use, and no other name
      changes. */
  method NameFor(d: Draft, expr: string, base: string, ghost slots: seq<Slot>) returns (d': Draft)
    requires Named(slots, d) && IsName(base)
    ensures Named(slots, d') && expr in d'.names && d'.items == d.items
    ensures expr in d.names ==> d' == d
    ensures expr !in d.names ==> d'.names == d.names[expr := d'.names[expr]] && d'.names[expr] !in d.used
    ensures expr !in d.names ==> d'.kwargs == d.kwargs + [(d'.names[expr], expr)]
    ensures expr !in d.names ==> d'.used == d.used + {d'.names[expr]} && IsFirstFree(base, d.used, d'.names[expr])
  {
    d' := d;
    if expr !in d.names {
      var name := FreshName(base, d.used);
      BindsSnoc(d.names, d.kwargs, d.used, name, expr);
      MatchesGrow(slots, d.items, d.names, d.names[expr := name]);
      d' := d.(used := d.used + {name}, names := d.names[expr := name], kwargs := d.kwargs + [(name, expr)]);
    }
  }

  /** A new hole has got the first free name of its series; otherwise the names are as before. */
  ghost predicate SlotAdded(d: Draft, s: Slot, base: string, d': Draft) {
    && d'.names.Keys == d.names.Keys + (if s.Hole? then {s.expr} else {})
    && if s.Words? || s.expr in d.names then d'.kwargs == d.kwargs && d'.used == d.used
       else exists name :: IsFirstFree(base, d.used, name) && d'.kwargs == d.kwargs + [(name, s.expr)]
                           && d'.used == d.used + {name}
  }

  /** One round of the loop. */
  method AddSlot(d: Draft, s: Slot, base: string, ghost slots: seq<Slot>) returns (d': Draft)
    requires Ok(slots, d) && IsName(base)
    ensures Ok(slots + [s], d') && SlotAdded(d, s, base, d')
  {
    if s.Words? {
      MatchesSnoc(slots, d.items, d.names, s, Lit(s.text));
      d' := d.(items := d.items + [Lit(s.text)]);
    } else {
      var e := NameFor(d, s.expr, base, slots);
      MatchesSnoc(slots, e.items, e.names, s, Ref(e.names[s.expr]));
      d' := e.(items := e.items + [Ref(e.names[s.expr])]);
    }
    HolesGrow(slots, s, d.names, d'.names);
  }

  lemma HolesGrow(slots: seq<Slot>, s: Slot, names: map<string, string>, names': map<string, string>)
    requires forall t :: t in names ==> Hole(t) in slots
    requires forall t :: t in names' ==> t in names || s == Hole(t)
    ensures forall t :: t in names' ==> Hole(t) in slots + [s]
  {
  }

  ghost predicate AllRead<P>(parts: seq<P>, read: P -> Option<Slot>) {
    forall i :: 0 <= i < |parts| ==> read(parts[i]).Some?
  }

  ghost function SlotsOf<P>(parts: seq<P>, read: P -> Option<Slot>): seq<Slot>
    requires AllRead(parts, read)
  {
    seq(|parts|, i requires 0 <= i < |parts| => read(parts[i]).value)
  }

  /** Every part can be read and the draft names their holes consistently. */
  ghost predicate Drafts<P>(parts: seq<P>, read: P -> Option<Slot>, d: Draft) {
    AllRead(parts, read) && Ok(SlotsOf(parts, read), d)
  }

  lemma DraftsTail<P>(parts: seq<P>, read: P -> Option<Slot>, items: seq<Item>, names: map<string, string>)
    requires parts != [] && AllRead(parts, read) && Matches(SlotsOf(parts, read), items, names)
    ensures MatchesOne(read(parts[0]).value, items[0], names)
    ensures AllRead(parts[1..], read) && Matches(SlotsOf(parts[1..], read), items[1..], names)
  {
    var slots := SlotsOf(parts, read);
    assert slots[0] == read(parts[0]).value;
    assert SlotsOf(parts[1..], read) == slots[1..];
  }

  predicate HoleIn<P(!new)>(parts: seq<P>, read: P -> Option<Slot>, t: string) {
    exists j :: 0 <= j < |parts| && read(parts[j]) == Some(Hole(t))
  }

  lemma HoleInSnoc<P(!new)>(parts: seq<P>, p: P, read: P -> Option<Slot>, t: string)
    ensures HoleIn(parts + [p], read, t) <==> HoleIn(parts, read, t) || read(p) == Some(Hole(t))
  {
    var more := parts + [p];
    assert more[|parts|] == p && forall j :: 0 <= j < |parts| ==> more[j] == parts[j];
  }

  /** The texts with names are those of the holes, the names in use are theirs, and they were given in order. */
  ghost predicate InOrder<P(!new)>(parts: seq<P>, read: P -> Option<Slot>, base: P -> string, d: Draft) {
    && (forall t :: t in d.names <==> HoleIn(parts, read, t))
    && d.used == NamesOf(d.kwargs) && AllNamed(parts, read, base, d.kwargs)
  }

  lemma InOrderSnoc<P(!new)>(parts: seq<P>, p: P, read: P -> Option<Slot>, base: P -> string, d: Draft, d': Draft)
    requires InOrder(parts, read, base, d) && read(p).Some? && SlotAdded(d, read(p).value, base(p), d')
    ensures InOrder(parts + [p], read, base, d')
  {
    var s := read(p).value;
    forall t ensures t in d'.names <==> HoleIn(parts + [p], read, t) { HoleInSnoc(parts, p, read, t); }
    if s.Words? || s.expr in d.names {
      NamedStays(parts, p, read, base, d.kwargs);
    } else {
      var name :| IsFirstFree(base(p), d.used, name) && d'.kwargs == d.kwargs + [(name, s.expr)]
        && d'.used == d.used + {name};
      assert !HoleIn(parts, read, s.expr);
      NamedSnoc(parts, p, read, base, d.kwargs, name, s.expr);
      NamesSnoc(d.kwargs, name, s.expr);
    }
  }

  lemma NamesSnoc(kwargs: seq<(string, string)>, name: string, text: string)
    ensures NamesOf(kwargs + [(name, text)]) == NamesOf(kwargs) + {name}
  {
    var more := kwargs + [(name, text)];
    assert more[|kwargs|] == (name, text) && forall k :: 0 <= k < |kwargs| ==> more[k] == kwargs[k];
  }

  /** The loop over the parts: `read` says what a part contributes, or that the rewriting gives up; `base` is the name
      to try first for a part. */
  method DraftFor<P(!new)>(parts: seq<P>, read: P -> Option<Slot>, base: P -> string) returns (r: Option<Draft>)
    requires forall p :: IsName(base(p))
    ensures r.Some? <==> AllRead(parts, read)
    ensures r.Some? ==> Drafts(parts, read, r.value) && AllNamed(parts, read, base, r.value.kwargs)
  {
    var d := EMPTY;
    ghost var slots: seq<Slot> := [];
    NothingNamed(read, base);
    assert parts[..0] == [];
    for i := 0 to |parts|
      invariant SlotsUpTo(parts, read, i, slots) && Ok(slots, d) && InOrder(parts[..i], read, base, d)
    {
      var s := read(parts[i]);
      if s.None? { return None; }
      ghost var was := d;
      d := AddSlot(d, s.value, base(parts[i]), slots);
      slots := slots + [s.value];
      InOrderSnoc(parts[..i], parts[i], read, base, was, d);
      assert parts[..i + 1] == parts[..i] + [parts[i]];
    }
    assert slots == SlotsOf(parts, read) && parts[..|parts|] == parts;
    r := Some(d);
  }

  /** The first i parts can be read, as these. */
  ghost predicate SlotsUpTo<P>(parts: seq<P>, read: P -> Option<Slot>, i: nat, slots: seq<Slot>) {
    i <= |parts| && |slots| == i && forall j :: 0 <= j < i ==> read(parts[j]) == Some(slots[j])
  }

  lemma NothingNamed<P(!new)>(read: P -> Option<Slot>, base: P -> string)
    ensures InOrder([], read, base, EMPTY)
  {
  }
}

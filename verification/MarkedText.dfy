/** Marked strings of app/i18n_text.py: `translate_marked`, which replaces them for JSON output, and the
    depth-limited check `_has_lstr` in front of it. */
module MarkedText {

  /** A dictionary key: LStr or an ordinary key. Both compare by their text. */
  datatype Key = MarkedKey(text: string) | PlainKey(text: string)

  datatype Item = Item(key: Key, value: Value)

  /** JSON-like data. Dictionaries keep insertion order; Marked is an LStr, Plain any other leaf. */
  datatype Value =
    | Marked(text: string)
    | Plain(text: string)
    | Dict(items: seq<Item>)
    | List(elems: seq<Value>)
    | Tuple(elems: seq<Value>)

  /** The values directly below; dictionary keys are not among them. */
  function Kids(v: Value): (r: seq<Value>)
    ensures forall i :: 0 <= i < |r| ==> r[i] < v
  {
    match v
    case Dict(items) => seq(|items|, i requires 0 <= i < |items| => items[i].value)
    case List(es) => es
    case Tuple(es) => es
    case _ => []
  }

  /** `_has_lstr`. */
  predicate HasLstr(v: Value, depth: nat)
    decreases v
  {
    v.Marked? || (depth <= 50 && exists i :: 0 <= i < |Kids(v)| && HasLstr(Kids(v)[i], depth + 1))
  }

  /** A marked string occurs as a value exactly n levels down. */
  predicate OccursAt(v: Value, n: nat)
    decreases n
  {
    if n == 0 then v.Marked? else exists i :: 0 <= i < |Kids(v)| && OccursAt(Kids(v)[i], n - 1)
  }

  lemma {:induction false} HasLstrExactly(v: Value, depth: nat)
    requires depth <= 51
    ensures HasLstr(v, depth) <==> exists n: nat :: n + depth <= 51 && OccursAt(v, n)
    decreases v
  {
    if v.Marked? {
      assert OccursAt(v, 0);
    } else if depth <= 50 {
      forall i | 0 <= i < |Kids(v)|
        ensures HasLstr(Kids(v)[i], depth + 1) <==> exists n: nat :: n + depth + 1 <= 51 && OccursAt(Kids(v)[i], n)
      {
        HasLstrExactly(Kids(v)[i], depth + 1);
      }
      if HasLstr(v, depth) {
        var i :| 0 <= i < |Kids(v)| && HasLstr(Kids(v)[i], depth + 1);
        var n: nat :| n + depth + 1 <= 51 && OccursAt(Kids(v)[i], n);
        assert OccursAt(v, n + 1);
      }
      if n: nat :| n + depth <= 51 && OccursAt(v, n) {
        var i :| 0 <= i < |Kids(v)| && OccursAt(Kids(v)[i], n - 1);
      }
    }
  }

  /** The check finds a marked string exactly when one occurs as a value at nesting depth at most 51. */
  lemma CheckReachesDepth51(v: Value)
    ensures HasLstr(v, 0) <==> exists n: nat :: n <= 51 && OccursAt(v, n)
  {
    HasLstrExactly(v, 0);
  }

  // ------------------------------------------------------------------ translation

  type Catalog = string -> string

  function TranslateKey(k: Key, t: Catalog): Key {
    if k.MarkedKey? then PlainKey(t(k.text)) else k
  }

  /** Assignment into an insertion-ordered dictionary: an equal key keeps its place and gets the new value. */
  function Put(items: seq<Item>, item: Item): seq<Item> {
    if i :| 0 <= i < |items| && items[i].key.text == item.key.text
            && forall j :: 0 <= j < i ==> items[j].key.text != item.key.text
    then items[i := Item(items[i].key, item.value)]
    else items + [item]
  }

  /** A dictionary comprehension over these pairs. */
  function PutAll(pairs: seq<Item>): seq<Item> {
    if pairs == [] then [] else Put(PutAll(pairs[..|pairs| - 1]), pairs[|pairs| - 1])
  }

  /** `translate_marked` below its fast check. */
  function Translate(v: Value, t: Catalog): Value
    decreases v
  {
    match v
    case Marked(s) => Plain(t(s))
    case Plain(_) => v
    case Dict(items) =>
      Dict(PutAll(seq(|items|, i requires 0 <= i < |items| =>
                                 Item(TranslateKey(items[i].key, t), Translate(items[i].value, t)))))
    case List(es) => List(seq(|es|, i requires 0 <= i < |es| => Translate(es[i], t)))
    case Tuple(es) => Tuple(seq(|es|, i requires 0 <= i < |es| => Translate(es[i], t)))
  }

  /** `translate_marked(obj)`: None stands for no translations being available. */
  function TranslateMarked(v: Value, active: bool, t: Catalog): Value {
    if HasLstr(v, 0) && active then Translate(v, t) else v
  }

  lemma {:induction false} PutAllValues(pairs: seq<Item>, i: nat)
    requires i < |PutAll(pairs)|
    ensures exists j :: 0 <= j < |pairs| && PutAll(pairs)[i].value == pairs[j].value
  {
    var front, last := pairs[..|pairs| - 1], pairs[|pairs| - 1];
    if PutAll(pairs)[i].value != last.value {
      PutAllValues(front, i);
      var j :| 0 <= j < |front| && PutAll(front)[i].value == front[j].value;
      assert pairs[j] == front[j];
    }
  }

  /** Everything inside a translation is the translation of something inside the original. */
  lemma KidOfTranslation(v: Value, t: Catalog, i: nat) returns (kid: Value)
    requires i < |Kids(Translate(v, t))|
    ensures kid in Kids(v) && Kids(Translate(v, t))[i] == Translate(kid, t)
  {
    if v.Dict? {
      var pairs := seq(|v.items|, i requires 0 <= i < |v.items| =>
                         Item(TranslateKey(v.items[i].key, t), Translate(v.items[i].value, t)));
      PutAllValues(pairs, i);
      var j :| 0 <= j < |pairs| && PutAll(pairs)[i].value == pairs[j].value;
      kid := v.items[j].value;
      assert Kids(v)[j] == kid;
    } else {
      kid := Kids(v)[i];
    }
  }

  /** Translation leaves no marked value at any depth. */
  lemma {:induction false} NothingStaysMarked(v: Value, t: Catalog, n: nat)
    ensures !OccursAt(Translate(v, t), n)
    decreases n
  {
    if n > 0 {
      forall i | 0 <= i < |Kids(Translate(v, t))| ensures !OccursAt(Kids(Translate(v, t))[i], n - 1) {
        var kid := KidOfTranslation(v, t, i);
        NothingStaysMarked(kid, t, n - 1);
      }
    }
  }

  ghost predicate Unmarked(v: Value) {
    forall n: nat :: !OccursAt(v, n)
  }

  /** With no translation available, or no marked value within the reach of the check, the value comes back as it was;
      otherwise all of it is translated. */
  lemma TranslatedIff(v: Value, active: bool, t: Catalog)
    ensures TranslateMarked(v, active, t)
            == if active && exists n: nat :: n <= 51 && OccursAt(v, n) then Translate(v, t) else v
  {
    CheckReachesDepth51(v);
  }

  /** The output is free of marked values if and only if there were none, or a translation is available and one of them
      lies within the reach of the check. */
  lemma OutputUnmarkedIff(v: Value, active: bool, t: Catalog)
    ensures Unmarked(TranslateMarked(v, active, t))
            <==> Unmarked(v) || (active && exists n: nat :: n <= 51 && OccursAt(v, n))
  {
    TranslatedIff(v, active, t);
    if active && HasLstr(v, 0) {
      forall n: nat ensures !OccursAt(TranslateMarked(v, active, t), n) { NothingStaysMarked(v, t, n); }
    }
    CheckReachesDepth51(v);
  }

  /** The check does not look at keys: when only keys are marked, nothing is translated. */
  lemma MarkedKeysAloneAreMissed(key: string, text: string, active: bool, t: Catalog)
    ensures var v := Dict([Item(MarkedKey(key), Plain(text))]); TranslateMarked(v, active, t) == v
  {
    var v := Dict([Item(MarkedKey(key), Plain(text))]);
    assert Kids(v) == [Plain(text)];
    assert !HasLstr(Plain(text), 1);
  }

  function Nested(n: nat, s: string): Value {
    if n == 0 then Marked(s) else List([Nested(n - 1, s)])
  }

  lemma {:induction false} NestedOccurs(n: nat, m: nat, s: string)
    ensures OccursAt(Nested(n, s), m) <==> m == n
  {
    if n > 0 && m > 0 {
      NestedOccurs(n - 1, m - 1, s);
      assert Kids(Nested(n, s)) == [Nested(n - 1, s)];
      assert Kids(Nested(n, s))[0] == Nested(n - 1, s);
    }
  }

  /** A marked string more than 51 lists down is passed on untranslated. */
  lemma DeepMarksAreMissed(depth: nat, s: string, t: Catalog)
    requires depth > 51
    ensures TranslateMarked(Nested(depth, s), true, t) == Nested(depth, s) && OccursAt(Nested(depth, s), depth)
  {
    NestedOccurs(depth, depth, s);
    CheckReachesDepth51(Nested(depth, s));
    forall n: nat | n <= 51 ensures !OccursAt(Nested(depth, s), n) { NestedOccurs(depth, n, s); }
  }

  // ------------------------------------------------------------------ shape

  /** No two keys of any dictionary inside have the same text after translation. */
  predicate KeysStayDistinct(v: Value, t: Catalog)
    decreases v
  {
    && (v.Dict? ==> forall i, j :: 0 <= i < j < |v.items| ==>
                                   TranslateKey(v.items[i].key, t).text != TranslateKey(v.items[j].key, t).text)
    && forall i :: 0 <= i < |Kids(v)| ==> KeysStayDistinct(Kids(v)[i], t)
  }

  /** Same constructors, same sizes, plain keys and plain leaves unchanged, marked ones replaced. */
  predicate SameShape(v: Value, w: Value, t: Catalog)
    decreases v
  {
    && (match v
        case Marked(s) => w == Plain(t(s))
        case Plain(_) => w == v
        case Dict(items) => w.Dict? && |w.items| == |items|
          && forall i :: 0 <= i < |items| ==> w.items[i].key == TranslateKey(items[i].key, t)
        case List(_) => w.List?
        case Tuple(_) => w.Tuple?)
    && |Kids(v)| == |Kids(w)|
    && forall i :: 0 <= i < |Kids(v)| ==> SameShape(Kids(v)[i], Kids(w)[i], t)
  }

  lemma {:induction false} PutAllDistinct(pairs: seq<Item>)
    requires forall i, j :: 0 <= i < j < |pairs| ==> pairs[i].key.text != pairs[j].key.text
    ensures PutAll(pairs) == pairs
  {
    if pairs != [] {
      PutAllDistinct(pairs[..|pairs| - 1]);
      assert pairs == pairs[..|pairs| - 1] + [pairs[|pairs| - 1]];
    }
  }

  lemma {:induction false} ShapeIsKept(v: Value, t: Catalog)
    requires KeysStayDistinct(v, t)
    ensures SameShape(v, Translate(v, t), t)
    decreases v
  {
    var w := Translate(v, t);
    if v.Dict? {
      PutAllDistinct(seq(|v.items|, i requires 0 <= i < |v.items| =>
                           Item(TranslateKey(v.items[i].key, t), Translate(v.items[i].value, t))));
    }
    forall i | 0 <= i < |Kids(v)| ensures SameShape(Kids(v)[i], Kids(w)[i], t) {
      ShapeIsKept(Kids(v)[i], t);
    }
  }

  lemma {:induction false} PutAllFullLength(pairs: seq<Item>)
    ensures |PutAll(pairs)| <= |pairs|
    ensures |PutAll(pairs)| == |pairs| ==> PutAll(pairs) == pairs
    ensures |PutAll(pairs)| == |pairs| ==>
              forall i, j :: 0 <= i < j < |pairs| ==> pairs[i].key.text != pairs[j].key.text
  {
    if pairs != [] {
      PutAllFullLength(pairs[..|pairs| - 1]);
      assert pairs == pairs[..|pairs| - 1] + [pairs[|pairs| - 1]];
    }
  }

  /** The converse: the shape is kept only if no two keys of a dictionary come together. */
  lemma {:induction false} ShapeNeedsDistinctKeys(v: Value, t: Catalog)
    requires SameShape(v, Translate(v, t), t)
    ensures KeysStayDistinct(v, t)
    decreases v
  {
    var w := Translate(v, t);
    if v.Dict? {
      var pairs := seq(|v.items|, i requires 0 <= i < |v.items| =>
                         Item(TranslateKey(v.items[i].key, t), Translate(v.items[i].value, t)));
      PutAllFullLength(pairs);
      assert forall i :: 0 <= i < |pairs| ==> pairs[i].key == TranslateKey(v.items[i].key, t);
    }
    forall i | 0 <= i < |Kids(v)| ensures KeysStayDistinct(Kids(v)[i], t) {
      assert Kids(w)[i] == Translate(Kids(v)[i], t);
      ShapeNeedsDistinctKeys(Kids(v)[i], t);
    }
  }

  /** Without distinct translations two entries collapse into one. */
  lemma CollidingKeysLoseAnEntry(a: string, b: string, x: Value, y: Value, t: Catalog)
    requires a != b && t(a) == t(b)
    ensures Translate(Dict([Item(MarkedKey(a), x), Item(MarkedKey(b), y)]), t)
            == Dict([Item(PlainKey(t(a)), Translate(y, t))])
  {
    var items := [Item(MarkedKey(a), x), Item(MarkedKey(b), y)];
    var pairs := seq(2, i requires 0 <= i < 2 => Item(TranslateKey(items[i].key, t), Translate(items[i].value, t)));
    assert pairs == [Item(PlainKey(t(a)), Translate(x, t)), Item(PlainKey(t(b)), Translate(y, t))];
    assert pairs[..1] == [pairs[0]] && pairs[..1][..0] == [];
    assert PutAll(pairs[..1]) == [pairs[0]];
  }
}

/** The tables of class `PoFile` (tools/i18n_master.py) without the text: entries as loaded, replaced entries, appended
    entries, and what looking up a key gives. Generic in the type of entries, so that only the laws about them count. */
module EntryStore {
  import opened Text
  import opened Paragraphs

  /** The key and the value of an entry, an entry with another value, and whether it is well formed. */
  datatype Format<!B, !K, !V> = Format(key: B -> Option<K>, value: B -> Option<V>, with: (B, V) -> B, ok: B -> bool)

  /** Another value is read back, and the key stays. */
  ghost predicate Lawful<B(!new), K, V(!new)>(f: Format<B, K, V>) {
    forall b, v :: f.ok(b) ==> f.ok(f.with(b, v)) && f.key(f.with(b, v)) == f.key(b) && f.value(f.with(b, v)) == Some(v)
  }

  datatype Store<B, K> = Store(loaded: seq<B>, replaced: map<nat, B>, appended: seq<B>, appIndex: map<K, nat>)

  function Loaded<B, K>(loaded: seq<B>): Store<B, K> { Store(loaded, map[], [], map[]) }

  /** The tables point into the lists. */
  ghost predicate Sane<B, K(!new)>(st: Store<B, K>) {
    (forall k :: k in st.appIndex ==> st.appIndex[k] < |st.appended|)
      && (forall i :: i in st.replaced ==> i < |st.loaded|)
  }

  /** `_block`. */
  function Find<B, K(!new), V>(f: Format<B, K, V>, st: Store<B, K>, key: K): Option<B>
    requires Sane(st)
  {
    if key in st.appIndex then Some(st.appended[st.appIndex[key]])
    else
      var i := LastWith(f.key, st.loaded, key);
      if i.None? then None else if i.value in st.replaced then Some(st.replaced[i.value]) else Some(st.loaded[i.value])
  }

  /** `get`. */
  function Get<B, K(!new), V>(f: Format<B, K, V>, st: Store<B, K>, key: K): Option<V>
    requires Sane(st)
  {
    var b := Find(f, st, key);
    if b.None? then None else f.value(b.value)
  }

  /** `set`; `entry` is the entry appended for a key that is not there yet. */
  function Set<B, K(!new), V>(f: Format<B, K, V>, st: Store<B, K>, key: K, v: V, entry: B): (r: Store<B, K>)
    requires Sane(st)
    ensures Sane(r) && r.loaded == st.loaded
  {
    if key in st.appIndex then
      var i := st.appIndex[key];
      st.(appended := st.appended[i := f.with(st.appended[i], v)])
    else
      var i := LastWith(f.key, st.loaded, key);
      if i.Some? then
        var b := if i.value in st.replaced then st.replaced[i.value] else st.loaded[i.value];
        st.(replaced := st.replaced[i.value := f.with(b, v)])
      else st.(appended := st.appended + [entry], appIndex := st.appIndex[key := |st.appended|])
  }

  /** For a loaded key, `set` replaces the entry that `_block` finds. */
  lemma SetLoaded<B, K(!new), V>(f: Format<B, K, V>, st: Store<B, K>, key: K, v: V, entry: B, i: nat)
    requires Sane(st) && key !in st.appIndex && LastWith(f.key, st.loaded, key) == Some(i)
    ensures Find(f, st, key).Some?
    ensures Set(f, st, key, v, entry) == st.(replaced := st.replaced[i := f.with(Find(f, st, key).value, v)])
  {
  }

  // ------------------------------------------------------------------ what holds in every run

  ghost predicate Good<B(!new), K(!new), V(!new)>(f: Format<B, K, V>, st: Store<B, K>) {
    && Sane(st)
    && (forall i :: 0 <= i < |st.loaded| ==> f.ok(st.loaded[i]))
    && (forall i :: i in st.replaced ==> f.ok(st.replaced[i]) && f.key(st.replaced[i]) == f.key(st.loaded[i]))
    && (forall i :: 0 <= i < |st.appended| ==> f.ok(st.appended[i]) && IsAppended(f, st, i))
    && (forall k :: k in st.appIndex ==> f.key(st.appended[st.appIndex[k]]) == Some(k))
  }

  /** An appended entry is listed under its key, and no loaded entry has that key. */
  ghost predicate IsAppended<B(!new), K(!new), V(!new)>(f: Format<B, K, V>, st: Store<B, K>, i: int)
    requires 0 <= i < |st.appended|
  {
    var k := f.key(st.appended[i]);
    k.Some? && k.value in st.appIndex && st.appIndex[k.value] == i && LastWith(f.key, st.loaded, k.value).None?
  }

  ghost predicate Fits<B, K, V>(f: Format<B, K, V>, key: K, v: V, entry: B) {
    f.ok(entry) && f.key(entry) == Some(key) && f.value(entry) == Some(v)
  }

  lemma LoadedIsGood<B(!new), K(!new), V(!new)>(f: Format<B, K, V>, loaded: seq<B>)
    requires forall i :: 0 <= i < |loaded| ==> f.ok(loaded[i])
    ensures Good(f, Loaded(loaded))
  {
  }

  lemma SetIsGood<B(!new), K(!new), V(!new)>(f: Format<B, K, V>, st: Store<B, K>, key: K, v: V, entry: B)
    requires Lawful(f) && Good(f, st) && Fits(f, key, v, entry)
    ensures Good(f, Set(f, st, key, v, entry))
  {
    var r := Set(f, st, key, v, entry);
    forall i | 0 <= i < |r.appended| ensures f.ok(r.appended[i]) && IsAppended(f, r, i) {
      if i < |st.appended| { assert IsAppended(f, st, i); }
    }
  }

  /** The value that was set is read back, and every other key keeps its value. */
  lemma SetThenGet<B(!new), K(!new), V(!new)>(f: Format<B, K, V>, st: Store<B, K>, key: K, v: V, entry: B, other: K)
    requires Lawful(f) && Good(f, st) && Fits(f, key, v, entry)
    ensures Get(f, Set(f, st, key, v, entry), other) == if other == key then Some(v) else Get(f, st, other)
  {
  }

  // ------------------------------------------------------------------ the tables and the list of entries

  ghost function NowLoaded<B, K>(st: Store<B, K>): seq<B> {
    seq(|st.loaded|, i requires 0 <= i < |st.loaded| => if i in st.replaced then st.replaced[i] else st.loaded[i])
  }

  /** The entries as they stand, in the order in which they are saved. */
  ghost function Entries<B, K>(st: Store<B, K>): seq<B> { NowLoaded(st) + st.appended }

  /** Looking a key up in the tables is finding the last entry with that key. */
  lemma FindIsLast<B(!new), K(!new), V(!new)>(f: Format<B, K, V>, st: Store<B, K>, key: K)
    requires Good(f, st)
    ensures var i := LastWith(f.key, Entries(st), key);
            Find(f, st, key) == if i.None? then None else Some(Entries(st)[i.value])
  {
    var es := Entries(st);
    var n := |st.loaded|;
    assert forall i :: 0 <= i < n ==> es[i] == NowLoaded(st)[i] && f.key(es[i]) == f.key(st.loaded[i]);
    assert forall i :: n <= i < |es| ==> es[i] == st.appended[i - n];
    if key in st.appIndex {
      FindAppended(f, st, key, es);
    } else {
      forall j | n <= j < |es| ensures f.key(es[j]) != Some(key) { assert IsAppended(f, st, j - n); }
      var i := LastWith(f.key, st.loaded, key);
      if i.Some? { LastWithIs(f.key, es, key, i.value); }
    }
  }

  lemma FindAppended<B(!new), K(!new), V(!new)>(f: Format<B, K, V>, st: Store<B, K>, key: K, es: seq<B>)
    requires Good(f, st) && key in st.appIndex && |es| == |st.loaded| + |st.appended|
    requires forall i :: |st.loaded| <= i < |es| ==> es[i] == st.appended[i - |st.loaded|]
    ensures st.appIndex[key] < |st.appended| && LastWith(f.key, es, key) == Some(|st.loaded| + st.appIndex[key])
  {
    var n, a := |st.loaded|, st.appIndex[key];
    forall j | n + a < j < |es| ensures f.key(es[j]) != Some(key) { assert IsAppended(f, st, j - n); }
    LastWithIs(f.key, es, key, n + a);
  }

  /** Loading the saved entries gives the same answers. */
  lemma ReloadKeepsAnswers<B(!new), K(!new), V(!new)>(f: Format<B, K, V>, st: Store<B, K>, key: K)
    requires Good(f, st)
    ensures Get(f, Loaded(Entries(st)), key) == Get(f, st, key)
  {
    FindIsLast(f, st, key);
  }

  // ------------------------------------------------------------------ runs of set

  datatype Op<B, K, V> = Op(key: K, value: V, entry: B)

  function SetAll<B, K(!new), V>(f: Format<B, K, V>, st: Store<B, K>, ops: seq<Op<B, K, V>>): (r: Store<B, K>)
    requires Sane(st)
    ensures Sane(r) && r.loaded == st.loaded
    decreases |ops|
  {
    if ops == [] then st else SetAll(f, Set(f, st, ops[0].key, ops[0].value, ops[0].entry), ops[1..])
  }

  /** The value of the last operation on a key, or what was there before. */
  function LastSet<B, K(==), V>(ops: seq<Op<B, K, V>>, key: K, before: Option<V>): Option<V>
    decreases |ops|
  {
    if ops == [] then before else LastSet(ops[1..], key, if ops[0].key == key then Some(ops[0].value) else before)
  }

  ghost predicate AllFit<B, K, V>(f: Format<B, K, V>, ops: seq<Op<B, K, V>>) {
    forall i :: 0 <= i < |ops| ==> Fits(f, ops[i].key, ops[i].value, ops[i].entry)
  }

  /** After any sequence of operations: the last value set for a key, and the old value for every other key. */
  lemma {:induction false} RunsAnswer<B(!new), K(!new), V(!new)>(f: Format<B, K, V>, st: Store<B, K>,
                                                                 ops: seq<Op<B, K, V>>, key: K)
    requires Lawful(f) && Good(f, st) && AllFit(f, ops)
    ensures Good(f, SetAll(f, st, ops)) && Get(f, SetAll(f, st, ops), key) == LastSet(ops, key, Get(f, st, key))
    decreases |ops|
  {
    if ops != [] {
      var o := ops[0];
      SetIsGood(f, st, o.key, o.value, o.entry);
      SetThenGet(f, st, o.key, o.value, o.entry, key);
      RunsAnswer(f, Set(f, st, o.key, o.value, o.entry), ops[1..], key);
    }
  }

  // ------------------------------------------------------------------ what another value does not touch

  /** A view of entries that another value does not change. */
  ghost predicate Kept<B(!new), K(!new), V(!new), C(!new)>(f: Format<B, K, V>, view: B -> C) {
    forall b, v :: f.ok(b) ==> view(f.with(b, v)) == view(b)
  }

  /** The view of the entry that a key has. */
  ghost function ViewOf<B, K(!new), V, C>(f: Format<B, K, V>, view: B -> C, st: Store<B, K>, key: K): Option<C>
    requires Sane(st)
  {
    var b := Find(f, st, key);
    if b.None? then None else Some(view(b.value))
  }

  lemma SetKeepsView<B(!new), K(!new), V(!new), C(!new)>(f: Format<B, K, V>, view: B -> C, st: Store<B, K>, key: K,
                                                         v: V, entry: B, other: K)
    requires Good(f, st) && Kept(f, view) && ViewOf(f, view, st, other).Some?
    ensures ViewOf(f, view, Set(f, st, key, v, entry), other) == ViewOf(f, view, st, other)
  {
  }

  /** In every run each entry that was there keeps the view of it. */
  lemma {:induction false} RunsKeepView<B(!new), K(!new), V(!new), C(!new)>(f: Format<B, K, V>, view: B -> C,
                                                                            st: Store<B, K>, ops: seq<Op<B, K, V>>,
                                                                              key: K)
    requires Lawful(f) && Good(f, st) && AllFit(f, ops) && Kept(f, view) && ViewOf(f, view, st, key).Some?
    ensures ViewOf(f, view, SetAll(f, st, ops), key) == ViewOf(f, view, st, key)
    decreases |ops|
  {
    if ops != [] {
      var o := ops[0];
      SetKeepsView(f, view, st, o.key, o.value, o.entry, key);
      SetIsGood(f, st, o.key, o.value, o.entry);
      RunsKeepView(f, view, Set(f, st, o.key, o.value, o.entry), ops[1..], key);
    }
  }

  // ------------------------------------------------------------------ importing: set only what differs

  /** `cmd_import` for the accepted rows: a value that is there already is left alone. */
  function Import<B, K(!new), V(==)>(f: Format<B, K, V>, st: Store<B, K>, ops: seq<Op<B, K, V>>): (r: Store<B, K>)
    requires Sane(st)
    ensures Sane(r) && r.loaded == st.loaded
    decreases |ops|
  {
    if ops == [] then st
    else if Get(f, st, ops[0].key) == Some(ops[0].value) then Import(f, st, ops[1..])
    else Import(f, Set(f, st, ops[0].key, ops[0].value, ops[0].entry), ops[1..])
  }

  /** Whether it sets anything. */
  predicate Changes<B, K(!new), V(==)>(f: Format<B, K, V>, st: Store<B, K>, ops: seq<Op<B, K, V>>)
    requires Sane(st)
    decreases |ops|
  {
    ops != [] && (Get(f, st, ops[0].key) != Some(ops[0].value) || Changes(f, st, ops[1..]))
  }

  lemma {:induction false} ImportAppend<B, K(!new), V>(f: Format<B, K, V>, st: Store<B, K>, a: seq<Op<B, K, V>>,
                                                       b: seq<Op<B, K, V>>)
    requires Sane(st)
    ensures Import(f, st, a + b) == Import(f, Import(f, st, a), b)
    ensures Changes(f, st, a + b) <==> Changes(f, st, a) || Changes(f, Import(f, st, a), b)
    decreases |a|
  {
    if a == [] {
      assert a + b == b;
    } else {
      assert (a + b)[0] == a[0] && (a + b)[1..] == a[1..] + b;
      if Get(f, st, a[0].key) == Some(a[0].value) {
        ImportAppend(f, st, a[1..], b);
      } else {
        ImportAppend(f, Set(f, st, a[0].key, a[0].value, a[0].entry), a[1..], b);
      }
    }
  }

  lemma {:induction false} ImportAnswers<B(!new), K(!new), V(!new)>(f: Format<B, K, V>, st: Store<B, K>,
                                                                    ops: seq<Op<B, K, V>>, key: K)
    requires Lawful(f) && Good(f, st) && AllFit(f, ops)
    ensures Good(f, Import(f, st, ops)) && Get(f, Import(f, st, ops), key) == LastSet(ops, key, Get(f, st, key))
    decreases |ops|
  {
    if ops != [] {
      var o := ops[0];
      if Get(f, st, o.key) == Some(o.value) {
        ImportAnswers(f, st, ops[1..], key);
      } else {
        SetIsGood(f, st, o.key, o.value, o.entry);
        SetThenGet(f, st, o.key, o.value, o.entry, key);
        ImportAnswers(f, Set(f, st, o.key, o.value, o.entry), ops[1..], key);
      }
    }
  }

  lemma {:induction false} NoChangeNoEffect<B(!new), K(!new), V(!new)>(f: Format<B, K, V>, st: Store<B, K>,
                                                                       ops: seq<Op<B, K, V>>)
    requires Sane(st) && !Changes(f, st, ops)
    ensures Import(f, st, ops) == st
    decreases |ops|
  {
    if ops != [] { NoChangeNoEffect(f, st, ops[1..]); }
  }

  lemma {:induction false} ChangesIff<B(!new), K(!new), V(!new)>(f: Format<B, K, V>, st: Store<B, K>,
                                                                 ops: seq<Op<B, K, V>>)
    requires Sane(st)
    ensures Changes(f, st, ops) <==> exists i :: 0 <= i < |ops| && Get(f, st, ops[i].key) != Some(ops[i].value)
    decreases |ops|
  {
    if ops != [] {
      ChangesIff(f, st, ops[1..]);
      assert ops == [ops[0]] + ops[1..];
      assert forall i :: 0 < i < |ops| ==> ops[i] == ops[1..][i - 1];
    }
  }

  /** A value that was set later than one of this key is the value of some operation on it. */
  lemma {:induction false} LastSetIsSet<B, K, V>(ops: seq<Op<B, K, V>>, key: K, before: Option<V>)
    ensures (LastSet(ops, key, before) == before && forall i :: 0 <= i < |ops| ==> ops[i].key != key)
            || exists i :: 0 <= i < |ops| && ops[i].key == key && LastSet(ops, key, before) == Some(ops[i].value)
    decreases |ops|
  {
    if ops != [] {
      var rest := ops[1..];
      var before' := if ops[0].key == key then Some(ops[0].value) else before;
      LastSetIsSet(rest, key, before');
      assert forall i :: 0 < i < |ops| ==> ops[i] == rest[i - 1];
      if i :| 0 <= i < |rest| && rest[i].key == key && LastSet(rest, key, before') == Some(rest[i].value) {
        assert ops[i + 1] == rest[i];
      }
    }
  }

  /** The last value of a key does not depend on what was there before, if there is an operation on it. */
  lemma {:induction false} LastSetTwice<B, K, V>(ops: seq<Op<B, K, V>>, key: K, before: Option<V>, before': Option<V>)
    requires exists i :: 0 <= i < |ops| && ops[i].key == key
    ensures LastSet(ops, key, before) == LastSet(ops, key, before')
    decreases |ops|
  {
    var rest := ops[1..];
    if ops[0].key != key {
      var i :| 0 <= i < |ops| && ops[i].key == key;
      assert rest[i - 1] == ops[i];
      LastSetTwice(rest, key, before, before');
    }
  }

  /** No key gets two different values. */
  ghost predicate Consistent<B, K, V>(ops: seq<Op<B, K, V>>) {
    forall i, j :: 0 <= i < |ops| && 0 <= j < |ops| && ops[i].key == ops[j].key ==> ops[i].value == ops[j].value
  }

  /** Importing rows into tables that answer as after a first import of them, whatever the answers were `before`, sets
      nothing if and only if no key has two rows with different values. */
  lemma ReimportChangesIff<B(!new), K(!new), V(!new)>(f: Format<B, K, V>, ops: seq<Op<B, K, V>>, again: Store<B, K>,
                                                      before: K -> Option<V>)
    requires Sane(again) && forall key :: Get(f, again, key) == LastSet(ops, key, before(key))
    ensures !Changes(f, again, ops) <==> Consistent(ops)
  {
    ChangesIff(f, again, ops);
    forall i | 0 <= i < |ops| ensures Consistent(ops) ==> Get(f, again, ops[i].key) == Some(ops[i].value) {
      LastSetIsSet(ops, ops[i].key, before(ops[i].key));
    }
  }
}

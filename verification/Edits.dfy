/** Choosing non-overlapping edits and splicing them into a text from right to left: the loop that
    tools/i18n_wrap_code.py has three times (Python, JavaScript and template files). */
module Edits {

  /** Replace the half-open range [start, end) by rep. */
  datatype Edit<T> = Edit(start: nat, end: nat, rep: seq<T>)

  predicate InRange<T>(e: Edit<T>, n: nat) { e.start < e.end <= n }

  predicate AllInRange<T>(es: seq<Edit<T>>, n: nat) {
    forall i :: 0 <= i < |es| ==> InRange(es[i], n)
  }

  predicate Overlap<T>(a: Edit<T>, b: Edit<T>) { a.start < b.end && b.start < a.end }

  predicate Covers<T>(e: Edit<T>, i: int) { e.start <= i < e.end }

  /** Two edits overlap exactly when they replace the same character. */
  lemma OverlapIff<T>(a: Edit<T>, b: Edit<T>, n: nat)
    requires InRange(a, n) && InRange(b, n)
    ensures Overlap(a, b) <==> exists i :: Covers(a, i) && Covers(b, i)
  {
    if Overlap(a, b) {
      var i := if a.start < b.start then b.start else a.start;
      assert Covers(a, i) && Covers(b, i);
    }
  }

  // ------------------------------------------------------------------ sorting

  /** The key (start, -end) of the sort. */
  predicate Before<T>(a: Edit<T>, b: Edit<T>) { a.start < b.start || (a.start == b.start && a.end >= b.end) }

  ghost predicate Sorted<T>(es: seq<Edit<T>>) {
    forall i, j :: 0 <= i < j < |es| ==> Before(es[i], es[j])
  }

  /** Stable: e goes in front of every edit with the same key. */
  function Insert<T>(e: Edit<T>, es: seq<Edit<T>>): seq<Edit<T>> {
    if es == [] then [e] else if Before(e, es[0]) then [e] + es else [es[0]] + Insert(e, es[1..])
  }

  function Sort<T>(es: seq<Edit<T>>): seq<Edit<T>> {
    if es == [] then [] else Insert(es[0], Sort(es[1..]))
  }

  lemma {:induction false} InsertPermutes<T>(e: Edit<T>, es: seq<Edit<T>>)
    ensures multiset(Insert(e, es)) == multiset{e} + multiset(es)
  {
    if es != [] && !Before(e, es[0]) {
      InsertPermutes(e, es[1..]);
      assert es == [es[0]] + es[1..];
    }
  }

  lemma {:induction false} InsertAfter<T>(first: Edit<T>, e: Edit<T>, es: seq<Edit<T>>)
    requires Before(first, e) && forall i :: 0 <= i < |es| ==> Before(first, es[i])
    ensures forall i :: 0 <= i < |Insert(e, es)| ==> Before(first, Insert(e, es)[i])
  {
    if es != [] && !Before(e, es[0]) { InsertAfter(first, e, es[1..]); }
  }

  lemma {:induction false} InsertSorted<T>(e: Edit<T>, es: seq<Edit<T>>)
    requires Sorted(es)
    ensures Sorted(Insert(e, es))
  {
    if es != [] && !Before(e, es[0]) {
      InsertSorted(e, es[1..]);
      InsertAfter(es[0], e, es[1..]);
    }
  }

  lemma {:induction false} SortIsSorted<T>(es: seq<Edit<T>>)
    ensures Sorted(Sort(es)) && multiset(Sort(es)) == multiset(es)
  {
    if es != [] {
      SortIsSorted(es[1..]);
      InsertSorted(es[0], Sort(es[1..]));
      InsertPermutes(es[0], Sort(es[1..]));
      assert es == [es[0]] + es[1..];
    }
  }

  lemma SortKeepsRange<T>(es: seq<Edit<T>>, n: nat)
    requires AllInRange(es, n)
    ensures AllInRange(Sort(es), n)
  {
    SortIsSorted(es);
    forall i | 0 <= i < |Sort(es)| ensures InRange(Sort(es)[i], n) {
      assert Sort(es)[i] in multiset(es);
    }
  }

  // ------------------------------------------------------------------ greedy selection

  ghost predicate Disjoint<T>(es: seq<Edit<T>>) {
    forall i, j :: 0 <= i < j < |es| ==> es[i].end <= es[j].start
  }

  /** k stands in the way of e: it starts earlier, or at the same place and is no shorter. */
  predicate Blocks<T>(k: Edit<T>, e: Edit<T>) {
    Overlap(e, k) && k.start <= e.start && (k.start == e.start ==> k.end >= e.end)
  }

  /** What the selection promises: the kept edits come from the list in order and are pairwise disjoint, and a kept one
      stands in the way of every edit that was not kept. */
  ghost predicate Selects<T>(es: seq<Edit<T>>, kept: seq<Edit<T>>) {
    && Disjoint(kept)
    && (forall e :: e in kept ==> e in es)
    && (forall e :: e in es ==> e in kept || exists k :: k in kept && Blocks(k, e))
  }

  /** What the loop keeps of a sorted list when the last kept edit ends at `last`. */
  function Greedy<T>(es: seq<Edit<T>>, last: int): seq<Edit<T>> {
    if es == [] then []
    else if es[0].start < last then Greedy(es[1..], last)
    else [es[0]] + Greedy(es[1..], es[0].end)
  }

  lemma {:induction false} GreedyIsDisjoint<T>(es: seq<Edit<T>>, last: int, n: nat)
    requires AllInRange(es, n)
    ensures Disjoint(Greedy(es, last)) && AllInRange(Greedy(es, last), n)
    ensures forall i :: 0 <= i < |Greedy(es, last)| ==> last <= Greedy(es, last)[i].start
  {
    if es != [] {
      GreedyIsDisjoint(es[1..], if es[0].start < last then last else es[0].end, n);
    }
  }

  lemma {:induction false} GreedyComesFrom<T>(es: seq<Edit<T>>, last: int, e: Edit<T>)
    requires e in Greedy(es, last)
    ensures e in es
  {
    if es[0].start < last {
      GreedyComesFrom(es[1..], last, e);
    } else if e != es[0] {
      GreedyComesFrom(es[1..], es[0].end, e);
    }
  }

  /** The i-th edit is kept, or overlaps an edit that is, or starts before `last`. */
  lemma {:induction false} GreedyCovers<T>(es: seq<Edit<T>>, last: int, n: nat, i: nat)
    requires Sorted(es) && AllInRange(es, n) && i < |es|
    ensures var g := Greedy(es, last);
            es[i] in g || es[i].start < last || exists k :: k in g && Blocks(k, es[i])
  {
    if i == 0 {
      assert es[0].start >= last ==> Greedy(es, last)[0] == es[0];
    } else if es[0].start < last {
      GreedyCovers(es[1..], last, n, i - 1);
    } else {
      GreedyCovers(es[1..], es[0].end, n, i - 1);
      var g := Greedy(es, last);
      assert g == [es[0]] + Greedy(es[1..], es[0].end) && es[0] in g;
      assert Before(es[0], es[i]);
    }
  }

  lemma GreedySelects<T>(es: seq<Edit<T>>, n: nat)
    requires Sorted(es) && AllInRange(es, n)
    ensures Selects(es, Greedy(es, -1)) && AllInRange(Greedy(es, -1), n)
  {
    GreedyIsDisjoint(es, -1, n);
    forall e | e in Greedy(es, -1) ensures e in es { GreedyComesFrom(es, -1, e); }
    forall e | e in es
      ensures e in Greedy(es, -1) || exists k :: k in Greedy(es, -1) && Blocks(k, e)
    {
      var i :| 0 <= i < |es| && es[i] == e;
      GreedyCovers(es, -1, n, i);
    }
  }

  /** The loop over the sorted edits. */
  method SelectSorted<T>(es: seq<Edit<T>>) returns (kept: seq<Edit<T>>)
    ensures kept == Greedy(es, -1)
  {
    kept := [];
    var last: int := -1;
    for i := 0 to |es|
      invariant kept + Greedy(es[i..], last) == Greedy(es, -1)
    {
      assert es[i..][1..] == es[i + 1..];
      if es[i].start < last { continue; }
      assert kept + ([es[i]] + Greedy(es[i + 1..], es[i].end)) == kept + [es[i]] + Greedy(es[i + 1..], es[i].end);
      kept := kept + [es[i]];
      last := es[i].end;
    }
  }

  method SelectEdits<T>(edits: seq<Edit<T>>, ghost n: nat) returns (kept: seq<Edit<T>>)
    requires AllInRange(edits, n)
    ensures Selects(edits, kept) && AllInRange(kept, n)
  {
    SortIsSorted(edits);
    SortKeepsRange(edits, n);
    kept := SelectSorted(Sort(edits));
    GreedySelects(Sort(edits), n);
    SameElements(edits, kept);
  }

  lemma SameElements<T>(edits: seq<Edit<T>>, kept: seq<Edit<T>>)
    requires Selects(Sort(edits), kept)
    ensures Selects(edits, kept)
  {
    SortIsSorted(edits);
    forall e ensures e in edits <==> e in Sort(edits) {
      assert e in multiset(edits) <==> e in multiset(Sort(edits));
    }
  }

  // ------------------------------------------------------------------ splicing

  /** One left-to-right pass: the untouched gaps interleaved with the replacements. */
  function Weave<T>(src: seq<T>, kept: seq<Edit<T>>, from: nat): seq<T>
    requires from <= |src| && (forall i :: 0 <= i < |kept| ==> from <= kept[i].start <= kept[i].end <= |src|)
             && Disjoint(kept)
  {
    if kept == [] then src[from..]
    else src[from..kept[0].start] + kept[0].rep + Weave(src, kept[1..], kept[0].end)
  }

  /** Where the untouched prefix ends once the edits from index i on are in place. */
  function Frontier<T>(kept: seq<Edit<T>>, i: nat): nat
    requires i <= |kept|
  {
    if i == 0 then 0 else kept[i - 1].end
  }

  /** The text once the edits from index i on are in place. */
  ghost function Partial<T>(src: seq<T>, kept: seq<Edit<T>>, i: nat): seq<T>
    requires Disjoint(kept) && AllInRange(kept, |src|) && i <= |kept|
  {
    src[..Frontier(kept, i)] + Weave(src, kept[i..], Frontier(kept, i))
  }

  lemma SpliceStep<T>(src: seq<T>, kept: seq<Edit<T>>, i: nat)
    requires Disjoint(kept) && AllInRange(kept, |src|) && i < |kept|
    ensures var e, out := kept[i], Partial(src, kept, i + 1);
            e.end <= |out| && out[..e.start] + e.rep + out[e.end..] == Partial(src, kept, i)
  {
    var e, p := kept[i], Frontier(kept, i);
    var rest := Weave(src, kept[i + 1..], e.end);
    var out := src[..e.end] + rest;
    assert out[..e.start] == src[..e.start] && out[e.end..] == rest;
    assert kept[i..][1..] == kept[i + 1..];
    assert src[..e.start] == src[..p] + src[p..e.start];
    assert src[..p] + src[p..e.start] + e.rep + rest == src[..p] + (src[p..e.start] + e.rep + rest);
  }

  /** The splicing loop. Sorting disjoint non-empty edits by descending start is reversing them. */
  method SpliceRightToLeft<T>(src: seq<T>, kept: seq<Edit<T>>) returns (out: seq<T>)
    requires Disjoint(kept) && AllInRange(kept, |src|)
    ensures out == Weave(src, kept, 0)
  {
    out := src;
    var i: nat := |kept|;
    assert src == Partial(src, kept, i) by { assert kept[i..] == []; }
    while i > 0
      invariant i <= |kept|
      invariant out == Partial(src, kept, i)
    {
      i := i - 1;
      SpliceStep(src, kept, i);
      out := out[..kept[i].start] + kept[i].rep + out[kept[i].end..];
    }
    assert kept[0..] == kept;
  }

  /** The whole pass over one file: select, then splice. */
  method ApplyEdits<T>(src: seq<T>, edits: seq<Edit<T>>) returns (out: seq<T>, kept: seq<Edit<T>>)
    requires AllInRange(edits, |src|)
    ensures Selects(edits, kept) && AllInRange(kept, |src|) && out == Weave(src, kept, 0)
  {
    kept := SelectEdits(edits, |src|);
    out := SpliceRightToLeft(src, kept);
  }

  // ------------------------------------------------------------------ what the weave means

  /** How far position p of the source moves: the growth of the edits that end at or before it. */
  function Shift<T>(kept: seq<Edit<T>>, p: nat): int {
    if kept == [] then 0
    else (if kept[0].end <= p then |kept[0].rep| - (kept[0].end - kept[0].start) else 0) + Shift(kept[1..], p)
  }

  lemma {:induction false} NoShiftBefore<T>(kept: seq<Edit<T>>, p: nat)
    requires forall i :: 0 <= i < |kept| ==> p < kept[i].end
    ensures Shift(kept, p) == 0
  {
    if kept != [] { NoShiftBefore(kept[1..], p); }
  }

  lemma RestInRange<T>(src: seq<T>, kept: seq<Edit<T>>, from: nat)
    requires from <= |src| && (forall i :: 0 <= i < |kept| ==> from <= kept[i].start < kept[i].end <= |src|)
             && Disjoint(kept)
    requires kept != []
    ensures Disjoint(kept[1..])
    ensures forall i :: 0 <= i < |kept[1..]| ==>
            kept[0].end <= kept[1..][i].start < kept[1..][i].end <= |src|
  {
    assert forall i :: 0 <= i < |kept[1..]| ==> kept[1..][i] == kept[i + 1];
  }

  /** Every character outside the kept ranges survives, at its old place plus the growth of the edits before it. */
  lemma {:induction false} UntouchedSurvives<T>(src: seq<T>, kept: seq<Edit<T>>, from: nat, p: nat)
    requires from <= p < |src| && (forall i :: 0 <= i < |kept| ==> from <= kept[i].start < kept[i].end <= |src|)
             && Disjoint(kept)
    requires forall i :: 0 <= i < |kept| ==> !(kept[i].start <= p < kept[i].end)
    ensures 0 <= p + Shift(kept, p) - from < |Weave(src, kept, from)|
    ensures Weave(src, kept, from)[p + Shift(kept, p) - from] == src[p]
  {
    if kept != [] {
      var k := kept[0];
      if p < k.start {
        NoShiftBefore(kept, p);
      } else {
        RestInRange(src, kept, from);
        UntouchedSurvives(src, kept[1..], k.end, p);
        WeaveUnfolds(src, kept, from, p);
        BehindHead(src[from..k.start] + k.rep, Weave(src, kept[1..], k.end), p + Shift(kept[1..], p) - k.end);
      }
    }
  }

  lemma BehindHead<T>(head: seq<T>, rest: seq<T>, at: int)
    requires 0 <= at < |rest|
    ensures (head + rest)[|head| + at] == rest[at]
  {
  }

  /** Where a position at or after the first edit lands, in terms of the rest of the weave. */
  lemma WeaveUnfolds<T>(src: seq<T>, kept: seq<Edit<T>>, from: nat, p: nat)
    requires from <= |src| && (forall i :: 0 <= i < |kept| ==> from <= kept[i].start <= kept[i].end <= |src|)
             && Disjoint(kept)
    requires kept != [] && kept[0].end <= p
    ensures var head := src[from..kept[0].start] + kept[0].rep;
            && Weave(src, kept, from) == head + Weave(src, kept[1..], kept[0].end)
            && p + Shift(kept, p) - from == |head| + (p + Shift(kept[1..], p) - kept[0].end)
  {
  }

  ghost predicate AppearsAt<T>(piece: seq<T>, text: seq<T>, at: int) {
    0 <= at <= |text| - |piece| && text[at..at + |piece|] == piece
  }

  lemma AppearsBehind<T>(piece: seq<T>, head: seq<T>, text: seq<T>, at: int)
    requires AppearsAt(piece, text, at)
    ensures AppearsAt(piece, head + text, |head| + at)
  {
    assert (head + text)[|head| + at..|head| + at + |piece|] == text[at..at + |piece|];
  }

  lemma FirstReplacementAppears<T>(src: seq<T>, kept: seq<Edit<T>>, from: nat)
    requires from <= |src| && (forall i :: 0 <= i < |kept| ==> from <= kept[i].start <= kept[i].end <= |src|)
             && Disjoint(kept)
    requires kept != []
    ensures AppearsAt(kept[0].rep, Weave(src, kept, from), kept[0].start - from)
  {
    var k := kept[0];
    var lead, rest := src[from..k.start], Weave(src, kept[1..], k.end);
    assert AppearsAt(k.rep, k.rep + rest, 0);
    AppearsBehind(k.rep, lead, k.rep + rest, 0);
    assert lead + (k.rep + rest) == lead + k.rep + rest;
  }

  /** Every replacement appears in full where its range was. */
  lemma {:induction false} ReplacementsAppear<T>(src: seq<T>, kept: seq<Edit<T>>, from: nat, i: nat)
    requires from <= |src| && (forall i :: 0 <= i < |kept| ==> from <= kept[i].start < kept[i].end <= |src|)
             && Disjoint(kept)
    requires i < |kept|
    ensures AppearsAt(kept[i].rep, Weave(src, kept, from), kept[i].start + Shift(kept, kept[i].start) - from)
  {
    if i == 0 {
      NoShiftBefore(kept, kept[0].start);
      FirstReplacementAppears(src, kept, from);
    } else {
      var k, e, rest := kept[0], kept[i], kept[1..];
      var head, at := src[from..k.start] + k.rep, e.start + Shift(rest, e.start) - k.end;
      assert AppearsAt(e.rep, Weave(src, rest, k.end), at) by {
        RestInRange(src, kept, from);
        ReplacementsAppear(src, rest, k.end, i - 1);
      }
      AppearsBehind(e.rep, head, Weave(src, rest, k.end), at);
      WeaveUnfolds(src, kept, from, e.start);
    }
  }
}

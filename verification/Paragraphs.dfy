/** Lines grouped into blocks separated by blank lines: how the .po editor of tools/i18n_master.py cuts a file, replaces
    blocks in it and puts it together again. Generic in the type of lines and in what counts as blank. */
module Paragraphs {
  import opened Text

  // ------------------------------------------------------------------ blocks

  /** How many lines at the front are not blank. */
  function RunLength<L>(blank: L -> bool, ls: seq<L>): (n: nat)
    ensures n <= |ls| && (n < |ls| ==> blank(ls[n]))
    ensures forall i :: 0 <= i < n ==> !blank(ls[i])
  {
    if ls == [] || blank(ls[0]) then 0 else
      var n := RunLength(blank, ls[1..]);
      assert forall i :: 1 <= i < n + 1 ==> ls[i] == ls[1..][i - 1];
      n + 1
  }

  /** The maximal runs of lines that are not blank. */
  function Blocks<L>(blank: L -> bool, ls: seq<L>): seq<seq<L>>
    decreases |ls|
  {
    if ls == [] then []
    else if blank(ls[0]) then Blocks(blank, ls[1..])
    else
      var n := RunLength(blank, ls);
      assert n > 0;
      [ls[..n]] + Blocks(blank, ls[n..])
  }

  /** A block as the editor cuts it: not empty, no blank line. */
  ghost predicate IsBlock<L>(blank: L -> bool, b: seq<L>) {
    b != [] && forall i :: 0 <= i < |b| ==> !blank(b[i])
  }

  ghost predicate AllBlocks<L>(blank: L -> bool, bs: seq<seq<L>>) {
    forall k :: 0 <= k < |bs| ==> IsBlock(blank, bs[k])
  }

  lemma {:induction false} BlocksAreBlocks<L>(blank: L -> bool, ls: seq<L>)
    ensures AllBlocks(blank, Blocks(blank, ls))
    decreases |ls|
  {
    if ls != [] {
      if blank(ls[0]) {
        BlocksAreBlocks(blank, ls[1..]);
      } else {
        BlocksAreBlocks(blank, ls[RunLength(blank, ls)..]);
      }
    }
  }

  lemma RunLengthOf<L>(blank: L -> bool, b: seq<L>, rest: seq<L>)
    requires (forall i :: 0 <= i < |b| ==> !blank(b[i])) && (rest == [] || blank(rest[0]))
    ensures RunLength(blank, b + rest) == |b|
  {
    var t := b + rest;
    assert forall i :: 0 <= i < |b| ==> t[i] == b[i];
    assert rest != [] ==> t[|b|] == rest[0];
    assert RunLength(blank, t) == |b|;
  }

  lemma BlocksCons<L>(blank: L -> bool, b: seq<L>, rest: seq<L>)
    requires IsBlock(blank, b) && (rest == [] || blank(rest[0]))
    ensures Blocks(blank, b + rest) == [b] + Blocks(blank, rest)
  {
    RunLengthOf(blank, b, rest);
    assert (b + rest)[0] == b[0] && (b + rest)[..|b|] == b && (b + rest)[|b|..] == rest;
  }

  lemma BlocksBlank<L>(blank: L -> bool, l: L, rest: seq<L>)
    requires blank(l)
    ensures Blocks(blank, [l] + rest) == Blocks(blank, rest)
  {
    assert ([l] + rest)[1..] == rest;
  }

  /** A blank line separates: the blocks before it and those behind it. */
  lemma {:induction false} BlocksApart<L>(blank: L -> bool, a: seq<L>, l: L, b: seq<L>)
    requires blank(l)
    ensures Blocks(blank, a + ([l] + b)) == Blocks(blank, a) + Blocks(blank, b)
    decreases |a|
  {
    var t := [l] + b;
    if a == [] {
      assert a + t == t;
      BlocksBlank(blank, l, b);
    } else if blank(a[0]) {
      assert (a + t)[1..] == a[1..] + t;
      BlocksApart(blank, a[1..], l, b);
    } else {
      var n := RunLength(blank, a);
      var head, tail := a[..n], a[n..];
      assert a == head + tail && a + t == head + (tail + t);
      BlocksCons(blank, head, tail + t);
      BlocksCons(blank, head, tail);
      BlocksApart(blank, tail, l, b);
      Assoc([head], Blocks(blank, tail), Blocks(blank, b));
    }
  }

  // ------------------------------------------------------------------ replacing blocks

  /** The lines with their blocks replaced, in order, by those of bs; blank lines stay. */
  function Rebuild<L>(blank: L -> bool, ls: seq<L>, bs: seq<seq<L>>): seq<L>
    decreases |ls|
  {
    if ls == [] then []
    else if blank(ls[0]) then [ls[0]] + Rebuild(blank, ls[1..], bs)
    else
      var n := RunLength(blank, ls);
      assert n > 0;
      (if bs == [] then [] else bs[0]) + Rebuild(blank, ls[n..], if bs == [] then [] else bs[1..])
  }

  /** The rebuilt lines have exactly the new blocks. */
  lemma {:induction false} BlocksOfRebuild<L>(blank: L -> bool, ls: seq<L>, bs: seq<seq<L>>)
    requires |bs| == |Blocks(blank, ls)| && AllBlocks(blank, bs)
    ensures Blocks(blank, Rebuild(blank, ls, bs)) == bs
    decreases |ls|
  {
    if ls != [] {
      if blank(ls[0]) {
        BlocksOfRebuild(blank, ls[1..], bs);
        BlocksBlank(blank, ls[0], Rebuild(blank, ls[1..], bs));
      } else {
        var rest := ls[RunLength(blank, ls)..];
        BlocksOfRebuild(blank, rest, bs[1..]);
        BlocksCons(blank, bs[0], Rebuild(blank, rest, bs[1..]));
      }
    }
  }

  /** Rebuilding lines with their own blocks changes nothing. */
  lemma {:induction false} RebuildSame<L>(blank: L -> bool, ls: seq<L>)
    ensures Rebuild(blank, ls, Blocks(blank, ls)) == ls
    decreases |ls|
  {
    if ls != [] {
      if blank(ls[0]) {
        RebuildSame(blank, ls[1..]);
        assert ls == [ls[0]] + ls[1..];
      } else {
        var n := RunLength(blank, ls);
        RebuildSame(blank, ls[n..]);
        assert ls == ls[..n] + ls[n..];
        assert ([ls[..n]] + Blocks(blank, ls[n..]))[1..] == Blocks(blank, ls[n..]);
      }
    }
  }

  lemma RebuildAtBlock<L>(blank: L -> bool, ls: seq<L>, n: nat, bs: seq<seq<L>>)
    requires 0 < n <= |ls| && IsBlock(blank, ls[..n]) && (n == |ls| || blank(ls[n])) && bs != []
    ensures Rebuild(blank, ls, bs) == bs[0] + Rebuild(blank, ls[n..], bs[1..])
  {
    assert ls == ls[..n] + ls[n..];
    RunLengthOf(blank, ls[..n], ls[n..]);
    assert !blank(ls[..n][0]);
  }

  lemma {:induction false} RebuildBlanks<L>(blank: L -> bool, ls: seq<L>, n: nat, bs: seq<seq<L>>)
    requires n <= |ls| && forall i :: 0 <= i < n ==> blank(ls[i])
    ensures Rebuild(blank, ls, bs) == ls[..n] + Rebuild(blank, ls[n..], bs)
    decreases n
  {
    if n == 0 {
      assert ls[0..] == ls;
    } else {
      RebuildBlanks(blank, ls[1..], n - 1, bs);
      assert ls[1..][n - 1..] == ls[n..];
      Assoc([ls[0]], ls[1..][..n - 1], Rebuild(blank, ls[n..], bs));
      assert [ls[0]] + ls[1..][..n - 1] == ls[..n];
    }
  }

  ghost predicate EveryBlockLine<L>(p: L -> bool, bs: seq<seq<L>>) { forall k :: 0 <= k < |bs| ==> Every(p, bs[k]) }

  lemma {:induction false} RebuildEvery<L>(blank: L -> bool, p: L -> bool, ls: seq<L>, bs: seq<seq<L>>)
    requires Every(p, ls) && EveryBlockLine(p, bs) && AllBlocks(blank, bs) && |bs| == |Blocks(blank, ls)|
    ensures Every(p, Rebuild(blank, ls, bs)) && (ls != [] ==> Rebuild(blank, ls, bs) != [])
    decreases |ls|
  {
    if ls != [] {
      if blank(ls[0]) {
        RebuildEvery(blank, p, ls[1..], bs);
      } else {
        RebuildEvery(blank, p, ls[RunLength(blank, ls)..], bs[1..]);
      }
    }
  }

  // ------------------------------------------------------------------ lines that survive

  /** Line p is blank or stands in a block that was not changed. */
  ghost predicate Untouched<L>(blank: L -> bool, ls: seq<L>, bs: seq<seq<L>>, p: nat)
    decreases |ls|
  {
    p < |ls| &&
    if blank(ls[0]) then p == 0 || Untouched(blank, ls[1..], bs, p - 1)
    else
      var n := RunLength(blank, ls);
      n > 0 && bs != [] && if p < n then bs[0] == ls[..n] else Untouched(blank, ls[n..], bs[1..], p - n)
  }

  /** Where it stands in the rebuilt lines. */
  ghost function Place<L>(blank: L -> bool, ls: seq<L>, bs: seq<seq<L>>, p: nat): nat
    requires Untouched(blank, ls, bs, p)
    decreases |ls|
  {
    if blank(ls[0]) then (if p == 0 then 0 else 1 + Place(blank, ls[1..], bs, p - 1))
    else
      var n := RunLength(blank, ls);
      if p < n then p else |bs[0]| + Place(blank, ls[n..], bs[1..], p - n)
  }

  /** Every line outside the replaced blocks is still there. */
  lemma {:induction false} UntouchedSurvives<L>(blank: L -> bool, ls: seq<L>, bs: seq<seq<L>>, p: nat)
    requires Untouched(blank, ls, bs, p)
    ensures var q := Place(blank, ls, bs, p); q < |Rebuild(blank, ls, bs)| && Rebuild(blank, ls, bs)[q] == ls[p]
    decreases |ls|
  {
    if blank(ls[0]) {
      if p > 0 {
        UntouchedSurvives(blank, ls[1..], bs, p - 1);
        Behind([ls[0]], Rebuild(blank, ls[1..], bs), Place(blank, ls[1..], bs, p - 1));
      }
    } else {
      var n := RunLength(blank, ls);
      if p >= n {
        UntouchedSurvives(blank, ls[n..], bs[1..], p - n);
        Behind(bs[0], Rebuild(blank, ls[n..], bs[1..]), Place(blank, ls[n..], bs[1..], p - n));
      } else {
        assert bs[0][p] == ls[p];
      }
    }
  }

  lemma Behind<T>(head: seq<T>, rest: seq<T>, q: nat)
    requires q < |rest|
    ensures (head + rest)[|head| + q] == rest[q]
  {
  }

  /** … and in the same order. */
  lemma {:induction false} SurvivorsStayInOrder<L>(blank: L -> bool, ls: seq<L>, bs: seq<seq<L>>, p: nat, p': nat)
    requires p < p' && Untouched(blank, ls, bs, p) && Untouched(blank, ls, bs, p')
    ensures Place(blank, ls, bs, p) < Place(blank, ls, bs, p')
    decreases |ls|
  {
    if blank(ls[0]) {
      if p > 0 { SurvivorsStayInOrder(blank, ls[1..], bs, p - 1, p' - 1); }
    } else {
      var n := RunLength(blank, ls);
      if p >= n { SurvivorsStayInOrder(blank, ls[n..], bs[1..], p - n, p' - n); }
    }
  }

  // ------------------------------------------------------------------ spans

  /** [start, end) of every block, the first at or after i. */
  ghost predicate AreSpans<L>(blank: L -> bool, ls: seq<L>, i: nat, spans: seq<(nat, nat)>)
    decreases |spans|
  {
    i <= |ls| &&
    if spans == [] then forall k :: i <= k < |ls| ==> blank(ls[k])
    else
      && i <= spans[0].0 < spans[0].1 <= |ls|
      && (forall k :: i <= k < spans[0].0 ==> blank(ls[k]))
      && IsBlock(blank, ls[spans[0].0..spans[0].1])
      && (spans[0].1 == |ls| || blank(ls[spans[0].1]))
      && AreSpans(blank, ls, spans[0].1, spans[1..])
  }

  ghost predicate InLines<L>(ls: seq<L>, spans: seq<(nat, nat)>) {
    forall k :: 0 <= k < |spans| ==> spans[k].0 <= spans[k].1 <= |ls|
  }

  ghost function Cut<L>(ls: seq<L>, spans: seq<(nat, nat)>): seq<seq<L>>
    requires InLines(ls, spans)
  {
    seq(|spans|, k requires 0 <= k < |spans| => ls[spans[k].0..spans[k].1])
  }

  lemma {:induction false} SpansInLines<L>(blank: L -> bool, ls: seq<L>, i: nat, spans: seq<(nat, nat)>)
    requires AreSpans(blank, ls, i, spans)
    ensures InLines(ls, spans)
    decreases |spans|
  {
    if spans != [] {
      SpansInLines(blank, ls, spans[0].1, spans[1..]);
      assert spans == [spans[0]] + spans[1..];
    }
  }

  lemma {:induction false} BlocksSkipBlanks<L>(blank: L -> bool, ls: seq<L>, i: nat, a: nat)
    requires i <= a <= |ls| && forall k :: i <= k < a ==> blank(ls[k])
    ensures Blocks(blank, ls[i..]) == Blocks(blank, ls[a..])
    decreases a - i
  {
    if i < a {
      BlocksSkipBlanks(blank, ls, i + 1, a);
      assert ls[i..][0] == ls[i] && ls[i..][1..] == ls[i + 1..];
    }
  }

  lemma BlocksFrom<L>(blank: L -> bool, ls: seq<L>, a: nat, b: nat)
    requires a < b <= |ls| && IsBlock(blank, ls[a..b]) && (b == |ls| || blank(ls[b]))
    ensures Blocks(blank, ls[a..]) == [ls[a..b]] + Blocks(blank, ls[b..])
  {
    SliceTail(ls, a, b);
    BlocksCons(blank, ls[a..b], ls[b..]);
  }

  lemma CutCons<L>(ls: seq<L>, span: (nat, nat), spans: seq<(nat, nat)>)
    requires InLines(ls, spans) && span.0 <= span.1 <= |ls|
    ensures InLines(ls, [span] + spans) && Cut(ls, [span] + spans) == [ls[span.0..span.1]] + Cut(ls, spans)
  {
    var all := [span] + spans;
    assert forall k :: 0 < k < |all| ==> all[k] == spans[k - 1];
  }

  /** The spans cut out exactly the blocks. */
  lemma {:induction false} SpansAreBlocks<L>(blank: L -> bool, ls: seq<L>, i: nat, spans: seq<(nat, nat)>)
    requires AreSpans(blank, ls, i, spans)
    ensures InLines(ls, spans) && Cut(ls, spans) == Blocks(blank, ls[i..])
    decreases |spans|
  {
    SpansInLines(blank, ls, i, spans);
    if spans == [] {
      BlocksSkipBlanks(blank, ls, i, |ls|);
      assert ls[|ls|..] == [];
    } else {
      var a, b := spans[0].0, spans[0].1;
      assert Blocks(blank, ls[i..]) == [ls[a..b]] + Blocks(blank, ls[b..]) by {
        BlocksSkipBlanks(blank, ls, i, a);
        BlocksFrom(blank, ls, a, b);
      }
      SpansAreBlocks(blank, ls, b, spans[1..]);
      assert Cut(ls, spans) == [ls[a..b]] + Cut(ls, spans[1..]) by {
        CutCons(ls, spans[0], spans[1..]);
        assert spans == [spans[0]] + spans[1..];
      }
    }
  }

  /** The end of the block that starts at i. */
  function BlockEnd<L>(blank: L -> bool, ls: seq<L>, i: nat): (j: nat)
    requires i <= |ls|
    ensures i <= j <= |ls| && (j < |ls| ==> blank(ls[j])) && forall k :: i <= k < j ==> !blank(ls[k])
    decreases |ls| - i
  {
    if i == |ls| || blank(ls[i]) then i else BlockEnd(blank, ls, i + 1)
  }

  function SpansFrom<L>(blank: L -> bool, ls: seq<L>, i: nat): seq<(nat, nat)>
    requires i <= |ls|
    decreases |ls| - i
  {
    if i == |ls| then []
    else if blank(ls[i]) then SpansFrom(blank, ls, i + 1)
    else
      var j := BlockEnd(blank, ls, i);
      assert i < j;
      [(i, j)] + SpansFrom(blank, ls, j)
  }

  lemma AreSpansBack<L>(blank: L -> bool, ls: seq<L>, i: nat, spans: seq<(nat, nat)>)
    requires i < |ls| && blank(ls[i]) && AreSpans(blank, ls, i + 1, spans)
    ensures AreSpans(blank, ls, i, spans)
  {
  }

  lemma {:induction false} SpansFromAreSpans<L>(blank: L -> bool, ls: seq<L>, i: nat)
    requires i <= |ls|
    ensures AreSpans(blank, ls, i, SpansFrom(blank, ls, i))
    decreases |ls| - i
  {
    if i < |ls| {
      if blank(ls[i]) {
        SpansFromAreSpans(blank, ls, i + 1);
        AreSpansBack(blank, ls, i, SpansFrom(blank, ls, i + 1));
      } else {
        var j := BlockEnd(blank, ls, i);
        SpansFromAreSpans(blank, ls, j);
        var spans := [(i, j)] + SpansFrom(blank, ls, j);
        assert spans[1..] == SpansFrom(blank, ls, j);
        var b := ls[i..j];
        assert forall k :: 0 <= k < |b| ==> b[k] == ls[i + k];
      }
    }
  }

  /** The loop of `PoFile.__init__` that finds the blocks. */
  method FindSpans<L>(blank: L -> bool, ls: seq<L>) returns (spans: seq<(nat, nat)>)
    ensures AreSpans(blank, ls, 0, spans)
  {
    spans := [];
    var i := 0;
    ghost var whole := SpansFrom(blank, ls, 0);
    while i < |ls|
      invariant i <= |ls| && spans + SpansFrom(blank, ls, i) == whole
    {
      if blank(ls[i]) {
        i := i + 1;
        continue;
      }
      var j := i;
      while j < |ls| && !blank(ls[j])
        invariant i <= j <= |ls| && BlockEnd(blank, ls, i) == BlockEnd(blank, ls, j)
      {
        j := j + 1;
      }
      Assoc(spans, [(i, j)], SpansFrom(blank, ls, j));
      spans := spans + [(i, j)];
      i := j;
    }
    assert spans + [] == spans;
    SpansFromAreSpans(blank, ls, 0);
  }

  /** Where block k starts, or the end. */
  function StartOf<L>(ls: seq<L>, spans: seq<(nat, nat)>, k: nat): nat {
    if k < |spans| then spans[k].0 else |ls|
  }

  /** Block k: its lines, and the blank lines between it and the next one. */
  ghost predicate SpanOk<L>(blank: L -> bool, ls: seq<L>, spans: seq<(nat, nat)>, k: nat)
    requires k < |spans|
  {
    var a, b, next := spans[k].0, spans[k].1, StartOf(ls, spans, k + 1);
    && a < b <= next <= |ls| && IsBlock(blank, ls[a..b]) && (b == |ls| || blank(ls[b]))
    && forall i :: b <= i < next ==> blank(ls[i])
  }

  lemma {:induction false} AreSpansAt<L>(blank: L -> bool, ls: seq<L>, i: nat, spans: seq<(nat, nat)>, k: nat)
    requires AreSpans(blank, ls, i, spans) && k < |spans|
    ensures SpanOk(blank, ls, spans, k)
    decreases |spans|
  {
    var rest := spans[1..];
    if k > 0 {
      AreSpansAt(blank, ls, spans[0].1, rest, k - 1);
      assert rest[k - 1] == spans[k] && StartOf(ls, rest, k) == StartOf(ls, spans, k + 1);
    } else if rest != [] {
      assert rest[0] == spans[1];
    }
  }

  /** The blocks as they stand. */
  ghost function Now<L>(ls: seq<L>, spans: seq<(nat, nat)>, replaced: map<nat, seq<L>>): seq<seq<L>>
    requires InLines(ls, spans)
  {
    seq(|spans|, k requires 0 <= k < |spans| => if k in replaced then replaced[k] else ls[spans[k].0..spans[k].1])
  }

  /** The lines when the blocks from k on are the new ones. */
  ghost predicate SplicedFrom<L>(blank: L -> bool, ls: seq<L>, p: nat, bs: seq<seq<L>>, out: seq<L>) {
    p <= |ls| && out == ls[..p] + Rebuild(blank, ls[p..], bs)
  }

  lemma SplicedOverBlanks<L>(blank: L -> bool, ls: seq<L>, b: nat, p: nat, bs: seq<seq<L>>, out: seq<L>)
    requires b <= p && SplicedFrom(blank, ls, p, bs, out) && forall i :: b <= i < p ==> blank(ls[i])
    ensures SplicedFrom(blank, ls, b, bs, out)
  {
    var t := ls[b..];
    RebuildBlanks(blank, t, p - b, bs);
    assert t[p - b..] == ls[p..] && t[..p - b] == ls[b..p];
    SliceJoin(ls, 0, b, p);
    Assoc(ls[..b], ls[b..p], Rebuild(blank, ls[p..], bs));
  }

  lemma SplicedBlock<L>(blank: L -> bool, ls: seq<L>, a: nat, b: nat, block: seq<L>, bs: seq<seq<L>>, out: seq<L>)
    requires a < b && SplicedFrom(blank, ls, b, bs, out) && IsBlock(blank, ls[a..b]) && (b == |ls| || blank(ls[b]))
    ensures b <= |out| && SplicedFrom(blank, ls, a, [block] + bs, out[..a] + block + out[b..])
  {
    var t, rest := ls[a..], Rebuild(blank, ls[b..], bs);
    assert t[..b - a] == ls[a..b] && t[b - a..] == ls[b..];
    RebuildAtBlock(blank, t, b - a, [block] + bs);
    assert ([block] + bs)[1..] == bs;
    assert out[..a] == ls[..a] && out[b..] == rest;
    Assoc(ls[..a], block, rest);
  }

  /** The loop of `save`: replaced blocks go in from the last to the first, so that positions do not move. */
  method SpliceBlocks<L>(blank: L -> bool, ls: seq<L>, spans: seq<(nat, nat)>, replaced: map<nat, seq<L>>)
    returns (out: seq<L>)
    requires AreSpans(blank, ls, 0, spans)
    ensures InLines(ls, spans) && out == Rebuild(blank, ls, Now(ls, spans, replaced))
  {
    SpansInLines(blank, ls, 0, spans);
    ghost var now := Now(ls, spans, replaced);
    out := ls;
    var k: nat := |spans|;
    assert ls[..|ls|] + [] == ls && ls[|ls|..] == [] && now[k..] == [];
    while k > 0
      invariant k <= |spans| && SplicedFrom(blank, ls, StartOf(ls, spans, k), now[k..], out)
    {
      k := k - 1;
      SpliceStep(blank, ls, spans, now, k, out);
      var a, b := spans[k].0, spans[k].1;
      if k in replaced { out := out[..a] + replaced[k] + out[b..]; }
    }
    SplicedAll(blank, ls, spans, now, out);
  }

  lemma SplicedAll<L>(blank: L -> bool, ls: seq<L>, spans: seq<(nat, nat)>, now: seq<seq<L>>, out: seq<L>)
    requires AreSpans(blank, ls, 0, spans) && SplicedFrom(blank, ls, StartOf(ls, spans, 0), now[0..], out)
    ensures out == Rebuild(blank, ls, now)
  {
    assert now[0..] == now && forall i :: 0 <= i < StartOf(ls, spans, 0) ==> blank(ls[i]);
    SplicedOverBlanks(blank, ls, 0, StartOf(ls, spans, 0), now, out);
    assert ls[0..] == ls && ls[..0] + Rebuild(blank, ls, now) == Rebuild(blank, ls, now);
  }

  /** One round: block k is the new one, or was not replaced. */
  lemma SpliceStep<L>(blank: L -> bool, ls: seq<L>, spans: seq<(nat, nat)>, now: seq<seq<L>>, k: nat, out: seq<L>)
    requires AreSpans(blank, ls, 0, spans) && |now| == |spans| && k < |spans|
    requires SplicedFrom(blank, ls, StartOf(ls, spans, k + 1), now[k + 1..], out)
    ensures var a, b := spans[k].0, spans[k].1;
            && a <= b <= |out| && SplicedFrom(blank, ls, a, now[k..], out[..a] + now[k] + out[b..])
            && (b <= |ls| && now[k] == ls[a..b] ==> out[..a] + now[k] + out[b..] == out)
  {
    AreSpansAt(blank, ls, 0, spans, k);
    assert [now[k]] + now[k + 1..] == now[k..];
    SpliceOne(blank, ls, spans[k].0, spans[k].1, StartOf(ls, spans, k + 1), now[k], now[k + 1..], out);
  }

  lemma SpliceOne<L>(blank: L -> bool, ls: seq<L>, a: nat, b: nat, next: nat, block: seq<L>, later: seq<seq<L>>,
                     out: seq<L>)
    requires a < b <= next <= |ls| && IsBlock(blank, ls[a..b]) && (b == |ls| || blank(ls[b]))
    requires (forall i :: b <= i < next ==> blank(ls[i])) && SplicedFrom(blank, ls, next, later, out)
    ensures b <= |out| && SplicedFrom(blank, ls, a, [block] + later, out[..a] + block + out[b..])
    ensures block == ls[a..b] ==> out[..a] + block + out[b..] == out
  {
    SplicedOverBlanks(blank, ls, b, next, later, out);
    SplicedBlock(blank, ls, a, b, block, later, out);
    if block == ls[a..b] { UntouchedBlock(ls, a, b, Rebuild(blank, ls[b..], later), out); }
  }

  lemma UntouchedBlock<L>(ls: seq<L>, a: nat, b: nat, rest: seq<L>, out: seq<L>)
    requires a <= b <= |ls| && out == ls[..b] + rest
    ensures out[..a] + ls[a..b] + out[b..] == out
  {
    assert out[..a] == ls[..a] && out[b..] == rest;
    SliceJoin(ls, 0, a, b);
  }

  // ------------------------------------------------------------------ appending blocks

  /** Without the empty lines at the end. */
  function Trim<L(==)>(empty: L, ls: seq<L>): seq<L> {
    if ls != [] && ls[|ls| - 1] == empty then Trim(empty, ls[..|ls| - 1]) else ls
  }

  /** The new blocks, each behind an empty line, and an empty line at the end. */
  function Appendix<L>(empty: L, bs: seq<seq<L>>): seq<L> {
    if bs == [] then [empty] else [empty] + bs[0] + Appendix(empty, bs[1..])
  }

  /** Only empty lines are lost at the end. */
  lemma {:induction false} TrimLosesEmptyLines<L>(empty: L, ls: seq<L>)
    ensures Trim(empty, ls) <= ls && forall k :: |Trim(empty, ls)| <= k < |ls| ==> ls[k] == empty
    decreases |ls|
  {
    if ls != [] && ls[|ls| - 1] == empty { TrimLosesEmptyLines(empty, ls[..|ls| - 1]); }
  }

  lemma {:induction false} BlocksOfTrim<L>(blank: L -> bool, empty: L, ls: seq<L>)
    requires blank(empty)
    ensures Blocks(blank, Trim(empty, ls)) == Blocks(blank, ls)
    decreases |ls|
  {
    if ls != [] && ls[|ls| - 1] == empty {
      var front := ls[..|ls| - 1];
      BlocksOfTrim(blank, empty, front);
      assert ls == front + ([empty] + []);
      BlocksApart(blank, front, empty, []);
    }
  }

  lemma {:induction false} BlocksOfAppendix<L>(blank: L -> bool, empty: L, bs: seq<seq<L>>)
    requires blank(empty) && AllBlocks(blank, bs)
    ensures Blocks(blank, Appendix(empty, bs)) == bs
    decreases |bs|
  {
    if bs == [] {
      BlocksBlank(blank, empty, []);
      assert [empty] + [] == [empty];
    } else {
      var rest := Appendix(empty, bs[1..]);
      Assoc([empty], bs[0], rest);
      BlocksBlank(blank, empty, bs[0] + rest);
      assert rest[0] == empty;
      BlocksCons(blank, bs[0], rest);
      BlocksOfAppendix(blank, empty, bs[1..]);
      assert [bs[0]] + bs[1..] == bs;
    }
  }

  lemma BlocksWithAppendix<L>(blank: L -> bool, empty: L, ls: seq<L>, bs: seq<seq<L>>)
    requires blank(empty) && AllBlocks(blank, bs)
    ensures Blocks(blank, ls + Appendix(empty, bs)) == Blocks(blank, ls) + bs
  {
    var ap := Appendix(empty, bs);
    assert ap == [empty] + ap[1..];
    BlocksApart(blank, ls, empty, ap[1..]);
    BlocksBlank(blank, empty, ap[1..]);
    BlocksOfAppendix(blank, empty, bs);
  }

  lemma {:induction false} AppendixEvery<L>(p: L -> bool, empty: L, bs: seq<seq<L>>)
    requires p(empty) && EveryBlockLine(p, bs)
    ensures Every(p, Appendix(empty, bs)) && Appendix(empty, bs) != []
    decreases |bs|
  {
    if bs != [] { AppendixEvery(p, empty, bs[1..]); }
  }

  /** The loop that appends. */
  method AppendBlocks<L(==)>(empty: L, ls: seq<L>, bs: seq<seq<L>>) returns (out: seq<L>)
    ensures out == if bs == [] then ls else Trim(empty, ls) + Appendix(empty, bs)
  {
    out := ls;
    if bs == [] { return; }
    while out != [] && out[|out| - 1] == empty
      invariant Trim(empty, out) == Trim(empty, ls)
    {
      out := out[..|out| - 1];
    }
    ghost var front := out;
    assert bs[0..] == bs;
    for i := 0 to |bs|
      invariant out + Appendix(empty, bs[i..]) == front + Appendix(empty, bs)
    {
      assert bs[i..][1..] == bs[i + 1..];
      var rest := Appendix(empty, bs[i + 1..]);
      Assoc(out, [empty] + bs[i], rest);
      Assoc(out, [empty], bs[i]);
      out := out + [empty] + bs[i];
    }
    out := out + [empty];
  }

  // ------------------------------------------------------------------ the last block with a key

  function LastWith<B, K(==)>(key: B -> Option<K>, bs: seq<B>, k: K): (r: Option<nat>)
    ensures r.Some? ==> r.value < |bs| && key(bs[r.value]) == Some(k)
                        && forall i :: r.value < i < |bs| ==> key(bs[i]) != Some(k)
    ensures r.None? ==> forall i :: 0 <= i < |bs| ==> key(bs[i]) != Some(k)
  {
    if bs == [] then None
    else if key(bs[|bs| - 1]) == Some(k) then Some(|bs| - 1)
    else LastWith(key, bs[..|bs| - 1], k)
  }

  lemma LastWithSnoc<B, K(!new)>(key: B -> Option<K>, bs: seq<B>, n: nat)
    requires n < |bs|
    ensures forall k :: LastWith(key, bs[..n + 1], k)
                        == if key(bs[n]) == Some(k) then Some(n) else LastWith(key, bs[..n], k)
  {
    var front := bs[..n + 1];
    assert front[|front| - 1] == bs[n] && front[..|front| - 1] == bs[..n];
  }

  lemma LastWithIs<B, K>(key: B -> Option<K>, bs: seq<B>, k: K, i: nat)
    requires i < |bs| && key(bs[i]) == Some(k) && forall j :: i < j < |bs| ==> key(bs[j]) != Some(k)
    ensures LastWith(key, bs, k) == Some(i)
  {
    var r := LastWith(key, bs, k);
    assert r.Some?;
  }
}

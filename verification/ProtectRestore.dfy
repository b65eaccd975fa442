/** Standing in placeholders for protected template regions and putting the regions back (`_protect` and `_restore` in
    tools/i18n_wrap.py). */
module ProtectRestore {
  import opened Text

  const NUL := '\U{0}'
  const SOH := '\U{1}'

  /** What a placeholder holds between its two NUL characters. */
  function Body(i: nat): string { [SOH] + Decimal(i) + [SOH] }

  /** `_SENT.format(i)`. */
  function Sent(i: nat): (r: string)
    ensures r != ""
  {
    [NUL] + Body(i) + [NUL]
  }

  ghost predicate NulFree(s: string) { NUL !in s }

  ghost predicate AllNulFree(ss: seq<string>) { forall k :: 0 <= k < |ss| ==> NulFree(ss[k]) }

  /** `t.replace(pat, rep)`. */
  function Replace(t: string, pat: string, rep: string): string
    requires pat != ""
  {
    if |t| < |pat| then t
    else if t[..|pat|] == pat then rep + Replace(t[|pat|..], pat, rep)
    else [t[0]] + Replace(t[1..], pat, rep)
  }

  // ------------------------------------------------------------------ texts as lists of gaps and regions

  /** The gaps with the regions between them: one gap more than regions. */
  function Interleave(gaps: seq<string>, store: seq<string>): string
    requires |gaps| == |store| + 1
  {
    if store == [] then gaps[0] else gaps[0] + store[0] + Interleave(gaps[1..], store[1..])
  }

  /** The same with placeholders numbered from k. */
  function Marked(gaps: seq<string>, k: nat): string
    requires |gaps| >= 1
  {
    if |gaps| == 1 then gaps[0] else gaps[0] + Sent(k) + Marked(gaps[1..], k + 1)
  }

  /** The stretches between the NUL characters of that text. */
  function Woven(gaps: seq<string>, k: nat): (r: seq<string>)
    requires |gaps| >= 1
    ensures |r| == 2 * |gaps| - 1 && r[0] == gaps[0]
  {
    if |gaps| == 1 then gaps else [gaps[0], Body(k)] + Woven(gaps[1..], k + 1)
  }

  lemma BodyIsNulFree(k: nat)
    ensures NulFree(Body(k))
  {
  }

  lemma {:induction false} MarkedIsWoven(gaps: seq<string>, k: nat)
    requires |gaps| >= 1
    ensures Marked(gaps, k) == Join(Woven(gaps, k), NUL)
    decreases |gaps|
  {
    if |gaps| > 1 {
      var rest := Woven(gaps[1..], k + 1);
      MarkedIsWoven(gaps[1..], k + 1);
      var w := [gaps[0], Body(k)] + rest;
      assert w[1..] == [Body(k)] + rest && w[1..][1..] == rest;
      calc {
        Join(w, NUL);
        gaps[0] + [NUL] + (Body(k) + [NUL] + Join(rest, NUL));
        { Assoc(gaps[0] + [NUL], Body(k) + [NUL], Join(rest, NUL)); Assoc(gaps[0] + [NUL], Body(k), [NUL]); }
        gaps[0] + [NUL] + Body(k) + [NUL] + Join(rest, NUL);
        { Assoc(gaps[0], [NUL], Body(k)); Assoc(gaps[0], [NUL] + Body(k), [NUL]); }
        gaps[0] + Sent(k) + Join(rest, NUL);
      }
    }
  }

  lemma {:induction false} WovenIsNulFree(gaps: seq<string>, k: nat)
    requires |gaps| >= 1 && AllNulFree(gaps)
    ensures AllNulFree(Woven(gaps, k))
    decreases |gaps|
  {
    if |gaps| > 1 {
      WovenIsNulFree(gaps[1..], k + 1);
      BodyIsNulFree(k);
    }
  }

  // ------------------------------------------------------------------ one replacement, seen on the stretches

  /** What replacing the placeholder with this body does: a stretch between two others that equals it is taken out, from
      the left; the stretch behind it is not looked at again. */
  function Stage(segs: seq<string>, body: string, rep: string): (r: seq<string>)
    requires |segs| >= 1
    ensures |r| >= 1
    decreases |segs|
  {
    if |segs| < 3 then segs
    else if segs[1] == body then Stage([segs[0] + rep + segs[2]] + segs[3..], body, rep)
    else [segs[0]] + Stage(segs[1..], body, rep)
  }

  lemma {:induction false} ReplaceSkips(p: string, t: string, pat: string, rep: string)
    requires pat != "" && pat[0] == NUL && NulFree(p)
    ensures Replace(p + t, pat, rep) == p + Replace(t, pat, rep)
    decreases |p|
  {
    if p == "" {
      assert p + t == t;
    } else {
      var s := p + t;
      assert s[0] == p[0] && s[1..] == p[1..] + t;
      assert |s| >= |pat| ==> s[..|pat|][0] == p[0];
      ReplaceSkips(p[1..], t, pat, rep);
      Assoc([p[0]], p[1..], Replace(t, pat, rep));
      assert p == [p[0]] + p[1..];
      ReplaceStep(s, pat, rep);
    }
  }

  lemma ReplaceStep(t: string, pat: string, rep: string)
    requires pat != "" && t != "" && !(pat <= t)
    ensures Replace(t, pat, rep) == [t[0]] + Replace(t[1..], pat, rep)
  {
    if |t| < |pat| { assert t == [t[0]] + t[1..]; }
  }

  lemma ReplaceHit(pat: string, t: string, rep: string)
    requires pat != ""
    ensures Replace(pat + t, pat, rep) == rep + Replace(t, pat, rep)
  {
    var s := pat + t;
    assert s[..|pat|] == pat && s[|pat|..] == t;
  }

  lemma JoinPrefix(p: string, segs: seq<string>)
    requires |segs| >= 1
    ensures Join([p + segs[0]] + segs[1..], NUL) == p + Join(segs, NUL)
  {
    var w := [p + segs[0]] + segs[1..];
    if |segs| > 1 {
      assert w[1..] == segs[1..];
      Assoc(p, segs[0], [NUL]);
      Assoc(p, segs[0] + [NUL], Join(segs[1..], NUL));
    }
  }

  /** A prefix of the first stretch stays in front. */
  lemma {:induction false} StagePrefix(p: string, segs: seq<string>, body: string, rep: string)
    requires |segs| >= 1
    ensures var r := Stage(segs, body, rep); Stage([p + segs[0]] + segs[1..], body, rep) == [p + r[0]] + r[1..]
    decreases |segs|
  {
    var w := [p + segs[0]] + segs[1..];
    if |segs| >= 3 {
      assert w[1] == segs[1] && w[2] == segs[2] && w[3..] == segs[3..] && w[1..] == segs[1..];
      if segs[1] == body {
        var m := [segs[0] + rep + segs[2]] + segs[3..];
        StagePrefix(p, m, body, rep);
        assert m[1..] == segs[3..];
        assert p + (segs[0] + rep + segs[2]) == p + segs[0] + rep + segs[2];
      } else {
        var r := Stage(segs[1..], body, rep);
        assert ([segs[0]] + r)[1..] == r;
      }
    }
  }

  /** Equal texts up to their first NUL. */
  lemma FirstStretch(a: string, ta: string, b: string, tb: string)
    requires NulFree(a) && NulFree(b) && a + [NUL] + ta == b + [NUL] + tb
    ensures a == b
  {
    var l, r := a + [NUL] + ta, b + [NUL] + tb;
    assert l[|a|] == NUL && r[|b|] == NUL;
    assert forall k :: 0 <= k < |a| ==> l[k] == a[k];
    assert forall k :: 0 <= k < |b| ==> r[k] == b[k];
    assert |a| == |b|;
  }

  lemma DropFirst(c: char, a: string, t: string)
    requires [c] + a <= [c] + t
    ensures a <= t
  {
    var l, r := [c] + a, [c] + t;
    assert l == r[..|l|];
    assert a == l[1..] && t == r[1..] && l[1..] == r[1..][..|a|];
  }

  lemma BodyAtFront(body: string, segs: seq<string>)
    requires |segs| >= 1 && AllNulFree(segs) && NulFree(body) && body + [NUL] <= Join(segs, NUL)
    ensures |segs| >= 2 && segs[0] == body
  {
    var t := Join(segs, NUL);
    var tail := t[|body| + 1..];
    assert t == body + [NUL] + tail;
    assert t[|body|] == NUL;
    if |segs| >= 2 { FirstStretch(body, tail, segs[0], Join(segs[1..], NUL)); }
  }

  /** The placeholder stands at the front of NUL, b, rest only if b is its body and another NUL follows. */
  lemma SentAtFront(i: nat, segs: seq<string>)
    requires |segs| >= 1 && AllNulFree(segs) && Sent(i) <= [NUL] + Join(segs, NUL)
    ensures |segs| >= 2 && segs[0] == Body(i)
  {
    BodyIsNulFree(i);
    Assoc([NUL], Body(i), [NUL]);
    DropFirst(NUL, Body(i) + [NUL], Join(segs, NUL));
    BodyAtFront(Body(i), segs);
  }

  lemma {:induction false} ReplaceIsStage(segs: seq<string>, i: nat, rep: string)
    requires |segs| >= 1 && AllNulFree(segs)
    ensures Replace(Join(segs, NUL), Sent(i), rep) == Join(Stage(segs, Body(i), rep), NUL)
    decreases |segs|
  {
    var a := segs[0];
    if |segs| == 1 {
      ReplaceSkips(a, "", Sent(i), rep);
      assert a + "" == a && Replace("", Sent(i), rep) == "";
    } else {
      var rest := segs[1..];
      var t := [NUL] + Join(rest, NUL);
      Assoc(a, [NUL], Join(rest, NUL));
      ReplaceSkips(a, t, Sent(i), rep);
      if |segs| >= 3 && segs[1] == Body(i) {
        StageHit(segs, i, rep);
      } else {
        if Sent(i) <= t { SentAtFront(i, rest); }
        ReplaceStep(t, Sent(i), rep);
        assert t[1..] == Join(rest, NUL);
        ReplaceIsStage(rest, i, rep);
        StageMiss(segs, i, rep);
      }
    }
  }

  lemma StageMiss(segs: seq<string>, i: nat, rep: string)
    requires |segs| >= 2 && (|segs| >= 3 ==> segs[1] != Body(i))
    ensures Join(Stage(segs, Body(i), rep), NUL) == segs[0] + ([NUL] + Join(Stage(segs[1..], Body(i), rep), NUL))
  {
    var r := Stage(segs[1..], Body(i), rep);
    assert |segs| == 2 ==> segs == [segs[0]] + r;
    assert Stage(segs, Body(i), rep) == [segs[0]] + r && ([segs[0]] + r)[1..] == r;
    Assoc(segs[0], [NUL], Join(r, NUL));
  }

  lemma StageHit(segs: seq<string>, i: nat, rep: string)
    requires |segs| >= 3 && AllNulFree(segs) && segs[1] == Body(i)
    ensures segs[0] + Replace([NUL] + Join(segs[1..], NUL), Sent(i), rep) == Join(Stage(segs, Body(i), rep), NUL)
    decreases |segs|, 0
  {
    var a, tail := segs[0], segs[2..];
    assert segs[1..][1..] == tail && segs[1..][0] == Body(i);
    Assoc([NUL], Body(i) + [NUL], Join(tail, NUL));
    Assoc([NUL], Body(i), [NUL]);
    assert [NUL] + Join(segs[1..], NUL) == Sent(i) + Join(tail, NUL);
    ReplaceHit(Sent(i), Join(tail, NUL), rep);
    ReplaceIsStage(tail, i, rep);
    var r := Stage(tail, Body(i), rep);
    StagePrefix(a + rep, tail, Body(i), rep);
    assert [a + rep + tail[0]] + tail[1..] == [segs[0] + rep + segs[2]] + segs[3..];
    JoinPrefix(a + rep, r);
    Assoc(a, rep, Join(r, NUL));
  }

  // ------------------------------------------------------------------ restoring

  /** `_restore`, from placeholder k on. */
  function RestoreFrom(text: string, store: seq<string>, k: nat): string
    decreases |store|
  {
    if store == [] then text else RestoreFrom(Replace(text, Sent(k), store[0]), store[1..], k + 1)
  }

  /** The loop of `_restore`. */
  method Restore(text: string, store: seq<string>) returns (out: string)
    ensures out == RestoreFrom(text, store, 0)
  {
    out := text;
    assert store[0..] == store;
    for i := 0 to |store|
      invariant RestoreFrom(out, store[i..], i) == RestoreFrom(text, store, 0)
    {
      assert store[i..][1..] == store[i + 1..];
      out := Replace(out, Sent(i), store[i]);
    }
  }

  ghost function StagesFrom(segs: seq<string>, store: seq<string>, k: nat): (r: seq<string>)
    requires |segs| >= 1
    ensures |r| >= 1
    decreases |store|
  {
    if store == [] then segs else StagesFrom(Stage(segs, Body(k), store[0]), store[1..], k + 1)
  }

  lemma {:induction false} StageIsNulFree(segs: seq<string>, body: string, rep: string)
    requires |segs| >= 1 && AllNulFree(segs) && NulFree(rep)
    ensures AllNulFree(Stage(segs, body, rep))
    decreases |segs|
  {
    if |segs| >= 3 {
      if segs[1] == body {
        StageIsNulFree([segs[0] + rep + segs[2]] + segs[3..], body, rep);
      } else {
        StageIsNulFree(segs[1..], body, rep);
      }
    }
  }

  lemma {:induction false} RestoreIsStages(segs: seq<string>, store: seq<string>, k: nat)
    requires |segs| >= 1 && AllNulFree(segs) && AllNulFree(store)
    ensures RestoreFrom(Join(segs, NUL), store, k) == Join(StagesFrom(segs, store, k), NUL)
    ensures AllNulFree(StagesFrom(segs, store, k))
    decreases |store|
  {
    if store != [] {
      ReplaceIsStage(segs, k, store[0]);
      StageIsNulFree(segs, Body(k), store[0]);
      RestoreIsStages(Stage(segs, Body(k), store[0]), store[1..], k + 1);
    }
  }

  // ------------------------------------------------------------------ when restoring undoes protecting

  /** No stretch between two others is this body. */
  ghost predicate QuietAfterFirst(segs: seq<string>, body: string) {
    forall k :: 1 <= k < |segs| - 1 ==> segs[k] != body
  }

  lemma {:induction false} StageOfQuiet(segs: seq<string>, body: string, rep: string)
    requires |segs| >= 1 && QuietAfterFirst(segs, body)
    ensures Stage(segs, body, rep) == segs
    decreases |segs|
  {
    if |segs| >= 3 {
      assert segs[1] != body;
      StageOfQuiet(segs[1..], body, rep);
      assert [segs[0]] + segs[1..] == segs;
    }
  }

  lemma BodiesDiffer(i: nat, j: nat)
    requires i != j
    ensures Body(i) != Body(j)
  {
    if Body(i) == Body(j) {
      assert Decimal(i) == Body(i)[1..|Body(i)| - 1] == Body(j)[1..|Body(j)| - 1] == Decimal(j);
      DecimalInjective(i, j);
    }
  }

  /** A gap between two later placeholders that spells the body of an earlier one: with the NUL characters around it, it
      reads as that placeholder. The gaps stand before placeholders k, k + 1, … */
  ghost predicate Deceives(gaps: seq<string>, k: nat, t: int, i: nat) {
    1 <= t < |gaps| - 1 && i < k + t - 1 && gaps[t] == Body(i)
  }

  /** No stretch behind the first of the placeholders numbered from k reads as placeholder i, which is gone. */
  lemma {:induction false} WovenIsQuiet(gaps: seq<string>, k: nat, i: nat)
    requires |gaps| >= 1 && i < k && forall t :: 1 <= t < |gaps| - 1 ==> gaps[t] != Body(i)
    ensures QuietAfterFirst(Woven(gaps, k), Body(i))
    decreases |gaps|
  {
    if |gaps| > 1 {
      var rest := Woven(gaps[1..], k + 1);
      WovenIsQuiet(gaps[1..], k + 1, i);
      BodiesDiffer(i, k);
      var w := Woven(gaps, k);
      forall m | 1 <= m < |w| - 1 ensures w[m] != Body(i) {
        if m >= 2 {
          assert w[m] == rest[m - 2];
          if m == 2 { assert w[2] == gaps[1]; }
        }
      }
    }
  }

  function Merged(gaps: seq<string>, rep: string): seq<string>
    requires |gaps| >= 2
  {
    [gaps[0] + rep + gaps[1]] + gaps[2..]
  }

  /** Stage k on the placeholders from k on, with nothing deceptive for k: its region goes in, the rest is untouched. */
  lemma QuietStage(gaps: seq<string>, k: nat, rep: string)
    requires |gaps| >= 2 && forall t :: 2 <= t < |gaps| - 1 ==> gaps[t] != Body(k)
    ensures Stage(Woven(gaps, k), Body(k), rep) == Woven(Merged(gaps, rep), k + 1)
  {
    var merged := Merged(gaps, rep);
    MergeFirst(gaps, k, rep);
    forall t | 1 <= t < |merged| - 1 ensures merged[t] != Body(k) { assert merged[t] == gaps[t + 1]; }
    WovenIsQuiet(merged, k + 1, k);
    StageOfQuiet(Woven(merged, k + 1), Body(k), rep);
  }

  lemma StageMerges(a: string, body: string, rest: seq<string>, rep: string)
    requires |rest| >= 1
    ensures Stage([a, body] + rest, body, rep) == Stage([a + rep + rest[0]] + rest[1..], body, rep)
  {
    var w := [a, body] + rest;
    assert w[2] == rest[0] && w[3..] == rest[1..];
  }

  lemma MergeFirst(gaps: seq<string>, k: nat, rep: string)
    requires |gaps| >= 2
    ensures Stage(Woven(gaps, k), Body(k), rep) == Stage(Woven(Merged(gaps, rep), k + 1), Body(k), rep)
  {
    StageMerges(gaps[0], Body(k), Woven(gaps[1..], k + 1), rep);
    WovenHead(gaps[1..], k + 1, gaps[0] + rep + gaps[1]);
    assert gaps[1..][1..] == gaps[2..];
  }

  /** Another first gap changes only the first stretch. */
  lemma WovenHead(gaps: seq<string>, k: nat, g: string)
    requires |gaps| >= 1
    ensures Woven([g] + gaps[1..], k) == [g] + Woven(gaps, k)[1..]
  {
    var h := [g] + gaps[1..];
    if |gaps| > 1 { assert h[1..] == gaps[1..]; }
  }

  ghost predicate Deceptive(gaps: seq<string>, k: nat) {
    exists t, i :: k <= i && Deceives(gaps, k, t, i)
  }

  lemma InterleaveHead(p: string, gaps: seq<string>, store: seq<string>)
    requires |gaps| == |store| + 1
    ensures Interleave([p + gaps[0]] + gaps[1..], store) == p + Interleave(gaps, store)
  {
    var h := [p + gaps[0]] + gaps[1..];
    if store != [] {
      assert h[1..] == gaps[1..];
      Assoc(p, gaps[0], store[0]);
      Assoc(p, gaps[0] + store[0], Interleave(gaps[1..], store[1..]));
    }
  }

  lemma MergedInterleave(gaps: seq<string>, store: seq<string>)
    requires |gaps| == |store| + 1 && store != []
    ensures Interleave(Merged(gaps, store[0]), store[1..]) == Interleave(gaps, store)
  {
    assert [gaps[0] + store[0] + gaps[1..][0]] + gaps[1..][1..] == Merged(gaps, store[0]);
    InterleaveHead(gaps[0] + store[0], gaps[1..], store[1..]);
  }

  lemma {:induction false} RestoresQuiet(gaps: seq<string>, store: seq<string>, k: nat)
    requires |gaps| == |store| + 1 && !Deceptive(gaps, k)
    ensures StagesFrom(Woven(gaps, k), store, k) == [Interleave(gaps, store)]
    decreases |store|
  {
    if store != [] {
      forall t | 2 <= t < |gaps| - 1 ensures gaps[t] != Body(k) { assert !Deceives(gaps, k, t, k); }
      QuietStage(gaps, k, store[0]);
      var m := Merged(gaps, store[0]);
      if Deceptive(m, k + 1) {
        var t, i :| k + 1 <= i && Deceives(m, k + 1, t, i);
        assert m[t] == gaps[t + 1];
        assert Deceives(gaps, k, t + 1, i);
      }
      RestoresQuiet(m, store[1..], k + 1);
      MergedInterleave(gaps, store);
    }
  }

  // ------------------------------------------------------------------ a deceptive gap breaks a placeholder

  /** Some stretch in the place of a placeholder holds more than the two SOH characters of one. The first stretch is a
      gap or a placeholder, then they alternate. */
  ghost predicate Broken(segs: seq<string>, atGap: bool) {
    segs != [] && ((!atGap && CountChar(segs[0], SOH) >= 3) || Broken(segs[1..], !atGap))
  }

  lemma BodyCount(i: nat)
    ensures CountChar(Body(i), SOH) == 2
  {
    assert SOH !in Decimal(i);
    CountZero(Decimal(i), SOH);
    CountAppend([SOH], Decimal(i), SOH);
    CountAppend([SOH] + Decimal(i), [SOH], SOH);
  }

  lemma MergeCount(a: string, rep: string, c: string)
    ensures CountChar(a + rep + c, SOH) == CountChar(a, SOH) + CountChar(rep, SOH) + CountChar(c, SOH)
  {
    CountAppend(a, rep, SOH);
    CountAppend(a + rep, c, SOH);
  }

  lemma {:induction false} StageKeepsBroken(segs: seq<string>, body: string, rep: string, atGap: bool)
    requires |segs| >= 1 && Broken(segs, atGap) && CountChar(body, SOH) == 2
    ensures Broken(Stage(segs, body, rep), atGap)
    decreases |segs|
  {
    if |segs| >= 3 {
      if segs[1] == body {
        var m := [segs[0] + rep + segs[2]] + segs[3..];
        MergeCount(segs[0], rep, segs[2]);
        assert m[1..] == segs[3..] && segs[1..][1..] == segs[2..] && segs[2..][1..] == segs[3..];
        assert Broken(segs[1..], !atGap) == ((atGap && CountChar(segs[1], SOH) >= 3) || Broken(segs[2..], atGap));
        StageKeepsBroken(m, body, rep, atGap);
      } else {
        if Broken(segs[1..], !atGap) { StageKeepsBroken(segs[1..], body, rep, !atGap); }
        var r := Stage(segs[1..], body, rep);
        assert ([segs[0]] + r)[1..] == r;
      }
    }
  }

  /** Stretches in the place of placeholders hold two SOH characters or more, and none is this body. */
  ghost predicate Others(segs: seq<string>, body: string, atGap: bool) {
    segs != [] ==> (!atGap ==> CountChar(segs[0], SOH) >= 2 && segs[0] != body) && Others(segs[1..], body, !atGap)
  }

  /** A gap between two placeholders is this body. */
  ghost predicate Fake(segs: seq<string>, body: string, atGap: bool) {
    |segs| >= 3 && ((!atGap && segs[1] == body) || Fake(segs[1..], body, !atGap))
  }

  lemma {:induction false} StageBreaks(segs: seq<string>, body: string, rep: string, atGap: bool)
    requires |segs| >= 1 && CountChar(body, SOH) == 2 && Others(segs, body, atGap) && Fake(segs, body, atGap)
    ensures Broken(Stage(segs, body, rep), atGap)
    decreases |segs|
  {
    assert Others(segs[1..], body, !atGap) && Others(segs[1..][1..], body, atGap) && segs[1..][1..] == segs[2..];
    if segs[1] == body {
      var m := [segs[0] + rep + segs[2]] + segs[3..];
      MergeCount(segs[0], rep, segs[2]);
      StageKeepsBroken(m, body, rep, atGap);
    } else {
      StageBreaks(segs[1..], body, rep, !atGap);
      var r := Stage(segs[1..], body, rep);
      assert ([segs[0]] + r)[1..] == r;
    }
  }

  lemma {:induction false} StagesKeepBroken(segs: seq<string>, store: seq<string>, k: nat)
    requires |segs| >= 1 && Broken(segs, true)
    ensures Broken(StagesFrom(segs, store, k), true)
    decreases |store|
  {
    if store != [] {
      BodyCount(k);
      StageKeepsBroken(segs, Body(k), store[0], true);
      StagesKeepBroken(Stage(segs, Body(k), store[0]), store[1..], k + 1);
    }
  }

  lemma {:induction false} WovenOthers(gaps: seq<string>, k: nat, i: nat)
    requires |gaps| >= 1 && i < k
    ensures Others(Woven(gaps, k), Body(i), true)
    decreases |gaps|
  {
    var w := Woven(gaps, k);
    if |gaps| > 1 {
      WovenOthers(gaps[1..], k + 1, i);
      BodiesDiffer(i, k);
      BodyCount(k);
      assert w[1..][0] == Body(k) && w[1..][1..] == Woven(gaps[1..], k + 1);
    } else {
      assert w[1..] == [];
    }
  }

  lemma {:induction false} WovenFake(gaps: seq<string>, k: nat, t: int, body: string)
    requires 1 <= t < |gaps| - 1 && gaps[t] == body
    ensures Fake(Woven(gaps, k), body, true)
    decreases |gaps|
  {
    var w := Woven(gaps, k);
    assert w[1..][1..] == Woven(gaps[1..], k + 1) && w[1..][1] == gaps[1];
    if t > 1 {
      WovenFake(gaps[1..], k + 1, t - 1, body);
    }
  }

  lemma FakeBreaks(gaps: seq<string>, k: nat, u: int, rep: string)
    requires 2 <= u < |gaps| - 1 && gaps[u] == Body(k)
    ensures Broken(Stage(Woven(gaps, k), Body(k), rep), true)
  {
    var m := Merged(gaps, rep);
    MergeFirst(gaps, k, rep);
    WovenOthers(m, k + 1, k);
    assert m[u - 1] == gaps[u];
    WovenFake(m, k + 1, u - 1, Body(k));
    BodyCount(k);
    StageBreaks(Woven(m, k + 1), Body(k), rep, true);
  }

  lemma {:induction false} DeceptionBreaks(gaps: seq<string>, store: seq<string>, k: nat)
    requires |gaps| == |store| + 1 && Deceptive(gaps, k)
    ensures Broken(StagesFrom(Woven(gaps, k), store, k), true)
    decreases |store|
  {
    var t, i :| k <= i && Deceives(gaps, k, t, i);
    var m := Merged(gaps, store[0]);
    if u :| 2 <= u < |gaps| - 1 && gaps[u] == Body(k) {
      FakeBreaks(gaps, k, u, store[0]);
      StagesKeepBroken(Stage(Woven(gaps, k), Body(k), store[0]), store[1..], k + 1);
    } else {
      QuietStage(gaps, k, store[0]);
      assert m[t - 1] == gaps[t] && Deceives(m, k + 1, t - 1, i);
      DeceptionBreaks(m, store[1..], k + 1);
    }
  }

  /** For gaps and regions without NUL, putting the regions back gives the source if and only if no gap between two
      placeholders spells, between SOH characters, the number of a placeholder before both. */
  lemma RestoreUndoesProtectIff(gaps: seq<string>, store: seq<string>)
    requires |gaps| == |store| + 1 && AllNulFree(gaps) && AllNulFree(store)
    ensures RestoreFrom(Marked(gaps, 0), store, 0) == Interleave(gaps, store) <==> !Deceptive(gaps, 0)
  {
    MarkedIsWoven(gaps, 0);
    WovenIsNulFree(gaps, 0);
    RestoreIsStages(Woven(gaps, 0), store, 0);
    var r := StagesFrom(Woven(gaps, 0), store, 0);
    if Deceptive(gaps, 0) {
      DeceptionBreaks(gaps, store, 0);
      assert |r| >= 2;
      assert NUL in r[0] + [NUL] + Join(r[1..], NUL);
      InterleaveIsNulFree(gaps, store);
    } else {
      RestoresQuiet(gaps, store, 0);
    }
  }

  lemma {:induction false} InterleaveIsNulFree(gaps: seq<string>, store: seq<string>)
    requires |gaps| == |store| + 1 && AllNulFree(gaps) && AllNulFree(store)
    ensures NulFree(Interleave(gaps, store))
    decreases |store|
  {
    if store != [] { InterleaveIsNulFree(gaps[1..], store[1..]); }
  }

  /** Without SOH characters in the source there is no such gap. */
  lemma NoDeceptionWithoutSoh(gaps: seq<string>)
    requires forall t :: 0 <= t < |gaps| ==> SOH !in gaps[t]
    ensures !Deceptive(gaps, 0)
  {
    forall t: int, i: nat ensures !Deceives(gaps, 0, t, i) {
      assert Body(i)[0] == SOH;
    }
  }

  /** Three regions, the first two side by side, and U+0001, 0, U+0001 before the third: restoring does not give
      the source back, whatever the regions are. */
  lemma ADeceptiveSource(store: seq<string>)
    requires |store| == 3 && AllNulFree(store)
    ensures var gaps := ["", "", [SOH] + "0" + [SOH], ""];
            AllNulFree(gaps) && RestoreFrom(Marked(gaps, 0), store, 0) != Interleave(gaps, store)
  {
    var gaps := ["", "", [SOH] + "0" + [SOH], ""];
    assert Decimal(0) == "0";
    assert Body(0) == gaps[2];
    assert Deceives(gaps, 0, 2, 0);
    RestoreUndoesProtectIff(gaps, store);
  }
}

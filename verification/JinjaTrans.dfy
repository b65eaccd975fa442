/** Which parts of a template are hidden as translated (`scan_template` in tools/i18n_inventory.py), read off the
    regions and their text: what stands between a trans tag and the next endtrans tag. */
module JinjaTrans {
  import opened Text
  import opened JinjaRegions
  import opened JinjaTags
  import opened TemplateMask

  // ------------------------------------------------------------------ the word of a block

  /** Behind blanks, signs and line ends, and then other white space, comes the word, and then white space or nothing
      but blanks, signs and line ends. */
  ghost predicate SaysWord(s: string, w: string) {
    exists j: nat, k: nat ::
      && EdgesIn(s, 0, j) && SpacesIn(s, j, k) && k + |w| <= |s| && s[k..k + |w|] == w
      && (EdgesIn(s, k + |w|, |s|) || IsSpace(s[k + |w|]))
  }

  ghost predicate IsWord(w: string) { w != "" && forall i :: 0 <= i < |w| ==> !IsSpace(w[i]) && !Edge(w[i]) }

  lemma {:induction false} WordFromIs(s: string)
    ensures var w := WordFrom(s);
            w <= s && (|w| < |s| ==> IsSpace(s[|w|])) && forall i :: 0 <= i < |w| ==> !IsSpace(w[i])
  {
    if s != "" && !IsSpace(s[0]) { WordFromIs(s[1..]); }
  }

  /** The first word starts behind the white space. */
  lemma {:induction false} FirstWordIs(s: string) returns (k: nat)
    ensures SpacesIn(s, 0, k) && (k < |s| ==> !IsSpace(s[k]))
    ensures FirstWord(s) == if k == |s| then None else Some(WordFrom(s[k..]))
    decreases |s|
  {
    if s == "" || !IsSpace(s[0]) {
      k := 0;
      assert s[0..] == s;
    } else {
      k := FirstWordIs(s[1..]);
      assert s[1..][k..] == s[k + 1..];
      assert forall i :: 0 < i < |s| ==> s[1..][i - 1] == s[i];
      k := k + 1;
    }
  }

  lemma WordBehind(s: string, w: string)
    requires IsWord(w)
    ensures WordFrom(s) == w <==> w <= s && (|w| < |s| ==> IsSpace(s[|w|]))
  {
    WordFromIs(s);
    var v := WordFrom(s);
    assert |w| < |v| ==> v[|w|] == s[|w|];
  }

  lemma WordIsSaid(s: string, w: string)
    requires IsWord(w) && FirstWord(StripEdges(s)) == Some(w)
    ensures SaysWord(s, w)
  {
    var t := StripEdges(s);
    var a, b := EdgesOff(s);
    var k := FirstWordIs(t);
    WordBehind(t[k..], w);
    Shifted(s, a, b, k, w);
  }

  /** A word in the text without its edges, found in the text itself. */
  lemma Shifted(s: string, a: nat, b: nat, k: nat, w: string)
    requires a <= b <= |s| && EdgesIn(s, 0, a) && EdgesIn(s, b, |s|) && k <= b - a && SpacesIn(s[a..b], 0, k)
    requires w <= s[a..b][k..] && (|w| < |s[a..b][k..]| ==> IsSpace(s[a..b][k..][|w|]))
    ensures SaysWord(s, w)
  {
    var t := s[a..b];
    assert t[k..] == s[a + k..b];
    assert s[a + k..a + k + |w|] == w;
    assert forall i :: a <= i < b ==> s[i] == t[i - a];
    assert EdgesIn(s, 0, a) && SpacesIn(s, a, a + k);
  }

  lemma SaidIsWord(s: string, w: string)
    requires IsWord(w) && SaysWord(s, w)
    ensures StripEdges(s) != "" && FirstWord(StripEdges(s)) == Some(w)
  {
    var a, b := EdgesOff(s);
    var j: nat, p: nat :|
      && EdgesIn(s, 0, j) && SpacesIn(s, j, p) && p + |w| <= |s| && s[p..p + |w|] == w
      && (EdgesIn(s, p + |w|, |s|) || IsSpace(s[p + |w|]));
    WordStands(s, w, j, p, a, b);
    Unshifted(s, a, b, p, w);
    SpacesThenWord(s[a..b], p - a, w);
  }

  lemma Unshifted(s: string, a: nat, b: nat, p: nat, w: string)
    requires IsWord(w) && SpacesIn(s, a, p) && p + |w| <= b <= |s| && s[p..p + |w|] == w
    requires b == p + |w| || IsSpace(s[p + |w|])
    ensures var t := s[a..b];
            SpacesIn(t, 0, p - a) && w <= t[p - a..] && t[p - a..] != ""
            && (|w| < |t[p - a..]| ==> IsSpace(t[p - a..][|w|]))
  {
    var t := s[a..b];
    assert forall i :: 0 <= i < |t| ==> t[i] == s[a + i];
    assert t[p - a..] == s[p..b];
  }

  lemma SpacesThenWord(t: string, p: nat, w: string)
    requires IsWord(w) && SpacesIn(t, 0, p) && w <= t[p..] && (|w| < |t[p..]| ==> IsSpace(t[p..][|w|]))
    ensures t != "" && FirstWord(t) == Some(w)
  {
    var k := FirstWordIs(t);
    assert t[p] == t[p..][0] == w[0];
    WordBehind(t[p..], w);
  }

  /** The block's word is the one it says. */
  lemma WordIff(s: string, w: string)
    requires IsWord(w)
    ensures StripEdges(s) != "" && FirstWord(StripEdges(s)) == Some(w) <==> SaysWord(s, w)
  {
    if SaysWord(s, w) { SaidIsWord(s, w); }
    if FirstWord(StripEdges(s)) == Some(w) { WordIsSaid(s, w); }
  }

  lemma WordStands(s: string, w: string, j: nat, p: nat, a: nat, b: nat)
    requires IsWord(w) && EdgesIn(s, 0, j) && SpacesIn(s, j, p) && p + |w| <= |s| && s[p..p + |w|] == w
    requires EdgesIn(s, p + |w|, |s|) || IsSpace(s[p + |w|])
    requires a <= b <= |s| && EdgesIn(s, 0, a) && EdgesIn(s, b, |s|) && (a < b ==> !Edge(s[a]) && !Edge(s[b - 1]))
    ensures a <= p && p + |w| <= b && SpacesIn(s, a, p) && s[p] == w[0]
    ensures b == p + |w| || IsSpace(s[p + |w|])
  {
    var v := s[p..p + |w|];
    assert s[p] == v[0] && s[p + |w| - 1] == v[|w| - 1];
  }

  // ------------------------------------------------------------------ trans blocks

  ghost predicate Says(src: string, r: Region, w: string) {
    r.kind.Block? && r.innerStart <= r.innerEnd <= |src| && SaysWord(src[r.innerStart..r.innerEnd], w)
  }

  ghost predicate Marks(src: string, r: Region) { Says(src, r, "trans") || Says(src, r, "endtrans") }

  /** Region k says endtrans, and no region from i up to it says trans or endtrans. */
  ghost predicate ClosesFrom(src: string, rs: seq<Region>, i: nat, k: nat) {
    i <= k < |rs| && Says(src, rs[k], "endtrans") && forall m :: i <= m < k ==> !Marks(src, rs[m])
  }

  /** From behind a trans tag up to the next endtrans tag, with no other trans tag between them. */
  ghost predicate IsTrans(src: string, rs: seq<Region>, a: nat, b: nat) {
    exists i: nat, k: nat :: i < |rs| && Says(src, rs[i], "trans") && ClosesFrom(src, rs, i + 1, k)
                             && a == rs[i].end && b == rs[k].start
  }

  lemma WordsAreSaid(src: string, r: Region)
    requires r.innerStart <= r.innerEnd <= |src| && BlockWord(src, r).Some?
    ensures BlockWord(src, r).value == "trans" <==> Says(src, r, "trans")
    ensures BlockWord(src, r).value == "endtrans" <==> Says(src, r, "endtrans")
  {
    WordIff(src[r.innerStart..r.innerEnd], "trans");
    WordIff(src[r.innerStart..r.innerEnd], "endtrans");
  }

  /** The range of a block that opened before these regions and ends among them. */
  ghost predicate EndsOpen(src: string, rs: seq<Region>, open: Option<nat>, a: nat, b: nat) {
    open == Some(a) && exists k: nat :: ClosesFrom(src, rs, 0, k) && b == rs[k].start
  }

  lemma ClosesTail(src: string, rs: seq<Region>, i: nat, k: nat)
    requires rs != []
    ensures ClosesFrom(src, rs[1..], i, k) <==> ClosesFrom(src, rs, i + 1, k + 1)
    ensures ClosesFrom(src, rs, 0, 0) <==> Says(src, rs[0], "endtrans")
    ensures ClosesFrom(src, rs, 0, k + 1) <==> !Marks(src, rs[0]) && ClosesFrom(src, rs[1..], 0, k)
  {
    var rest := rs[1..];
    assert forall m :: 0 <= m < |rest| ==> rest[m] == rs[m + 1];
    if ClosesFrom(src, rest, i, k) {
      forall m | i + 1 <= m < k + 1 ensures !Marks(src, rs[m]) { assert rest[m - 1] == rs[m]; }
    }
    if !Marks(src, rs[0]) && ClosesFrom(src, rest, 0, k) {
      forall m | 0 <= m < k + 1 ensures !Marks(src, rs[m]) { if m > 0 { assert rest[m - 1] == rs[m]; } }
    }
  }

  lemma TransIn(src: string, rs: seq<Region>, a: nat, b: nat)
    requires rs != [] && IsTrans(src, rs, a, b)
    ensures IsTrans(src, rs[1..], a, b)
            || (Says(src, rs[0], "trans") && EndsOpen(src, rs[1..], Some(rs[0].end), a, b))
  {
    var i: nat, k: nat :| i < |rs| && Says(src, rs[i], "trans") && ClosesFrom(src, rs, i + 1, k) && a == rs[i].end
                          && b == rs[k].start;
    ClosesTail(src, rs, i, k - 1);
    assert rs[k] == rs[1..][k - 1];
    if i > 0 { assert rs[1..][i - 1] == rs[i] && ClosesFrom(src, rs[1..], i, k - 1); }
  }

  lemma TransOut(src: string, rs: seq<Region>, a: nat, b: nat)
    requires rs != [] && IsTrans(src, rs[1..], a, b)
    ensures IsTrans(src, rs, a, b)
  {
    var rest := rs[1..];
    var i: nat, k: nat :| i < |rest| && Says(src, rest[i], "trans") && ClosesFrom(src, rest, i + 1, k)
                          && a == rest[i].end && b == rest[k].start;
    ClosesTail(src, rs, i + 1, k);
    assert rs[i + 1] == rest[i] && rs[k + 1] == rest[k];
  }

  lemma TransTail(src: string, rs: seq<Region>, a: nat, b: nat)
    requires rs != []
    ensures IsTrans(src, rs, a, b)
            <==> IsTrans(src, rs[1..], a, b) || (Says(src, rs[0], "trans")
                                                 && EndsOpen(src, rs[1..], Some(rs[0].end), a, b))
  {
    if IsTrans(src, rs, a, b) { TransIn(src, rs, a, b); }
    if IsTrans(src, rs[1..], a, b) { TransOut(src, rs, a, b); }
    if Says(src, rs[0], "trans") && EndsOpen(src, rs[1..], Some(rs[0].end), a, b) {
      var k: nat :| ClosesFrom(src, rs[1..], 0, k) && b == rs[1..][k].start;
      ClosesTail(src, rs, 0, k);
      assert rs[k + 1] == rs[1..][k];
    }
  }

  lemma OpenTail(src: string, rs: seq<Region>, open: Option<nat>, a: nat, b: nat)
    requires rs != []
    ensures EndsOpen(src, rs, open, a, b)
            <==> open == Some(a)
                 && (if Says(src, rs[0], "endtrans") then b == rs[0].start
                     else !Marks(src, rs[0]) && EndsOpen(src, rs[1..], open, a, b))
  {
    var rest := rs[1..];
    if EndsOpen(src, rs, open, a, b) {
      var k: nat :| ClosesFrom(src, rs, 0, k) && b == rs[k].start;
      if k > 0 { ClosesTail(src, rs, 0, k - 1); assert rest[k - 1] == rs[k]; }
    }
    ClosesTail(src, rs, 0, 0);
    if !Marks(src, rs[0]) && EndsOpen(src, rest, open, a, b) {
      var k: nat :| ClosesFrom(src, rest, 0, k) && b == rest[k].start;
      ClosesTail(src, rs, 0, k);
    }
  }

  /** The ranges that are hidden are exactly those of the trans blocks. */
  lemma {:induction false} RangesAreTrans(src: string, rs: seq<Region>, open: Option<nat>, a: nat, b: nat)
    requires InRange(src, rs) && TransRanges(src, rs, open).Some?
    ensures (a, b) in TransRanges(src, rs, open).value <==> IsTrans(src, rs, a, b) || EndsOpen(src, rs, open, a, b)
    decreases |rs|
  {
    if rs != [] {
      var r, word := rs[0], BlockWord(src, rs[0]).value;
      var open' := if word == "trans" then Some(r.end) else if word == "endtrans" && open.Some? then None else open;
      WordsAreSaid(src, r);
      RangesAreTrans(src, rs[1..], open', a, b);
      TransTail(src, rs, a, b);
      OpenTail(src, rs, open, a, b);
    }
  }

  ghost predicate InTransBlock(src: string, rs: seq<Region>, p: nat) {
    exists a: nat, b: nat :: IsTrans(src, rs, a, b) && a <= p < b
  }

  /** The mask, character by character: line ends stay, what stands in trans blocks becomes blanks, what is left of the
      tags becomes U+0001, and the rest stays. */
  lemma MaskIsRead(src: string, rs: seq<Region>, masked: string, p: nat)
    requires IsMask(src, rs, masked) && p < |src|
    ensures masked[p] == if src[p] == '\n' then '\n' else if InTransBlock(src, rs, p) then ' '
                         else if InTag(rs, |rs|, p) then HIDDEN else src[p]
  {
    var ranges := TransRanges(src, rs, None).value;
    if InTransBlock(src, rs, p) {
      var a: nat, b: nat :| IsTrans(src, rs, a, b) && a <= p < b;
      RangesAreTrans(src, rs, None, a, b);
      var k :| 0 <= k < |ranges| && ranges[k] == (a, b);
      assert ranges[k].0 <= p < ranges[k].1;
    }
    if InTrans(ranges, |ranges|, p) {
      var k :| 0 <= k < |ranges| && ranges[k].0 <= p < ranges[k].1;
      assert ranges[k] in ranges;
      RangesAreTrans(src, rs, None, ranges[k].0, ranges[k].1);
    }
  }
}

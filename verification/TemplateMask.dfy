/** The mask of `scan_template` and line numbers (`_line_of`) in tools/i18n_inventory.py. */
module TemplateMask {
  import opened Text
  import opened JinjaRegions

  // ------------------------------------------------------------------ trans blocks

  /** `s.split(None, 1)[0]`: the first white-space separated word. None where there is none and the index is out of
      range. */
  function FirstWord(s: string): (r: Option<string>)
    ensures r.None? <==> AllSpace(s)
    decreases |s|
  {
    if s == "" then None else if IsSpace(s[0]) then FirstWord(s[1..]) else Some(WordFrom(s))
  }

  function WordFrom(s: string): string {
    if s == "" || IsSpace(s[0]) then "" else [s[0]] + WordFrom(s[1..])
  }

  /** The word of a block, `body.split(None, 1)[0] if body else ""`, and "" for other regions. */
  function BlockWord(src: string, r: Region): Option<string>
    requires r.innerStart <= r.innerEnd <= |src|
  {
    if r.kind.Block? && Inside(src, r) != "" then FirstWord(Inside(src, r)) else Some("")
  }

  /** What stands in the block, stripped of blanks, tabs, line ends and the marks - and +, is white space of another
      kind. */
  predicate BlankBlock(src: string, r: Region)
    requires r.innerStart <= r.innerEnd <= |src|
  {
    r.kind.Block? && Inside(src, r) != "" && AllSpace(Inside(src, r))
  }

  /** The ranges between a trans and an endtrans tag, when a trans block opened at `open`; None where a block has no
      word. */
  function TransRanges(src: string, rs: seq<Region>, open: Option<nat>): Option<seq<(nat, nat)>>
    requires InRange(src, rs)
    decreases |rs|
  {
    if rs == [] then Some([])
    else
      var r := rs[0];
      var word := BlockWord(src, r);
      if word.None? then None
      else if word.value == "trans" then TransRanges(src, rs[1..], Some(r.end))
      else if word.value == "endtrans" && open.Some? then
        var rest := TransRanges(src, rs[1..], None);
        if rest.None? then None else Some([(open.value, r.start)] + rest.value)
      else TransRanges(src, rs[1..], open)
  }

  lemma {:induction false} TransFailsIff(src: string, rs: seq<Region>, open: Option<nat>)
    requires InRange(src, rs)
    ensures TransRanges(src, rs, open).None? <==> exists k :: 0 <= k < |rs| && BlankBlock(src, rs[k])
    decreases |rs|
  {
    if rs != [] {
      var r, rest := rs[0], rs[1..];
      var word := BlockWord(src, r);
      assert word.None? <==> BlankBlock(src, r);
      if word.Some? {
        var open' := if word.value == "trans" then Some(r.end) else if word.value == "endtrans" then None else open;
        TransFailsIff(src, rest, open');
        TailHasBlank(src, rs);
      }
    }
  }

  lemma TailHasBlank(src: string, rs: seq<Region>)
    requires InRange(src, rs) && rs != [] && !BlankBlock(src, rs[0])
    ensures (exists k :: 0 <= k < |rs[1..]| && BlankBlock(src, rs[1..][k]))
            <==> exists k :: 0 <= k < |rs| && BlankBlock(src, rs[k])
  {
    var rest := rs[1..];
    if exists k :: 0 <= k < |rest| && BlankBlock(src, rest[k]) {
      var k :| 0 <= k < |rest| && BlankBlock(src, rest[k]);
      assert rs[k + 1] == rest[k];
    }
    if exists k :: 0 <= k < |rs| && BlankBlock(src, rs[k]) {
      var k :| 0 <= k < |rs| && BlankBlock(src, rs[k]);
      assert rest[k - 1] == rs[k];
    }
  }

  ghost predicate RangesOk(src: string, ranges: seq<(nat, nat)>) {
    forall k :: 0 <= k < |ranges| ==> ranges[k].0 <= ranges[k].1 <= |src|
  }

  lemma {:induction false} TransRangesOk(src: string, rs: seq<Region>, open: Option<nat>, from: nat, raw: bool)
    requires Tile(src, rs, from, raw) && InRange(src, rs) && (open.Some? ==> open.value <= from)
    ensures TransRanges(src, rs, open).Some? ==> RangesOk(src, TransRanges(src, rs, open).value)
    decreases |rs|
  {
    if rs != [] && BlockWord(src, rs[0]).Some? {
      var r, word := rs[0], BlockWord(src, rs[0]).value;
      var open' := if word == "trans" then Some(r.end) else if word == "endtrans" && open.Some? then None else open;
      TransRangesOk(src, rs[1..], open', r.end, IsRaw(src, r));
    }
  }

  // ------------------------------------------------------------------ the mask

  ghost predicate InTag(rs: seq<Region>, n: nat, p: nat) {
    exists k :: 0 <= k < n <= |rs| && !rs[k].kind.Data? && rs[k].start <= p < rs[k].end
  }

  ghost predicate InTrans(ranges: seq<(nat, nat)>, n: nat, p: nat) {
    exists k :: 0 <= k < n <= |ranges| && ranges[k].0 <= p < ranges[k].1
  }

  const HIDDEN := '\U{1}'

  ghost function TagMaskAt(src: string, rs: seq<Region>, n: nat, p: nat): char
    requires p < |src|
  {
    if src[p] != '\n' && InTag(rs, n, p) then HIDDEN else src[p]
  }

  /** The whole mask: line ends stay, trans blocks become blanks, other tags become U+0001, the rest stays. */
  ghost function MaskAt(src: string, rs: seq<Region>, ranges: seq<(nat, nat)>, n: nat, p: nat): char
    requires p < |src|
  {
    if src[p] == '\n' then '\n' else if InTrans(ranges, n, p) then ' ' else TagMaskAt(src, rs, |rs|, p)
  }

  /** The inner loop over one tag. */
  method HideRegion(chars: array<char>, s: nat, e: nat)
    requires s <= e <= chars.Length
    modifies chars
    ensures forall p :: 0 <= p < chars.Length
                        ==> chars[p] == if s <= p < e && old(chars[p]) != '\n' then HIDDEN else old(chars[p])
  {
    for p := s to e
      invariant forall q :: 0 <= q < chars.Length
                            ==> chars[q] == if s <= q < p && old(chars[q]) != '\n' then HIDDEN else old(chars[q])
    {
      if chars[p] != '\n' { chars[p] := HIDDEN; }
    }
  }

  lemma InTagStep(src: string, rs: seq<Region>, n: nat, p: nat)
    requires n < |rs| && p < |src|
    ensures InTag(rs, n + 1, p) <==> InTag(rs, n, p) || (!rs[n].kind.Data? && rs[n].start <= p < rs[n].end)
  {
    if InTag(rs, n, p) {
      var k :| 0 <= k < n && !rs[k].kind.Data? && rs[k].start <= p < rs[k].end;
      assert 0 <= k < n + 1 && rs[k].start <= p < rs[k].end;
    }
  }

  /** The first loop of `scan_template`: overwrite the tags in place. */
  method HideTags(src: string, rs: seq<Region>) returns (masked: string)
    requires InRange(src, rs)
    ensures |masked| == |src| && forall p :: 0 <= p < |src| ==> masked[p] == TagMaskAt(src, rs, |rs|, p)
  {
    var chars := new char[|src|](i requires 0 <= i < |src| => src[i]);
    for n := 0 to |rs|
      invariant forall p :: 0 <= p < |src| ==> chars[p] == TagMaskAt(src, rs, n, p)
    {
      forall p | 0 <= p < |src|
        ensures InTag(rs, n + 1, p) <==> InTag(rs, n, p) || (!rs[n].kind.Data? && rs[n].start <= p < rs[n].end)
      {
        InTagStep(src, rs, n, p);
      }
      if !rs[n].kind.Data? { HideRegion(chars, rs[n].start, rs[n].end); }
    }
    masked := chars[..];
  }

  /** `"".join("\n" if ch == "\n" else " " for ch in s)`. */
  function Blanked(s: string): (r: string)
    ensures |r| == |s| && forall p :: 0 <= p < |s| ==> r[p] == if s[p] == '\n' then '\n' else ' '
  {
    if s == "" then "" else [if s[0] == '\n' then '\n' else ' '] + Blanked(s[1..])
  }

  lemma BlankedAt(s: string, a: nat, b: nat, p: nat)
    requires a <= b <= |s| && p < |s|
    ensures var t := s[..a] + Blanked(s[a..b]) + s[b..];
            |t| == |s| && t[p] == if a <= p < b && s[p] != '\n' then ' ' else s[p]
  {
    if a <= p < b { assert s[a..b][p - a] == s[p]; }
  }

  lemma InTransStep(ranges: seq<(nat, nat)>, n: nat, p: nat)
    requires n < |ranges|
    ensures InTrans(ranges, n + 1, p) <==> InTrans(ranges, n, p) || ranges[n].0 <= p < ranges[n].1
  {
    if InTrans(ranges, n, p) {
      var k :| 0 <= k < n && ranges[k].0 <= p < ranges[k].1;
      assert 0 <= k < n + 1 && ranges[k].0 <= p < ranges[k].1;
    }
  }

  /** The second loop: trans blocks become blanks. */
  method HideTrans(src: string, rs: seq<Region>, ranges: seq<(nat, nat)>, tags: string) returns (masked: string)
    requires RangesOk(src, ranges) && |tags| == |src|
             && forall p :: 0 <= p < |src| ==> tags[p] == TagMaskAt(src, rs, |rs|, p)
    ensures |masked| == |src| && forall p :: 0 <= p < |src| ==> masked[p] == MaskAt(src, rs, ranges, |ranges|, p)
  {
    masked := tags;
    for n := 0 to |ranges|
      invariant |masked| == |src| && forall p :: 0 <= p < |src| ==> masked[p] == MaskAt(src, rs, ranges, n, p)
    {
      var a, b := ranges[n].0, ranges[n].1;
      forall p: nat ensures InTrans(ranges, n + 1, p) <==> InTrans(ranges, n, p) || a <= p < b {
        InTransStep(ranges, n, p);
      }
      var next := masked[..a] + Blanked(masked[a..b]) + masked[b..];
      forall p | 0 <= p < |src| ensures next[p] == MaskAt(src, rs, ranges, n + 1, p) {
        BlankedAt(masked, a, b, p);
      }
      masked := next;
    }
  }

  /** The ranges so far, followed by those of the rest, are those of the whole. */
  ghost predicate Before(whole: Option<seq<(nat, nat)>>, ranges: seq<(nat, nat)>, rest: Option<seq<(nat, nat)>>) {
    if rest.None? then whole.None? else whole == Some(ranges + rest.value)
  }

  /** The loop over the regions that collects the trans blocks. None stands for the IndexError. */
  method CollectTrans(src: string, rs: seq<Region>) returns (r: Option<seq<(nat, nat)>>)
    requires InRange(src, rs)
    ensures r == TransRanges(src, rs, None)
    ensures r.None? <==> exists k :: 0 <= k < |rs| && BlankBlock(src, rs[k])
  {
    TransFailsIff(src, rs, None);
    var ranges: seq<(nat, nat)>, open: Option<nat> := [], None;
    ghost var whole := TransRanges(src, rs, None);
    assert rs[0..] == rs && (whole.Some? ==> ranges + whole.value == whole.value);
    for n := 0 to |rs|
      invariant Before(whole, ranges, TransRanges(src, rs[n..], open))
    {
      assert rs[n..][1..] == rs[n + 1..];
      var word := BlockWord(src, rs[n]);
      if word.None? { return None; }
      if word.value == "trans" {
        open := Some(rs[n].end);
      } else if word.value == "endtrans" && open.Some? {
        ghost var rest := TransRanges(src, rs[n + 1..], None);
        if rest.Some? { Assoc(ranges, [(open.value, rs[n].start)], rest.value); }
        ranges := ranges + [(open.value, rs[n].start)];
        open := None;
      }
    }
    assert ranges + [] == ranges;
    r := Some(ranges);
  }

  /** Same length, and line ends in the same places. */
  ghost predicate SameLines(src: string, masked: string) {
    |masked| == |src| && forall p :: 0 <= p < |src| ==> (masked[p] == '\n' <==> src[p] == '\n')
  }

  /** Every character is masked as the regions say. */
  ghost predicate IsMask(src: string, rs: seq<Region>, masked: string) {
    && InRange(src, rs) && |masked| == |src| && TransRanges(src, rs, None).Some?
    && var ranges := TransRanges(src, rs, None).value;
       forall p :: 0 <= p < |src| ==> masked[p] == MaskAt(src, rs, ranges, |ranges|, p)
  }

  /** A block of the template has nothing but odd white space in it. */
  ghost predicate HasBlankBlock(src: string, rs: seq<Region>) {
    InRange(src, rs) && exists k :: 0 <= k < |rs| && BlankBlock(src, rs[k])
  }

  /** The mask of a template. None where `scan_template` raises IndexError: exactly where the splitter fails or a
      block has nothing but odd white space in it. */
  method Mask(src: string) returns (masked: Option<string>)
    ensures masked.None? <==> Regions(src, 0).None? || HasBlankBlock(src, Regions(src, 0).value)
    ensures masked.Some? ==> SameLines(src, masked.value)
    ensures masked.Some? ==> IsMask(src, Regions(src, 0).value, masked.value)
  {
    var rs := SplitRegions(src);
    if rs.None? { return None; }
    RegionsTile(src, 0);
    TileInRange(src, rs.value, 0, false);
    TransRangesOk(src, rs.value, None, 0, false);
    var tags := HideTags(src, rs.value);
    var ranges := CollectTrans(src, rs.value);
    if ranges.None? { return None; }
    var m := HideTrans(src, rs.value, ranges.value, tags);
    return Some(m);
  }

  /** A form feed in a block: the splitter succeeds and there is no mask. */
  lemma FormFeedBlockFails()
    ensures var src := "{%\U{c}%}";
            && Regions(src, 0) == Some([Region(Block, 0, 5, 2, 3)])
            && HasBlankBlock(src, Regions(src, 0).value)
  {
    var src := "{%\U{c}%}";
    assert FindOpen(src, 0) == Some(0);
    assert src[2..4][0] == '\U{c}';
    assert StartsAt(src, 3, "%}") && !StartsAt(src, 2, "%}");
    assert TagStop(src, 3, None, "%}") == 3;
    assert TagStop(src, 2, None, "%}") == 3;
    var t := Region(Block, 0, 5, 2, 3);
    assert TagRegion(src, Block, 0, 3) == t;
    assert src[2..3] == "\U{c}";
    assert Inside(src, t) == "\U{c}" && Split("\U{c}", ' ')[0] == "\U{c}";
    assert !IsRaw(src, t) && BlankBlock(src, t);
    assert TagAt(src, 0) == Some([t]);
    assert [t][0] == t && DataUpTo(0, 0) + [t] + [] == [t];
  }

  // ------------------------------------------------------------------ line numbers

  /** How many line ends stand before pos. */
  function LineEndsBefore(s: string, pos: nat): nat {
    if pos == 0 then 0 else LineEndsBefore(s, pos - 1) + if pos <= |s| && s[pos - 1] == '\n' then 1 else 0
  }

  /** Where lines start in the first n characters, in order: 0 and behind every line end. */
  ghost predicate StartsUpTo(s: string, n: nat, starts: seq<nat>) {
    && n <= |s| && |starts| >= 1 && starts[0] == 0
    && (forall j, k :: 0 <= j < k < |starts| ==> starts[j] < starts[k])
    && (forall k :: 0 < k < |starts| ==> 0 < starts[k] <= n && s[starts[k] - 1] == '\n')
    && (forall p :: 0 <= p < n && s[p] == '\n' ==> p + 1 in starts)
  }

  ghost predicate LineStarts(s: string, starts: seq<nat>) { StartsUpTo(s, |s|, starts) }

  lemma StartsStep(s: string, n: nat, starts: seq<nat>)
    requires StartsUpTo(s, n, starts) && n < |s|
    ensures StartsUpTo(s, n + 1, if s[n] == '\n' then starts + [n + 1] else starts)
  {
    if s[n] == '\n' {
      var more := starts + [n + 1];
      assert more[|starts|] == n + 1;
      forall p | 0 <= p < n + 1 && s[p] == '\n' ensures p + 1 in more {
        if p < n { assert p + 1 in starts; }
      }
    }
  }

  /** k of the starts are at most pos. */
  ghost predicate Splits(starts: seq<nat>, pos: nat, k: nat) {
    k <= |starts| && (forall i :: 0 <= i < k ==> starts[i] <= pos)
      && (forall i :: k <= i < |starts| ==> pos < starts[i])
  }

  /** The number of line starts up to pos is one more than the line ends before it. */
  lemma {:induction false} StartsCountLines(s: string, starts: seq<nat>, pos: nat, k: nat)
    requires LineStarts(s, starts) && Splits(starts, pos, k)
    ensures k == 1 + LineEndsBefore(s, pos)
    decreases pos
  {
    assert k >= 1;
    if pos == 0 {
      assert starts[0] <= starts[k - 1];
    } else if pos <= |s| && s[pos - 1] == '\n' {
      assert pos - 1 + 1 in starts;
      SplitsAtStart(starts, pos, k);
      StartsCountLines(s, starts, pos - 1, k - 1);
    } else {
      SplitsElsewhere(starts, pos, k);
      StartsCountLines(s, starts, pos - 1, k);
    }
  }

  lemma SplitsAtStart(starts: seq<nat>, pos: nat, k: nat)
    requires (forall j, k :: 0 <= j < k < |starts| ==> starts[j] < starts[k]) && Splits(starts, pos, k) && pos in starts
             && pos > 0
    ensures k >= 1 && Splits(starts, pos - 1, k - 1)
  {
    var i :| 0 <= i < |starts| && starts[i] == pos;
    assert i < k;
    assert starts[i] <= starts[k - 1];
  }

  lemma SplitsElsewhere(starts: seq<nat>, pos: nat, k: nat)
    requires Splits(starts, pos, k) && pos !in starts && pos > 0
    ensures Splits(starts, pos - 1, k)
  {
  }

  /** `bisect.bisect_right`. */
  method BisectRight(starts: seq<nat>, pos: nat) returns (lo: nat)
    requires forall j, k :: 0 <= j < k < |starts| ==> starts[j] < starts[k]
    ensures Splits(starts, pos, lo)
  {
    lo := 0;
    var hi := |starts|;
    while lo < hi
      invariant lo <= hi <= |starts|
      invariant forall i :: 0 <= i < lo ==> starts[i] <= pos
      invariant forall i :: hi <= i < |starts| ==> pos < starts[i]
    {
      var mid := (lo + hi) / 2;
      if pos < starts[mid] { hi := mid; } else { lo := mid + 1; }
    }
  }

  method FindLineStarts(s: string) returns (starts: seq<nat>)
    ensures LineStarts(s, starts)
  {
    starts := [0];
    for i := 0 to |s|
      invariant StartsUpTo(s, i, starts)
    {
      StartsStep(s, i, starts);
      if s[i] == '\n' { starts := starts + [i + 1]; }
    }
  }

  /** The cache of `_line_of`: the last text asked about and its line starts. */
  class LineCache {
    var cached: Option<(string, seq<nat>)>

    ghost predicate Valid()
      reads this
    {
      cached.Some? ==> LineStarts(cached.value.0, cached.value.1)
    }

    constructor ()
      ensures Valid()
    {
      cached := None;
    }

    /** `_line_of`: one plus the line ends before pos, whatever was asked before. */
    method LineOf(src: string, pos: nat) returns (line: nat)
      requires Valid()
      modifies this
      ensures Valid() && line == 1 + LineEndsBefore(src, pos)
    {
      if cached.None? || cached.value.0 != src {
        var idx := FindLineStarts(src);
        cached := Some((src, idx));
      }
      line := BisectRight(cached.value.1, pos);
      StartsCountLines(src, cached.value.1, pos, line);
    }
  }

  /** A position has the same line number in the source and in its mask. */
  lemma {:induction false} MaskKeepsLines(src: string, masked: string, pos: nat)
    requires SameLines(src, masked)
    ensures LineEndsBefore(masked, pos) == LineEndsBefore(src, pos)
  {
    if pos > 0 { MaskKeepsLines(src, masked, pos - 1); }
  }
}

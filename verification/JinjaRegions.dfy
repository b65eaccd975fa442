/** Splitting a template into data and Jinja tags, and the mask that hides the tags without moving anything
    (`jinja_regions`, `scan_template` and `_line_of` in tools/i18n_inventory.py). */
module JinjaRegions {
  import opened Text

  datatype Kind = Data | Expr | Block | Comment

  /** The region [start, end) and, for a tag, what stands between its brackets. */
  datatype Region = Region(kind: Kind, start: nat, end: nat, innerStart: nat, innerEnd: nat)

  // ------------------------------------------------------------------ one tag

  predicate OpensAt(src: string, i: nat) {
    i + 1 < |src| && src[i] == '{' && (src[i + 1] == '{' || src[i + 1] == '%' || src[i + 1] == '#')
  }

  /** `_JINJA_OPEN.search(src, i)`. */
  function FindOpen(src: string, i: nat): (r: Option<nat>)
    ensures r.Some? ==> i <= r.value && OpensAt(src, r.value) && forall p :: i <= p < r.value ==> !OpensAt(src, p)
    ensures r.None? ==> forall p :: i <= p ==> !OpensAt(src, p)
    decreases |src| - i
  {
    if i >= |src| then None else if OpensAt(src, i) then Some(i) else FindOpen(src, i + 1)
  }

  /** Where the tag's closing brackets stand, read with strings and their escapes. Behind an escape at the very end of
      an open string the index is one past the text. */
  function TagStop(src: string, j: nat, q: Option<char>, close: string): (r: nat)
    requires j <= |src| + 1
    ensures j <= r <= |src| + 1
    ensures r == |src| + 1 && j <= |src| ==> src != "" && src[|src| - 1] == '\\'
    ensures r < |src| ==> StartsAt(src, r, close)
    decreases |src| - j
  {
    if j >= |src| then j
    else if q.Some? then
      if src[j] == '\\' then TagStop(src, j + 2, q, close)
      else TagStop(src, j + 1, if src[j] == q.value then None else q, close)
    else if src[j] == '\'' || src[j] == '"' then TagStop(src, j + 1, Some(src[j]), close)
    else if StartsAt(src, j, close) then j
    else TagStop(src, j + 1, None, close)
  }

  predicate IsTrim(c: char) { c == '-' || c == '+' }

  /** A tag whose closing brackets stand at j, without the white space control marks. */
  function TagRegion(src: string, kind: Kind, m: nat, j: nat): (r: Region)
    requires m + 2 <= j <= |src| && !kind.Data?
    ensures r.kind == kind && r.start == m && m + 2 <= r.innerStart <= r.innerEnd <= j <= r.end <= |src|
    ensures r.end == j + 2 || r.end == |src|
  {
    var a := if m + 2 < j && IsTrim(src[m + 2]) then m + 3 else m + 2;
    var b := if a < j && IsTrim(src[j - 1]) then j - 1 else j;
    Region(kind, m, if j + 2 < |src| then j + 2 else |src|, a, b)
  }

  function CommentRegion(src: string, m: nat): (r: Region)
    requires m + 2 <= |src|
    ensures r.kind == Comment && r.start == m && m + 2 <= r.innerStart <= r.innerEnd <= r.end <= |src|
  {
    var f := Find(src, "#}", m + 2);
    var k := if f.None? then |src| else f.value + 2;
    Region(Comment, m, k, m + 2, if k - 2 > m + 2 then k - 2 else m + 2)
  }

  // ------------------------------------------------------------------ raw blocks

  predicate IsEdge(c: char) { c == ' ' || c == '-' || c == '+' || c == '\t' || c == '\r' || c == '\n' }

  function StripEdges(s: string): string
    decreases |s|
  {
    if s == "" then s
    else if IsEdge(s[0]) then StripEdges(s[1..])
    else if IsEdge(s[|s| - 1]) then StripEdges(s[..|s| - 1])
    else s
  }

  function Inside(src: string, r: Region): string
    requires r.innerStart <= r.innerEnd <= |src|
  {
    StripEdges(src[r.innerStart..r.innerEnd])
  }

  predicate IsRaw(src: string, r: Region)
    requires r.innerStart <= r.innerEnd <= |src|
  {
    r.kind.Block? && Split(Inside(src, r), ' ')[0] == "raw"
  }

  function Optional(src: string, i: nat, c: char): (r: nat)
    requires i <= |src|
    ensures i <= r <= |src|
  {
    if i < |src| && src[i] == c then i + 1 else i
  }

  /** The end of an `endraw` block that starts at i. */
  function EndRawAt(src: string, i: nat): (r: Option<nat>)
    ensures r.Some? ==> i + 4 <= r.value <= |src| && StartsAt(src, i, "{%")
  {
    if !StartsAt(src, i, "{%") then None
    else
      var a := SpaceEnd(src, Optional(src, i + 2, '-'));
      if !StartsAt(src, a, "endraw") then None
      else
        var b := Optional(src, SpaceEnd(src, a + 6), '-');
        if StartsAt(src, b, "%}") then Some(b + 2) else None
  }

  function FindEndRaw(src: string, i: nat): (r: Option<nat>)
    requires i <= |src|
    ensures r.Some? ==> i <= r.value < |src| && EndRawAt(src, r.value).Some?
    decreases |src| - i
  {
    if i == |src| then None else if EndRawAt(src, i).Some? then Some(i) else FindEndRaw(src, i + 1)
  }

  /** What follows a raw block: its text as data and the closing block, if there is one. */
  function RawRegions(src: string, i: nat): (r: seq<Region>)
    requires i <= |src|
    ensures 1 <= |r| <= 2
  {
    var e := FindEndRaw(src, i);
    if e.None? then [Region(Data, i, |src|, i, |src|)]
    else
      var end := EndRawAt(src, e.value).value;
      [Region(Data, i, e.value, i, e.value), Region(Block, e.value, end, e.value + 2, end - 2)]
  }

  // ------------------------------------------------------------------ the whole template

  function KindAt(src: string, m: nat): (k: Kind)
    requires OpensAt(src, m)
    ensures !k.Data?
  {
    if src[m + 1] == '{' then Expr else if src[m + 1] == '%' then Block else Comment
  }

  function Closing(k: Kind): string { if k.Expr? then "}}" else "%}" }

  /** The regions that the tag at m adds. None when the scan ran past the text, where the original indexes out of
      range. */
  function TagAt(src: string, m: nat): (r: Option<seq<Region>>)
    requires OpensAt(src, m)
    ensures r.Some? ==> 1 <= |r.value| <= 3
  {
    if KindAt(src, m).Comment? then Some([CommentRegion(src, m)])
    else
      var j := TagStop(src, m + 2, None, Closing(KindAt(src, m)));
      if j > |src| then None
      else
        var t := TagRegion(src, KindAt(src, m), m, j);
        Some(if IsRaw(src, t) then [t] + RawRegions(src, t.end) else [t])
  }

  function Last(rs: seq<Region>): Region
    requires rs != []
  {
    rs[|rs| - 1]
  }

  function DataUpTo(i: nat, m: nat): seq<Region> {
    if i < m then [Region(Data, i, m, i, m)] else []
  }

  lemma TagAdvances(src: string, m: nat)
    requires OpensAt(src, m) && TagAt(src, m).Some?
    ensures m < Last(TagAt(src, m).value).end <= |src|
  {
  }

  /** `jinja_regions` from i on. */
  function Regions(src: string, i: nat): Option<seq<Region>>
    requires i <= |src|
    decreases |src| - i
  {
    if i == |src| then Some([])
    else
      var m := FindOpen(src, i);
      if m.None? then Some([Region(Data, i, |src|, i, |src|)])
      else
        var t := TagAt(src, m.value);
        if t.None? then None
        else
          TagAdvances(src, m.value);
          var rest := Regions(src, Last(t.value).end);
          if rest.None? then None else Some(DataUpTo(i, m.value) + t.value + rest.value)
  }

  // ------------------------------------------------------------------ the regions tile the source

  /** A tag starts with its opening brackets and has its inside between them; data is all inside. */
  ghost predicate RegionOk(src: string, r: Region) {
    && r.start <= r.innerStart <= r.innerEnd <= r.end <= |src|
    && (if r.kind.Data? then r.innerStart == r.start && r.innerEnd == r.end
        else OpensAt(src, r.start) && KindAt(src, r.start) == r.kind && r.start + 2 <= r.innerStart)
  }

  /** Data holds no opening brackets, except the text of a raw block. */
  ghost predicate Quiet(src: string, r: Region, raw: bool) {
    r.kind.Data? && !raw ==> forall p :: r.start <= p < r.end ==> !(OpensAt(src, p) && p + 1 < r.end)
  }

  /** Each region starts where the one before it ends, from `from` to the end. */
  ghost predicate Tile(src: string, rs: seq<Region>, from: nat, raw: bool)
    decreases |rs|
  {
    if rs == [] then from == |src|
    else
      && RegionOk(src, rs[0]) && rs[0].start == from && Quiet(src, rs[0], raw)
      && Tile(src, rs[1..], rs[0].end, IsRaw(src, rs[0]))
  }

  lemma TileCons(src: string, r: Region, rs: seq<Region>, raw: bool)
    requires RegionOk(src, r) && Quiet(src, r, raw) && Tile(src, rs, r.end, IsRaw(src, r))
    ensures Tile(src, [r] + rs, r.start, raw)
  {
    assert ([r] + rs)[1..] == rs;
  }

  lemma TileAny(src: string, rs: seq<Region>, from: nat, raw: bool)
    requires Tile(src, rs, from, false)
    ensures Tile(src, rs, from, raw)
  {
  }

  lemma OpensWhereBlockStarts(src: string, e: nat)
    requires StartsAt(src, e, "{%")
    ensures OpensAt(src, e) && KindAt(src, e).Block?
  {
    assert src[e] == src[e..e + 2][0] && src[e + 1] == src[e..e + 2][1];
  }

  lemma RawTiles(src: string, i: nat, rest: seq<Region>)
    requires i <= |src| && Tile(src, rest, Last(RawRegions(src, i)).end, false)
    ensures Tile(src, RawRegions(src, i) + rest, i, true)
  {
    var rs := RawRegions(src, i);
    var tail := rest;
    if |rs| == 2 {
      OpensWhereBlockStarts(src, rs[1].start);
      TileAny(src, rest, rs[1].end, IsRaw(src, rs[1]));
      TileCons(src, rs[1], rest, false);
      tail := [rs[1]] + rest;
    }
    TileCons(src, rs[0], tail, true);
    assert rs + rest == [rs[0]] + tail;
  }

  lemma TagTiles(src: string, m: nat, rest: seq<Region>)
    requires OpensAt(src, m) && TagAt(src, m).Some? && Tile(src, rest, Last(TagAt(src, m).value).end, false)
    ensures Tile(src, TagAt(src, m).value + rest, m, false)
  {
    var ts := TagAt(src, m).value;
    var t := ts[0];
    if |ts| == 1 {
      TileAny(src, rest, t.end, IsRaw(src, t));
      TileCons(src, t, rest, false);
    } else {
      var rs := RawRegions(src, t.end);
      assert ts == [t] + rs && Last(ts) == Last(rs);
      RawTiles(src, t.end, rest);
      TileCons(src, t, rs + rest, false);
      Assoc([t], rs, rest);
    }
  }

  /** The regions cover the source from i to its end without gap or overlap, and data holds no tag. */
  lemma {:induction false} RegionsTile(src: string, i: nat)
    requires i <= |src| && Regions(src, i).Some?
    ensures Tile(src, Regions(src, i).value, i, false)
    decreases |src| - i
  {
    if i < |src| {
      var m := FindOpen(src, i);
      if m.None? {
        TileCons(src, Region(Data, i, |src|, i, |src|), [], false);
      } else {
        TagAdvances(src, m.value);
        var ts := TagAt(src, m.value).value;
        var rest := Regions(src, Last(ts).end).value;
        RegionsTile(src, Last(ts).end);
        TagTiles(src, m.value, rest);
        if i < m.value {
          TileAny(src, ts + rest, m.value, false);
          TileCons(src, Region(Data, i, m.value, i, m.value), ts + rest, false);
          Assoc(DataUpTo(i, m.value), ts, rest);
        } else {
          assert DataUpTo(i, m.value) + ts == ts;
        }
      }
    }
  }

  /** Put one behind the other, the regions are the source. */
  ghost function Cut(src: string, rs: seq<Region>): string
    requires forall k :: 0 <= k < |rs| ==> rs[k].start <= rs[k].end <= |src|
  {
    if rs == [] then "" else src[rs[0].start..rs[0].end] + Cut(src, rs[1..])
  }

  ghost predicate InRange(src: string, rs: seq<Region>) {
    forall k :: 0 <= k < |rs| ==> RegionOk(src, rs[k])
  }

  lemma {:induction false} TileInRange(src: string, rs: seq<Region>, from: nat, raw: bool)
    requires Tile(src, rs, from, raw)
    ensures InRange(src, rs) && from <= |src|
    decreases |rs|
  {
    if rs != [] {
      TileInRange(src, rs[1..], rs[0].end, IsRaw(src, rs[0]));
      assert rs == [rs[0]] + rs[1..];
    }
  }

  lemma {:induction false} TileCuts(src: string, rs: seq<Region>, from: nat, raw: bool)
    requires Tile(src, rs, from, raw)
    ensures InRange(src, rs) && from <= |src| && Cut(src, rs) == src[from..]
    decreases |rs|
  {
    TileInRange(src, rs, from, raw);
    if rs != [] {
      TileCuts(src, rs[1..], rs[0].end, IsRaw(src, rs[0]));
      SliceJoin(src, from, rs[0].end, |src|);
    }
  }

  lemma RegionsAreTheSource(src: string)
    requires Regions(src, 0).Some?
    ensures InRange(src, Regions(src, 0).value) && Cut(src, Regions(src, 0).value) == src
  {
    RegionsTile(src, 0);
    TileCuts(src, Regions(src, 0).value, 0, false);
  }

  // ------------------------------------------------------------------ when the splitter fails

  /** The tag at m is one of those the splitter comes to from i. */
  ghost predicate Reached(src: string, i: nat, m: nat)
    requires i <= |src|
    decreases |src| - i
  {
    i < |src| && FindOpen(src, i).Some?
    && var p := FindOpen(src, i).value;
       m == p || (TagAt(src, p).Some? && (TagAdvances(src, p); Reached(src, Last(TagAt(src, p).value).end, m)))
  }

  /** The tag at m ends in an open string whose last character is a lone backslash. */
  ghost predicate EndsInEscape(src: string, m: nat) {
    OpensAt(src, m) && !KindAt(src, m).Comment? && TagStop(src, m + 2, None, Closing(KindAt(src, m))) == |src| + 1
  }

  /** The splitter fails if and only if it comes to a tag that ends in an escape. */
  lemma {:induction false} FailsIff(src: string, i: nat)
    requires i <= |src|
    ensures Regions(src, i).None? <==> exists m :: Reached(src, i, m) && EndsInEscape(src, m)
    decreases |src| - i
  {
    if i < |src| && FindOpen(src, i).Some? {
      var p := FindOpen(src, i).value;
      assert Reached(src, i, p);
      assert TagAt(src, p).None? <==> EndsInEscape(src, p);
      if TagAt(src, p).Some? {
        TagAdvances(src, p);
        var next := Last(TagAt(src, p).value).end;
        FailsIff(src, next);
        if Regions(src, next).None? {
          var m :| Reached(src, next, m) && EndsInEscape(src, m);
          assert Reached(src, i, m);
        }
      }
    }
  }

  /** In particular it succeeds on every template that does not end in a backslash. */
  lemma SucceedsWithoutFinalBackslash(src: string)
    requires src == "" || src[|src| - 1] != '\\'
    ensures Regions(src, 0).Some?
  {
    FailsIff(src, 0);
  }

  // ------------------------------------------------------------------ the loops

  /** The inner loop: walk over the tag, minding strings. */
  method ScanTag(src: string, from: nat, close: string) returns (j: nat)
    requires from <= |src|
    ensures j == TagStop(src, from, None, close)
  {
    j := from;
    var q: Option<char> := None;
    while j < |src|
      invariant j <= |src| + 1 && TagStop(src, from, None, close) == TagStop(src, j, q, close)
    {
      var ch := src[j];
      if q.Some? {
        if ch == '\\' {
          j := j + 2;
          continue;
        }
        if ch == q.value { q := None; }
      } else if ch == '\'' || ch == '"' {
        q := Some(ch);
      } else if StartsAt(src, j, close) {
        break;
      }
      j := j + 1;
    }
  }

  /** The regions of the tag at m. */
  method ScanTagRegions(src: string, m: nat) returns (r: Option<seq<Region>>)
    requires OpensAt(src, m)
    ensures r == TagAt(src, m)
  {
    var kind := KindAt(src, m);
    if kind.Comment? { return Some([CommentRegion(src, m)]); }
    var j := ScanTag(src, m + 2, Closing(kind));
    if j > |src| { return None; }
    var t := TagRegion(src, kind, m, j);
    var regions := [t];
    if IsRaw(src, t) { regions := regions + RawRegions(src, t.end); }
    return Some(regions);
  }

  /** The regions so far, followed by those of the rest, are those of the whole. */
  ghost predicate Ahead(whole: Option<seq<Region>>, regions: seq<Region>, rest: Option<seq<Region>>) {
    if rest.None? then whole.None? else whole == Some(regions + rest.value)
  }

  /** `jinja_regions`. None stands for the IndexError. */
  method SplitRegions(src: string) returns (r: Option<seq<Region>>)
    ensures r == Regions(src, 0)
  {
    var i: nat, regions: seq<Region> := 0, [];
    ghost var whole := Regions(src, 0);
    assert whole.Some? ==> regions + whole.value == whole.value;
    while i < |src|
      invariant i <= |src| && Ahead(whole, regions, Regions(src, i))
    {
      var m := FindOpen(src, i);
      if m.None? { return Some(regions + [Region(Data, i, |src|, i, |src|)]); }
      var t := ScanTagRegions(src, m.value);
      if t.None? { return None; }
      TagAdvances(src, m.value);
      ghost var rest := Regions(src, Last(t.value).end);
      if rest.Some? {
        Assoc(regions, DataUpTo(i, m.value) + t.value, rest.value);
        Assoc(regions, DataUpTo(i, m.value), t.value);
      }
      regions := regions + DataUpTo(i, m.value) + t.value;
      i := Last(t.value).end;
    }
    assert regions + [] == regions;
    return Some(regions);
  }
}

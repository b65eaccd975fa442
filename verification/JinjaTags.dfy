/** What the regions of a template are (`jinja_regions` in tools/i18n_inventory.py), read off the text: where tags
    end, what stands in them, and how far the text of a raw block reaches. */
module JinjaTags {
  import opened Text
  import opened JinjaRegions
  import opened JinjaStrings

  // ------------------------------------------------------------------ tags

  /** The second character of a tag of this kind, and its closing brackets. */
  function BracketsOf(k: Kind): (char, string) {
    match k
    case Expr => ('{', "}}")
    case Block => ('%', "%}")
    case Comment => ('#', "#}")
    case Data => (' ', "")
  }

  /** The first closing brackets outside strings stand at e; or e is the end of the text and there are none. */
  ghost predicate EndsTag(src: string, from: nat, e: nat, close: string) {
    || (Outside(src, from, e, close) && e < |src| && StartsAt(src, e, close))
    || (e == |src| && forall p: nat :: Outside(src, from, p, close) ==> !StartsAt(src, p, close))
  }

  /** The first closing brackets of a comment stand at e, or e is the end of the text and there are none. */
  ghost predicate EndsComment(src: string, from: nat, e: nat) {
    && (forall p: nat :: from <= p < e ==> !StartsAt(src, p, "#}"))
    && (e == |src| || StartsAt(src, e, "#}"))
  }

  predicate IsSign(c: char) { c == '-' || c == '+' }

  /** The inside is what stands between the brackets, without one sign of white space control on either side. */
  predicate InnerRead(src: string, r: Region, e: nat) {
    && r.start + 2 <= e <= |src|
    && r.innerStart == (if r.start + 2 < e && IsSign(src[r.start + 2]) then r.start + 3 else r.start + 2)
    && r.innerEnd == (if r.innerStart < e && IsSign(src[e - 1]) then e - 1 else e)
  }

  /** A tag whose closing brackets stand at e. */
  ghost predicate TagTo(src: string, r: Region, e: nat) {
    && r.start + 2 <= e <= |src| && r.end == (if e + 2 < |src| then e + 2 else |src|)
    && if r.kind.Comment? then
         && EndsComment(src, r.start + 2, e) && r.innerStart == r.start + 2
         && (if r.end < r.start + 4 then r.innerEnd == r.innerStart else r.innerEnd == r.end - 2)
       else EndsTag(src, r.start + 2, e, BracketsOf(r.kind).1) && InnerRead(src, r, e)
  }

  /** A tag, from its opening to its closing brackets. */
  ghost predicate TagRead(src: string, r: Region) {
    && !r.kind.Data? && r.start + 1 < |src| && src[r.start] == '{' && src[r.start + 1] == BracketsOf(r.kind).0
    && exists e: nat :: TagTo(src, r, e)
  }

  lemma Uncloses(src: string, j: nat, close: string)
    requires j < |src| && IsQuote(src[j]) && (close == "}}" || close == "%}")
    ensures !StartsAt(src, j, close)
  {
    assert j + 2 <= |src| ==> src[j..j + 2][0] == src[j];
  }

  /** The scan of a tag stops at the first closing brackets outside strings. */
  lemma {:induction false} StopEndsTag(src: string, j: nat, close: string)
    requires j <= |src| && TagStop(src, j, None, close) <= |src| && (close == "}}" || close == "%}")
    ensures EndsTag(src, j, TagStop(src, j, None, close), close)
    decreases |src| - j
  {
    if j < |src| {
      if IsQuote(src[j]) {
        QuoteEndsTag(src, j, close);
      } else if !StartsAt(src, j, close) {
        StopEndsTag(src, j + 1, close);
      }
    }
  }

  lemma {:induction false} QuoteEndsTag(src: string, j: nat, close: string)
    requires j < |src| && IsQuote(src[j]) && TagStop(src, j, None, close) <= |src| && (close == "}}" || close == "%}")
    ensures EndsTag(src, j, TagStop(src, j, None, close), close)
    decreases |src| - j, 0
  {
    var r := StringEnd(src, j + 1, src[j]);
    QuoteStop(src, j, close);
    Uncloses(src, j, close);
    if r.Some? {
      StopEndsTag(src, r.value + 1, close);
      BehindString(src, j, r.value, TagStop(src, r.value + 1, None, close), close);
    } else {
      OpenStringEnds(src, j, close);
    }
  }

  lemma QuoteStop(src: string, j: nat, close: string)
    requires j < |src| && IsQuote(src[j]) && TagStop(src, j, None, close) <= |src|
    ensures var r := StringEnd(src, j + 1, src[j]);
            TagStop(src, j, None, close) == if r.Some? then TagStop(src, r.value + 1, None, close) else |src|
  {
    StopInString(src, j + 1, src[j], close);
  }

  lemma OpenStringEnds(src: string, j: nat, close: string)
    requires j < |src| && IsQuote(src[j]) && StringEnd(src, j + 1, src[j]).None? && !StartsAt(src, j, close)
    ensures EndsTag(src, j, |src|, close)
  {
    forall p: nat | Outside(src, j, p, close) ensures !StartsAt(src, p, close) {
      if p != j {
        var e: nat :| ClosesAt(src, j, e) && Outside(src, e + 1, p, close);
        ClosesWhere(src, j, e);
      }
    }
  }

  lemma BehindString(src: string, j: nat, e: nat, stop: nat, close: string)
    requires j < |src| && IsQuote(src[j]) && StringEnd(src, j + 1, src[j]) == Some(e) && !StartsAt(src, j, close)
    requires EndsTag(src, e + 1, stop, close)
    ensures EndsTag(src, j, stop, close)
  {
    ClosesWhere(src, j, e);
    if Outside(src, e + 1, stop, close) && stop < |src| && StartsAt(src, stop, close) {
      assert Outside(src, j, stop, close);
    } else {
      forall p: nat | Outside(src, j, p, close) ensures !StartsAt(src, p, close) {
        if p != j {
          var e': nat :| ClosesAt(src, j, e') && Outside(src, e' + 1, p, close);
          ClosesWhere(src, j, e');
        }
      }
    }
  }

  lemma CommentEnds(src: string, m: nat)
    requires OpensAt(src, m) && KindAt(src, m).Comment?
    ensures TagRead(src, CommentRegion(src, m))
  {
    var f := Find(src, "#}", m + 2);
    assert TagTo(src, CommentRegion(src, m), if f.None? then |src| else f.value);
  }

  lemma TagEnds(src: string, m: nat, j: nat)
    requires OpensAt(src, m) && !KindAt(src, m).Comment?
             && j == TagStop(src, m + 2, None, Closing(KindAt(src, m))) <= |src|
    ensures TagRead(src, TagRegion(src, KindAt(src, m), m, j))
  {
    StopEndsTag(src, m + 2, Closing(KindAt(src, m)));
    assert TagTo(src, TagRegion(src, KindAt(src, m), m, j), j);
  }

  // ------------------------------------------------------------------ raw blocks

  predicate Edge(c: char) { c == ' ' || c == '-' || c == '+' || c == '\t' || c == '\r' || c == '\n' }

  predicate EdgesIn(s: string, a: nat, b: nat) { b <= |s| && forall i :: a <= i < b ==> Edge(s[i]) }

  /** Behind blanks, signs and line ends comes `raw`, and then a blank or nothing but blanks, signs and line ends. */
  ghost predicate SaysRaw(s: string) {
    exists k: nat :: k + 3 <= |s| && EdgesIn(s, 0, k) && s[k..k + 3] == "raw"
                     && (EdgesIn(s, k + 3, |s|) || s[k + 3] == ' ')
  }

  /** From i to e: `{%`, perhaps a minus, white space, `endraw`, white space, perhaps a minus, `%}`. */
  ghost predicate EndRaw(src: string, i: nat, e: nat) {
    exists a: nat, b: nat, c: nat, d: nat :: EndRawParts(src, i, a, b, c, d) && e == d + 2
  }

  /** The same, with the places where its parts begin: the white space, the word, the white space and the brackets. */
  ghost predicate EndRawParts(src: string, i: nat, a: nat, b: nat, c: nat, d: nat) {
    && StartsAt(src, i, "{%") && (a == i + 2 || (a == i + 3 && a <= |src| && src[i + 2] == '-'))
    && SpacesIn(src, a, b) && StartsAt(src, b, "endraw")
    && SpacesIn(src, b + 6, c) && (d == c || (d == c + 1 && d <= |src| && src[c] == '-')) && StartsAt(src, d, "%}")
  }

  predicate SpacesIn(s: string, a: nat, b: nat) { a <= b <= |s| && forall i :: a <= i < b ==> IsSpace(s[i]) }

  /** White space, signs and line ends are taken off either end. */
  lemma {:induction false} EdgesOff(s: string) returns (a: nat, b: nat)
    ensures a <= b <= |s| && StripEdges(s) == s[a..b] && EdgesIn(s, 0, a) && EdgesIn(s, b, |s|)
    ensures a < b ==> !Edge(s[a]) && !Edge(s[b - 1])
    decreases |s|
  {
    if s == "" {
      a, b := 0, 0;
    } else if IsEdge(s[0]) {
      a, b := EdgesOff(s[1..]);
      assert forall i :: 0 < i < |s| ==> s[1..][i - 1] == s[i];
      assert s[1..][a..b] == s[a + 1..b + 1];
      a, b := a + 1, b + 1;
    } else if IsEdge(s[|s| - 1]) {
      var t := s[..|s| - 1];
      a, b := EdgesOff(t);
      assert t[a..b] == s[a..b] && forall i :: 0 <= i < |t| ==> t[i] == s[i];
    } else {
      a, b := 0, |s|;
      assert s[0..|s|] == s;
    }
  }

  /** The first word of a text. */
  lemma {:induction false} FirstPart(s: string, c: char)
    ensures var w := Split(s, c)[0]; |w| <= |s| && s[..|w|] == w && c !in w && (|w| < |s| ==> s[|w|] == c)
  {
    if s != "" && s[0] != c {
      FirstPart(s[1..], c);
      var w := Split(s[1..], c)[0];
      assert s[..|w| + 1] == [s[0]] + s[1..][..|w|];
    }
  }

  lemma FirstPartIs(s: string, w: string, c: char)
    requires c !in w
    ensures Split(s, c)[0] == w <==> |w| <= |s| && s[..|w|] == w && (|w| == |s| || s[|w|] == c)
  {
    FirstPart(s, c);
    var v := Split(s, c)[0];
    assert |v| < |w| <= |s| ==> s[..|w|][|v|] == s[|v|];
    assert |w| < |v| ==> s[..|v|][|w|] == s[|w|];
  }

  lemma RawWord(t: string)
    ensures Split(t, ' ')[0] == "raw" <==> |t| >= 3 && t[..3] == "raw" && (|t| == 3 || t[3] == ' ')
  {
    FirstPartIs(t, "raw", ' ');
  }

  /** The block opens raw text exactly when it says so. */
  lemma RawIff(s: string)
    ensures Split(StripEdges(s), ' ')[0] == "raw" <==> SaysRaw(s)
  {
    var t := StripEdges(s);
    var a, b := EdgesOff(s);
    RawWord(t);
    if SaysRaw(s) {
      var k: nat :| k + 3 <= |s| && EdgesIn(s, 0, k) && s[k..k + 3] == "raw"
        && (EdgesIn(s, k + 3, |s|) || s[k + 3] == ' ');
      RawStands(s, k, a, b);
    }
    if |t| >= 3 && t[..3] == "raw" && (|t| == 3 || t[3] == ' ') {
      assert s[a..b][..3] == s[a..a + 3];
      assert |t| == 3 ==> s[a + 3..] == s[b..];
      assert |t| > 3 ==> t[3] == s[a + 3];
    }
  }

  /** The text without its edges begins where `raw` stands. */
  lemma RawStands(s: string, k: nat, a: nat, b: nat)
    requires a <= b <= |s| && EdgesIn(s, 0, a) && EdgesIn(s, b, |s|) && (a < b ==> !Edge(s[a]) && !Edge(s[b - 1]))
    requires k + 3 <= |s| && EdgesIn(s, 0, k) && s[k..k + 3] == "raw" && (EdgesIn(s, k + 3, |s|) || s[k + 3] == ' ')
    ensures a == k && b >= k + 3 && s[a..b][..3] == "raw" && (b == k + 3 || s[a..b][3] == ' ')
  {
    assert s[k] == s[k..k + 3][0] && s[k + 2] == s[k..k + 3][2];
    assert a == k && b >= k + 3;
    assert s[a..b][..3] == s[k..k + 3];
    if b > k + 3 {
      assert s[a..b][3] == s[k + 3];
    }
  }

  /** White space that ends at b, where there is none, ends at b. */
  lemma {:induction false} SpacesEnd(s: string, a: nat, b: nat)
    requires SpacesIn(s, a, b) && (b < |s| ==> !IsSpace(s[b]))
    ensures SpaceEnd(s, a) == b
    decreases b - a
  {
    if a < b { SpacesEnd(s, a + 1, b); }
  }

  lemma CharAt(s: string, i: nat, p: string)
    requires StartsAt(s, i, p) && p != ""
    ensures i < |s| && s[i] == p[0]
  {
    assert s[i..i + |p|][0] == s[i];
  }

  lemma EndRawIsFound(src: string, i: nat, a: nat, b: nat, c: nat, d: nat)
    requires EndRawParts(src, i, a, b, c, d)
    ensures EndRawAt(src, i) == Some(d + 2)
  {
    CharAt(src, b, "endraw");
    CharAt(src, d, "%}");
    SpacesEnd(src, a, b);
    SpacesEnd(src, b + 6, c);
  }

  lemma FoundIsEndRaw(src: string, i: nat)
    requires EndRawAt(src, i).Some?
    ensures EndRaw(src, i, EndRawAt(src, i).value)
  {
    var a := Optional(src, i + 2, '-');
    var b := SpaceEnd(src, a);
    var c := SpaceEnd(src, b + 6);
    assert EndRawParts(src, i, a, b, c, Optional(src, c, '-'));
  }

  /** The matcher of the end of raw text finds exactly such stretches. */
  lemma EndRawIff(src: string, i: nat, e: nat)
    ensures EndRawAt(src, i) == Some(e) <==> EndRaw(src, i, e)
  {
    if EndRaw(src, i, e) {
      var a: nat, b: nat, c: nat, d: nat :| EndRawParts(src, i, a, b, c, d) && e == d + 2;
      EndRawIsFound(src, i, a, b, c, d);
    }
    if EndRawAt(src, i).Some? { FoundIsEndRaw(src, i); }
  }

  /** The text of a raw block: up to the first end of raw text, or to the end. */
  ghost predicate RawText(src: string, r: Region) {
    && r.kind.Data? && r.innerStart == r.start && r.innerEnd == r.end <= |src|
    && (forall p: nat, e: nat :: r.start <= p < r.end ==> !EndRaw(src, p, e))
    && (r.end == |src| || exists e: nat :: EndRaw(src, r.end, e))
  }

  ghost predicate RawEnds(src: string, r: Region) {
    r.kind.Block? && EndRaw(src, r.start, r.end) && r.innerStart == r.start + 2 && r.innerEnd == r.end - 2
  }

  /** One of the three opening brackets stands at p. */
  predicate TagOpens(src: string, p: nat) {
    StartsAt(src, p, "{{") || StartsAt(src, p, "{%") || StartsAt(src, p, "{#")
  }

  ghost predicate NoTag(src: string, r: Region) {
    && r.innerStart == r.start && r.innerEnd == r.end <= |src|
    && forall p: nat :: r.start <= p < r.end ==> !TagOpens(src, p)
  }

  lemma TagOpensIff(src: string, p: nat)
    ensures TagOpens(src, p) <==> OpensAt(src, p)
  {
    if p + 2 <= |src| { assert src[p..p + 2] == [src[p], src[p + 1]]; }
  }

  lemma NoOpening(src: string, i: nat, e: nat)
    requires i <= e <= |src| && forall p :: i <= p < e ==> !OpensAt(src, p)
    ensures NoTag(src, Region(Data, i, e, i, e))
  {
    forall p: nat | i <= p < e ensures !TagOpens(src, p) { TagOpensIff(src, p); }
  }

  /** The regions are read so, one after the other; `raw` says whether raw text comes first. */
  ghost predicate ListRead(src: string, rs: seq<Region>, raw: bool)
    decreases |rs|
  {
    if rs == [] then !raw
    else if raw then
      && RawText(src, rs[0])
      && (if rs[0].end == |src| then rs == rs[..1]
          else |rs| >= 2 && RawEnds(src, rs[1]) && ListRead(src, rs[2..], false))
    else if rs[0].kind.Data? then NoTag(src, rs[0]) && ListRead(src, rs[1..], false)
    else TagRead(src, rs[0]) && ListRead(src, rs[1..], OpensRaw(src, rs[0]))
  }

  ghost predicate OpensRaw(src: string, r: Region) {
    r.kind.Block? && r.innerStart <= r.innerEnd <= |src| && SaysRaw(src[r.innerStart..r.innerEnd])
  }

  lemma {:induction false} FirstEndRaw(src: string, i: nat)
    requires i <= |src|
    ensures var f := FindEndRaw(src, i); forall p: nat :: i <= p && (f.Some? ==> p < f.value) ==> EndRawAt(src, p).None?
    decreases |src| - i
  {
    if i == |src| {
      forall p: nat | i <= p ensures EndRawAt(src, p).None? { NoEndRaw(src, p); }
    } else if EndRawAt(src, i).None? {
      FirstEndRaw(src, i + 1);
    }
  }

  lemma NoEndRaw(src: string, p: nat)
    requires p >= |src|
    ensures EndRawAt(src, p).None?
  {
  }

  lemma RawRead(src: string, i: nat, rest: seq<Region>)
    requires i <= |src| && ListRead(src, rest, false) && (Last(RawRegions(src, i)).end == |src| ==> rest == [])
    ensures ListRead(src, RawRegions(src, i) + rest, true)
  {
    var f, rs := FindEndRaw(src, i), RawRegions(src, i);
    FirstEndRaw(src, i);
    var stop := if f.None? then |src| else f.value;
    forall p: nat, e: nat | i <= p < stop ensures !EndRaw(src, p, e) { EndRawIff(src, p, e); }
    if f.Some? {
      EndRawIff(src, f.value, EndRawAt(src, f.value).value);
      assert (rs + rest)[2..] == rest && (rs + rest)[1] == rs[1];
    } else {
      assert rs + rest == rs;
    }
  }

  lemma ReadCons(src: string, r: Region, rs: seq<Region>)
    requires if r.kind.Data? then NoTag(src, r) else TagRead(src, r)
    requires ListRead(src, rs, !r.kind.Data? && OpensRaw(src, r))
    ensures ListRead(src, [r] + rs, false)
  {
    assert ([r] + rs)[1..] == rs;
  }

  lemma TagListRead(src: string, m: nat, rest: seq<Region>)
    requires OpensAt(src, m) && TagAt(src, m).Some? && ListRead(src, rest, false)
    requires Last(TagAt(src, m).value).end == |src| ==> rest == []
    ensures ListRead(src, TagAt(src, m).value + rest, false)
  {
    var ts := TagAt(src, m).value;
    var t := ts[0];
    if KindAt(src, m).Comment? {
      CommentEnds(src, m);
    } else {
      TagEnds(src, m, TagStop(src, m + 2, None, Closing(KindAt(src, m))));
    }
    RawIff(src[t.innerStart..t.innerEnd]);
    if IsRaw(src, t) {
      RawRead(src, t.end, rest);
      ReadCons(src, t, RawRegions(src, t.end) + rest);
      Assoc([t], RawRegions(src, t.end), rest);
    } else {
      ReadCons(src, t, rest);
    }
  }

  /** All regions of a template are read so. */
  lemma {:induction false} RegionsRead(src: string, i: nat)
    requires i <= |src| && Regions(src, i).Some?
    ensures ListRead(src, Regions(src, i).value, false)
    decreases |src| - i
  {
    if i < |src| {
      var m := FindOpen(src, i);
      if m.None? {
        NoOpening(src, i, |src|);
        ReadCons(src, Region(Data, i, |src|, i, |src|), []);
      } else {
        TagAdvances(src, m.value);
        var ts := TagAt(src, m.value).value;
        var rest := Regions(src, Last(ts).end).value;
        RegionsRead(src, Last(ts).end);
        TagListRead(src, m.value, rest);
        if i < m.value {
          NoOpening(src, i, m.value);
          ReadCons(src, Region(Data, i, m.value, i, m.value), ts + rest);
          Assoc(DataUpTo(i, m.value), ts, rest);
        } else {
          assert DataUpTo(i, m.value) + ts == ts;
        }
      }
    }
  }
}

/** When `jinja_regions` (tools/i18n_inventory.py) fails, read off the text: a tag whose last string is never closed
    and ends in an odd number of backslashes. */
module JinjaStrings {
  import opened Text
  import opened JinjaRegions

  predicate IsQuote(c: char) { c == '\'' || c == '"' }

  /** How many backslashes stand directly before i, counted no further back than lo. */
  function Backslashes(src: string, lo: nat, i: nat): nat
    requires i <= |src|
  {
    if i <= lo || src[i - 1] != '\\' then 0 else 1 + Backslashes(src, lo, i - 1)
  }

  /** Position i of a string whose text starts at lo is escaped. */
  predicate Escaped(src: string, lo: nat, i: nat)
    requires i <= |src|
  {
    Backslashes(src, lo, i) % 2 == 1
  }

  /** Between lo and hi every quote of this kind is escaped. */
  ghost predicate NoneCloses(src: string, lo: nat, hi: nat, q: char)
    requires hi <= |src|
  {
    forall i :: lo <= i < hi && src[i] == q ==> Escaped(src, lo, i)
  }

  /** The string that opens at p closes at e. */
  ghost predicate ClosesAt(src: string, p: nat, e: nat) {
    p < e < |src| && src[e] == src[p] && !Escaped(src, p + 1, e) && NoneCloses(src, p + 1, e, src[p])
  }

  /** The string that opens at p is never closed and the text ends in an odd number of backslashes. */
  ghost predicate DanglesFrom(src: string, p: nat) {
    p < |src| && IsQuote(src[p]) && NoneCloses(src, p + 1, |src|, src[p]) && Escaped(src, p + 1, |src|)
  }

  /** Between j and p there are complete strings and text without quotes and closing brackets. */
  ghost predicate Outside(src: string, j: nat, p: nat, close: string)
    decreases |src| - j
  {
    j == p || (j < p <= |src|
               && if IsQuote(src[j]) then exists e: nat :: ClosesAt(src, j, e) && Outside(src, e + 1, p, close)
                  else !StartsAt(src, j, close) && Outside(src, j + 1, p, close))
  }

  /** The tag at m, read from its brackets, comes to a string that dangles at the end of the text. */
  ghost predicate Dangles(src: string, m: nat) {
    && OpensAt(src, m) && !KindAt(src, m).Comment?
    && exists p :: Outside(src, m + 2, p, Closing(KindAt(src, m))) && DanglesFrom(src, p)
  }

  // ------------------------------------------------------------------ inside a string

  /** Leaving out a character that is no backslash, or a backslash and the character behind it, keeps what is
      escaped. */
  lemma {:induction false} EscapedFrom(src: string, lo: nat, lo': nat, i: nat)
    requires lo < lo' <= i <= |src|
    requires if src[lo] == '\\' then lo' == lo + 2 else lo' == lo + 1
    ensures Escaped(src, lo, i) <==> Escaped(src, lo', i)
  {
    if i > lo' {
      EscapedFrom(src, lo, lo', i - 1);
    } else if src[lo] == '\\' {
      assert Backslashes(src, lo, lo + 1) == 1 + Backslashes(src, lo, lo);
    }
  }

  lemma NoneClosesFrom(src: string, lo: nat, lo': nat, hi: nat, q: char)
    requires lo < lo' <= hi <= |src| && IsQuote(q) && src[lo] != q
    requires if src[lo] == '\\' then lo' == lo + 2 else lo' == lo + 1
    ensures NoneCloses(src, lo, hi, q) <==> NoneCloses(src, lo', hi, q)
  {
    forall i | lo' <= i < hi ensures Escaped(src, lo, i) <==> Escaped(src, lo', i) {
      EscapedFrom(src, lo, lo', i);
    }
    if src[lo] == '\\' { assert Backslashes(src, lo, lo + 1) == 1 + Backslashes(src, lo, lo); }
  }

  /** The end of the string that is open at lo: where it closes, or None. */
  function StringEnd(src: string, lo: nat, q: char): (r: Option<nat>)
    ensures r.Some? ==> lo <= r.value < |src|
    decreases |src| - lo
  {
    if lo >= |src| then None
    else if src[lo] == '\\' then StringEnd(src, lo + 2, q)
    else if src[lo] == q then Some(lo)
    else StringEnd(src, lo + 1, q)
  }

  lemma {:induction false} StringEndCloses(src: string, lo: nat, q: char)
    requires lo <= |src| && IsQuote(q)
    ensures var r := StringEnd(src, lo, q);
            if r.Some? then src[r.value] == q && !Escaped(src, lo, r.value) && NoneCloses(src, lo, r.value, q)
            else NoneCloses(src, lo, |src|, q)
    decreases |src| - lo
  {
    if lo < |src| && src[lo] == '\\' && lo + 2 > |src| {
    } else if lo < |src| && src[lo] != q {
      var next := if src[lo] == '\\' then lo + 2 else lo + 1;
      StringEndCloses(src, next, q);
      var r := StringEnd(src, next, q);
      var hi := if r.Some? then r.value else |src|;
      NoneClosesFrom(src, lo, next, hi, q);
      EscapedFrom(src, lo, next, hi);
    }
  }

  /** The scan inside a string goes on behind its end, or past the text exactly when it ends in an odd run of
      backslashes. */
  lemma {:induction false} StopInString(src: string, lo: nat, q: char, close: string)
    requires lo <= |src| && IsQuote(q)
    ensures var r := StringEnd(src, lo, q);
            if r.Some? then TagStop(src, lo, Some(q), close) == TagStop(src, r.value + 1, None, close)
            else TagStop(src, lo, Some(q), close) == |src| + (if Escaped(src, lo, |src|) then 1 else 0)
    decreases |src| - lo
  {
    if lo < |src| && src[lo] == '\\' && lo + 2 > |src| {
      assert Backslashes(src, lo, lo + 1) == 1 + Backslashes(src, lo, lo);
    } else if lo < |src| && src[lo] != q {
      var next := if src[lo] == '\\' then lo + 2 else lo + 1;
      StopInString(src, next, q, close);
      assert StringEnd(src, lo, q) == StringEnd(src, next, q);
      assert TagStop(src, lo, Some(q), close) == TagStop(src, next, Some(q), close);
      assert Escaped(src, lo, |src|) == Escaped(src, next, |src|) by { EscapedFrom(src, lo, next, |src|); }
    }
  }

  // ------------------------------------------------------------------ outside strings

  lemma ClosesWhere(src: string, p: nat, e: nat)
    requires p < |src| && IsQuote(src[p])
    ensures ClosesAt(src, p, e) <==> StringEnd(src, p + 1, src[p]) == Some(e)
  {
    StringEndCloses(src, p + 1, src[p]);
  }

  lemma DanglesWhere(src: string, p: nat)
    requires p < |src| && IsQuote(src[p])
    ensures DanglesFrom(src, p) <==> StringEnd(src, p + 1, src[p]).None? && Escaped(src, p + 1, |src|)
  {
    StringEndCloses(src, p + 1, src[p]);
  }

  /** The scan of a tag runs past the text exactly when it comes to a dangling string. */
  lemma {:induction false} StopsPastIff(src: string, j: nat, close: string)
    requires j <= |src|
    ensures TagStop(src, j, None, close) == |src| + 1 <==> exists p :: Outside(src, j, p, close) && DanglesFrom(src, p)
    decreases |src| - j
  {
    if j < |src| {
      if IsQuote(src[j]) {
        QuoteStopsPastIff(src, j, close);
      } else if !StartsAt(src, j, close) {
        StopsPastIff(src, j + 1, close);
        if TagStop(src, j + 1, None, close) == |src| + 1 {
          var p :| Outside(src, j + 1, p, close) && DanglesFrom(src, p);
          assert Outside(src, j, p, close);
        }
      }
    }
  }

  lemma {:induction false} QuoteStopsPastIff(src: string, j: nat, close: string)
    requires j < |src| && IsQuote(src[j])
    ensures TagStop(src, j, None, close) == |src| + 1 <==> exists p :: Outside(src, j, p, close) && DanglesFrom(src, p)
    decreases |src| - j, 0
  {
    var q := src[j];
    var r := StringEnd(src, j + 1, q);
    StopInString(src, j + 1, q, close);
    DanglesWhere(src, j);
    forall e: nat ensures ClosesAt(src, j, e) <==> r == Some(e) { ClosesWhere(src, j, e); }
    assert Outside(src, j, j, close);
    if r.Some? {
      StopsPastIff(src, r.value + 1, close);
      assert ClosesAt(src, j, r.value);
      forall p | Outside(src, r.value + 1, p, close) ensures Outside(src, j, p, close) {
      }
    }
  }

  // ------------------------------------------------------------------ the condition on the text

  /** The splitter raises IndexError if and only if it comes to a tag that dangles. */
  lemma FailsIffDangles(src: string)
    ensures Regions(src, 0).None? <==> exists m :: Reached(src, 0, m) && Dangles(src, m)
  {
    FailsIff(src, 0);
    forall m: nat ensures EndsInEscape(src, m) <==> Dangles(src, m) {
      if OpensAt(src, m) && !KindAt(src, m).Comment? { StopsPastIff(src, m + 2, Closing(KindAt(src, m))); }
    }
  }

  /** A template of four characters: two braces, a quote and a backslash. */
  lemma OpenStringFails()
    ensures var src := "{{'\\"; Reached(src, 0, 0) && Dangles(src, 0) && Regions(src, 0).None?
  {
    var src := "{{'\\";
    assert FindOpen(src, 0) == Some(0);
    assert Reached(src, 0, 0);
    assert Outside(src, 2, 2, "}}");
    assert Backslashes(src, 3, 3) == 0 && Backslashes(src, 3, 4) == 1;
    assert DanglesFrom(src, 2);
    FailsIffDangles(src);
  }
}

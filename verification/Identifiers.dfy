/** Placeholder names of the rewriters (`_ident_from` in tools/i18n_wrap_code.py). */
module Identifiers {
  import opened Text

  predicate IsLetter(c: char) { 'a' <= c <= 'z' || 'A' <= c <= 'Z' }

  predicate IsNameChar(c: char) { IsLetter(c) || IsDigit(c) || c == '_' }

  /** What the generated placeholders need of a name: it is not empty and has no bracket, brace or percent sign. */
  predicate IsName(s: string) {
    s != "" && forall i :: 0 <= i < |s| ==> IsNameChar(s[i])
  }

  predicate IsIdentifier(s: string) { IsName(s) && !IsDigit(s[0]) }

  const FALLBACK := "v"

  function DropUnderscores(s: string): (r: string)
    ensures IsName(s) && r != "" ==> IsName(r)
    ensures r != "" ==> r[0] != '_'
  {
    if s != "" && s[0] == '_' then DropUnderscores(s[1..]) else s
  }

  /** Lines 110-114. `hint` is the identifier the regular expressions find at the end of the
      expression, or ""; `keywords` are Python's reserved words. */
  function CleanName(hint: string, keywords: set<string>): (name: string)
    requires hint == "" || IsIdentifier(hint)
    ensures IsName(name)
  {
    var a := if hint == "" || hint in keywords || hint == "_" || hint == "N_" || hint == "_tr"
      || StartsAt(hint, 0, "__")
             then FALLBACK else hint;
    var b := if DropUnderscores(a) == "" then FALLBACK else DropUnderscores(a);
    if b in keywords then FALLBACK else b
  }

  /** The result is an identifier, and so usable as a keyword argument, if and only if the hint is not an underscore
      followed by a digit: `_1` becomes `1`. (A Python file with such a call no longer parses and is left alone; nothing
      checks a JavaScript file.) */
  lemma NameIsIdentifierIff(hint: string, keywords: set<string>)
    requires hint == "" || IsIdentifier(hint)
    requires forall k :: k in keywords ==> IsIdentifier(k) && k[0] != '_'
    ensures IsIdentifier(CleanName(hint, keywords)) <==> !(|hint| >= 2 && hint[0] == '_' && IsDigit(hint[1]))
  {
    if |hint| >= 2 && hint[0] == '_' && hint[1] != '_' && hint != "_tr" {
      assert hint != "N_" && !StartsAt(hint, 0, "__") by { assert hint[0..2][1] == hint[1]; }
      assert DropUnderscores(hint) == DropUnderscores(hint[1..]) == hint[1..];
    } else if |hint| >= 2 && hint[0] == '_' && hint[1] == '_' {
      assert hint[0..2] == "__";
    }
  }

  /** A hint that is no name to use: none, a reserved word, one of the translation functions, or with two underscores in
      front. */
  predicate IsUnusable(hint: string, keywords: set<string>) {
    hint == "" || hint in keywords || hint in ["_", "N_", "_tr"] || (|hint| >= 2 && hint[0] == '_' && hint[1] == '_')
  }

  /** A usable hint is the name, without an underscore in front; `v` stands for unusable hints and reserved words. */
  lemma CleanNameIs(hint: string, keywords: set<string>)
    requires (hint == "" || IsIdentifier(hint)) && FALLBACK !in keywords
    ensures CleanName(hint, keywords)
            == if IsUnusable(hint, keywords) then "v"
               else var name := if hint[0] == '_' then hint[1..] else hint; if name in keywords then "v" else name
  {
    assert |hint| >= 2 ==> hint[0..2][0] == hint[0] && hint[0..2][1] == hint[1];
    if !IsUnusable(hint, keywords) {
      assert hint != ["_", "N_", "_tr"][0] && hint != ["_", "N_", "_tr"][1] && hint != ["_", "N_", "_tr"][2];
      if hint[0] == '_' {
        assert |hint| == 1 ==> hint == "_";
        assert DropUnderscores(hint) == DropUnderscores(hint[1..]) == hint[1..];
      }
    }
  }

  lemma SameBaseDistinctSuffix(base: string, i: nat, j: nat)
    requires i != j
    ensures base + Decimal(i) != base + Decimal(j) && base + Decimal(i) != base
  {
    if base + Decimal(i) == base + Decimal(j) {
      assert Decimal(i) == (base + Decimal(i))[|base|..] == (base + Decimal(j))[|base|..] == Decimal(j);
      DecimalInjective(i, j);
    }
    assert |base + Decimal(i)| > |base|;
  }

  /** At most |used| suffixed names can all be used, because they are pairwise different. */
  lemma {:induction false} SuffixesRunOut(base: string, used: set<string>, n: nat)
    requires forall j :: 2 <= j < n + 2 ==> base + Decimal(j) in used
    ensures n <= |used|
  {
    if n > 0 {
      var last := base + Decimal(n + 1);
      var fewer := used - {last};
      forall j | 2 <= j < n + 1 ensures base + Decimal(j) in fewer {
        SameBaseDistinctSuffix(base, j, n + 1);
      }
      SuffixesRunOut(base, fewer, n - 1);
      assert used == fewer + {last};
    }
  }

  /** The first name of base, base2, base3, … that is not used. */
  ghost predicate IsFirstFree(base: string, used: set<string>, name: string) {
    if base !in used then name == base
    else exists i: nat :: i >= 2 && name == base + Decimal(i) && name !in used
                          && forall j :: 2 <= j < i ==> base + Decimal(j) in used
  }

  /** Lines 115-120: the first of base, base2, base3, … that is not used yet. The loop ends because the tried names are
      pairwise different members of the finite set `used`. */
  method FreshName(base: string, used: set<string>) returns (name: string)
    requires IsName(base)
    ensures name !in used && IsName(name)
    ensures IsFirstFree(base, used, name)
  {
    if base !in used { return base; }
    var i: nat := 2;
    while base + Decimal(i) in used
      invariant i >= 2
      invariant forall j :: 2 <= j < i ==> base + Decimal(j) in used
      decreases |used| + 2 - i
    {
      i := i + 1;
      SuffixesRunOut(base, used, i - 2);
    }
    name := base + Decimal(i);
    SuffixedIsName(base, i);
  }

  lemma SuffixedIsName(base: string, i: nat)
    requires IsName(base)
    ensures IsName(base + Decimal(i))
  {
  }
}

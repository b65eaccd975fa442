/** Python's `%` formatting with a mapping, for the two forms the catalogue uses: `%%` and `%(name)s`. */
module PercentFormat {
  import opened Text
  import opened Identifiers

  function Prepend(s: string, r: Option<string>): Option<string> {
    if r.None? then None else Some(s + r.value)
  }

  /** `fmt % kw`, where kw gives the text of each value; None for an exception or a form outside the two. */
  function Format(fmt: string, kw: map<string, string>): Option<string>
    decreases |fmt|
  {
    if fmt == "" then Some("")
    else if fmt[0] != '%' then Prepend([fmt[0]], Format(fmt[1..], kw))
    else if |fmt| >= 2 && fmt[1] == '%' then Prepend("%", Format(fmt[2..], kw))
    else if |fmt| >= 2 && fmt[1] == '(' then
      var close := Find(fmt, ")", 2);
      if close.None? || close.value + 1 >= |fmt| || fmt[close.value + 1] != 's' || fmt[2..close.value] !in kw then None
      else Prepend(kw[fmt[2..close.value]], Format(fmt[close.value + 2..], kw))
    else None
  }

  /** `s.replace("%", "%%")`. */
  function Double(s: string): string {
    if s == "" then "" else (if s[0] == '%' then "%%" else [s[0]]) + Double(s[1..])
  }

  /** `s.replace("%%", "%")`. */
  function Undouble(s: string): string {
    if |s| < 2 then s
    else if s[0] == '%' && s[1] == '%' then "%" + Undouble(s[2..])
    else [s[0]] + Undouble(s[1..])
  }

  lemma {:induction false} DoubleAppend(a: string, b: string)
    ensures Double(a + b) == Double(a) + Double(b)
  {
    if a == "" {
      assert a + b == b;
    } else {
      DoubleAppend(a[1..], b);
      assert (a + b)[0] == a[0] && (a + b)[1..] == a[1..] + b;
      Assoc(if a[0] == '%' then "%%" else [a[0]], Double(a[1..]), Double(b));
    }
  }

  lemma {:induction false} UndoubleDouble(s: string)
    ensures Undouble(Double(s)) == s
  {
    if s != "" {
      UndoubleDouble(s[1..]);
      var d := Double(s);
      if s[0] == '%' {
        assert d[2..] == Double(s[1..]);
      } else {
        assert d[1..] == Double(s[1..]);
        if |d| < 2 { assert s[1..] == ""; }
      }
      assert s == [s[0]] + s[1..];
    }
  }

  /** Doubled text formats to itself in front of any rest. */
  lemma {:induction false} FormatDoubled(s: string, rest: string, kw: map<string, string>)
    ensures Format(Double(s) + rest, kw) == Prepend(s, Format(rest, kw))
  {
    if s == "" {
      assert Double(s) + rest == rest;
      if Format(rest, kw).Some? { assert "" + Format(rest, kw).value == Format(rest, kw).value; }
    } else {
      FormatDoubled(s[1..], rest, kw);
      var head, tail := if s[0] == '%' then "%%" else [s[0]], Double(s[1..]) + rest;
      Assoc(head, Double(s[1..]), rest);
      assert Double(s) + rest == head + tail;
      assert (head + tail)[|head|..] == tail;
      assert Format(head + tail, kw) == Prepend([s[0]], Format(tail, kw));
      assert s == [s[0]] + s[1..];
      if Format(rest, kw).Some? { Assoc([s[0]], s[1..], Format(rest, kw).value); }
    }
  }

  /** A placeholder formats to its value in front of any rest. */
  lemma FormatPlaceholder(name: string, rest: string, kw: map<string, string>)
    requires IsName(name) && name in kw
    ensures Format("%(" + name + ")s" + rest, kw) == Prepend(kw[name], Format(rest, kw))
  {
    var fmt := "%(" + name + ")s" + rest;
    var at := 2 + |name|;
    assert fmt[2..at] == name && fmt[at] == ')' && fmt[at + 1] == 's' && fmt[at + 2..] == rest;
    assert StartsAt(fmt, at, ")");
    forall i | 2 <= i < at ensures !StartsAt(fmt, i, ")") {
      assert fmt[i] == name[i - 2] && IsNameChar(name[i - 2]);
    }
  }
}

/** What the text of a template literal means in JavaScript: the escape sequences of section 12.9.4 and the template
    values of section 12.9.6 of ECMA-262; and that `js_unescape` (tools/i18n_wrap_code.py) reads what it accepts in
    the same way. */
module JsCooked {
  import opened Text
  import opened Quotes

  // ------------------------------------------------------------------ the language

  /** The value of a hexadecimal digit, None for any other character. */
  function DigitValue(c: char): Option<nat> {
    match c
    case '0' => Some(0) case '1' => Some(1) case '2' => Some(2) case '3' => Some(3) case '4' => Some(4)
    case '5' => Some(5) case '6' => Some(6) case '7' => Some(7) case '8' => Some(8) case '9' => Some(9)
    case 'a' => Some(10) case 'b' => Some(11) case 'c' => Some(12) case 'd' => Some(13) case 'e' => Some(14)
    case 'f' => Some(15) case 'A' => Some(10) case 'B' => Some(11) case 'C' => Some(12) case 'D' => Some(13)
    case 'E' => Some(14) case 'F' => Some(15)
    case _ => None
  }

  predicate HexDigits(s: string) { forall i :: 0 <= i < |s| ==> DigitValue(s[i]).Some? }

  /** The number that hexadecimal digits stand for. */
  function CodeOf(s: string): nat
    requires HexDigits(s)
  {
    if s == "" then 0 else 16 * CodeOf(s[..|s| - 1]) + DigitValue(s[|s| - 1]).value
  }

  /** What an escape sequence stands for, and its length. */
  datatype Meaning = Means(text: string, len: nat) | Illegal

  /** A code point that is a character: no surrogate, and within the range of Unicode. */
  predicate IsCharacter(n: nat) { n <= 0x10_ffff && !(0xd800 <= n <= 0xdfff) }

  /** The character with the code that these digits write. */
  function CodePoint(digits: string, len: nat): (m: Meaning)
    ensures m.Means? ==> m.len == len
  {
    if HexDigits(digits) && IsCharacter(CodeOf(digits)) then Means([CodeOf(digits) as char], len) else Illegal
  }

  /** How many characters stand in front of the first closing brace. */
  function ToBrace(s: string): (n: nat)
    ensures n <= |s|
  {
    if s == "" || s[0] == '}' then 0 else 1 + ToBrace(s[1..])
  }

  /** The sequence behind a backslash at the front: a line continuation, a single character, a code, or a character that
      stands for itself. */
  function Sequence(t: string): (m: Meaning)
    requires t != ""
    ensures m.Means? ==> 2 <= m.len <= |t|
  {
    if |t| == 1 then Illegal
    else match t[1]
      case 'b' => Means("\U{8}", 2)
      case 't' => Means("\U{9}", 2)
      case 'n' => Means("\U{a}", 2)
      case 'v' => Means("\U{b}", 2)
      case 'f' => Means("\U{c}", 2)
      case 'r' => Means("\U{d}", 2)
      case '0' => if |t| > 2 && '0' <= t[2] <= '9' then Illegal else Means("\U{0}", 2)
      case 'x' => if |t| < 4 then Illegal else CodePoint(t[2..4], 4)
      case 'u' => UnicodeSequence(t)
      case c =>
        if c == '\n' || c == '\r' || c == '\U{2028}' || c == '\U{2029}' then Means("", 2)
        else if '1' <= c <= '9' then Illegal
        else Means([c], 2)
  }

  function UnicodeSequence(t: string): (m: Meaning)
    requires |t| >= 2
    ensures m.Means? ==> 2 <= m.len <= |t|
  {
    if |t| > 2 && t[2] == '{' then
      var n := ToBrace(t[3..]);
      if n == 0 || 3 + n == |t| then Illegal else CodePoint(t[3..3 + n], 4 + n)
    else if |t| < 6 then Illegal
    else CodePoint(t[2..6], 6)
  }

  /** The text that is meant; None where an escape sequence is illegal or stands for no character. */
  function Cook(t: string): Option<string>
    decreases |t|
  {
    if t == "" then Some("")
    else
      var m := if t[0] == '\\' then Sequence(t) else Means([t[0]], 1);
      if m.Illegal? then None else Before(m.text, Cook(t[m.len..]))
  }

  function Before(s: string, rest: Option<string>): Option<string> {
    if rest.Some? then Some(s + rest.value) else None
  }

  // ------------------------------------------------------------------ `js_unescape` agrees

  /** The length of an escape sequence the function takes, as it is written; 0 for any other. */
  function Taken(t: string): (n: nat)
    requires t != ""
    ensures n <= |t| && n != 1
  {
    if |t| == 1 then 0
    else if t[1] in "ntr'\"\\`/${}\n" then 2
    else if t[1] == 'x' then if |t| >= 4 && HexDigits(t[2..4]) then 4 else 0
    else if t[1] == 'u' then TakenUnicode(t)
    else 0
  }

  function TakenUnicode(t: string): (n: nat)
    requires |t| >= 2
    ensures n <= |t| && n != 1
  {
    if |t| >= 6 && HexDigits(t[2..6]) then 6
    else if |t| > 2 && t[2] == '{' then
      var n := ToBrace(t[3..]);
      if 0 < n && 3 + n < |t| && HexDigits(t[3..3 + n]) then 4 + n else 0
    else 0
  }

  /** Every backslash begins such a sequence. */
  predicate Accepts(t: string)
    decreases |t|
  {
    if t == "" then true
    else if t[0] != '\\' then Accepts(t[1..])
    else Taken(t) > 0 && Accepts(t[Taken(t)..])
  }

  lemma DigitsAgree(c: char)
    ensures IsHex(c) <==> DigitValue(c).Some?
    ensures IsHex(c) ==> DigitValue(c) == Some(HexDigitValue(c))
  {
  }

  lemma {:induction false} CodesAgree(s: string)
    ensures AllHex(s) <==> HexDigits(s)
    ensures AllHex(s) ==> HexValue(s) == CodeOf(s)
  {
    forall i | 0 <= i < |s| ensures IsHex(s[i]) <==> DigitValue(s[i]).Some? { DigitsAgree(s[i]); }
    if s != "" && AllHex(s) {
      CodesAgree(s[..|s| - 1]);
      DigitsAgree(s[|s| - 1]);
    }
  }

  /** The run of digits behind `\u{`, when a brace closes it. */
  lemma {:induction false} RunToBrace(s: string)
    ensures var n := HexRun(s); n < |s| && s[n] == '}' ==> ToBrace(s) == n
    ensures var n := ToBrace(s); n < |s| ==> s[n] == '}' && (AllHex(s[..n]) ==> HexRun(s) == n)
  {
    if s != "" && s[0] != '}' {
      RunToBrace(s[1..]);
      var n := ToBrace(s[1..]);
      assert s[..n + 1] == [s[0]] + s[1..][..n];
      if n + 1 < |s| && AllHex(s[..n + 1]) {
        assert IsHex(s[..n + 1][0]);
        assert forall i :: 0 <= i < n ==> s[1..][..n][i] == s[..n + 1][i + 1];
      }
    }
  }

  /** The two readings of an escape sequence fit together. */
  predicate Agrees(e: Escape, m: Meaning, taken: nat) {
    match e
    case Bad => taken == 0
    case Escape(len, code) =>
      && taken == len
      && (code.None? ==> m == Means("", len))
      && (code.Some? ==> m == if IsScalar(code.value) then Means([code.value as char], len) else Illegal)
  }

  lemma UnicodeAgrees(t: string)
    requires |t| >= 2 && t[1] == 'u'
    ensures Agrees(UnicodeEscape(t), UnicodeSequence(t), TakenUnicode(t))
  {
    if |t| >= 6 {
      CodesAgree(t[2..6]);
      assert t[2] == t[2..6][0];
    }
    if |t| > 2 && t[2] == '{' { BracesAgree(t); }
  }

  /** Digits up to a brace, by the run of digits or by the brace. */
  lemma RunIsToBrace(s: string)
    ensures var n, k := HexRun(s), ToBrace(s);
            && (n < |s| && s[n] == '}' <==> k < |s| && HexDigits(s[..k]))
            && (k < |s| && HexDigits(s[..k]) ==> n == k && HexValue(s[..n]) == CodeOf(s[..k]))
  {
    RunToBrace(s);
    CodesAgree(s[..HexRun(s)]);
    CodesAgree(s[..ToBrace(s)]);
  }

  lemma BracesAgree(t: string)
    requires |t| > 2 && t[2] == '{'
    ensures Agrees(UnicodeEscape(t), UnicodeSequence(t), TakenUnicode(t))
  {
    var s := t[3..];
    RunIsToBrace(s);
    assert s[..ToBrace(s)] == t[3..3 + ToBrace(s)];
    assert |t| >= 6 ==> t[2..6][0] == '{';
  }

  lemma EscapeAgrees(t: string)
    requires t != "" && t[0] == '\\'
    ensures Agrees(ReadEscape(t), Sequence(t), Taken(t))
  {
    if |t| >= 2 && t[1] == 'u' { UnicodeAgrees(t); }
    if |t| >= 4 { CodesAgree(t[2..4]); }
  }

  /** `js_unescape` decodes exactly the texts with listed escapes only whose codes are characters, and it decodes them
      to what JavaScript means by them. */
  lemma {:induction false} UnescapeIsCooked(t: string)
    ensures JsUnescape(t).Decoded? <==> Accepts(t) && Cook(t).Some?
    ensures JsUnescape(t).Decoded? ==> Cook(t) == Some(JsUnescape(t).text)
    decreases |t|
  {
    if t == "" {
    } else if t[0] != '\\' {
      UnescapeIsCooked(t[1..]);
    } else {
      EscapeAgrees(t);
      if ReadEscape(t).Escape? {
        var rest := JsUnescape(t[ReadEscape(t).len..]);
        UnescapeIsCooked(t[ReadEscape(t).len..]);
        if rest.Decoded? { assert "" + rest.text == rest.text; }
      }
    }
  }
}

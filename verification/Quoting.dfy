/** Go's `strconv.Quote` (the verb `%q`) and `strconv.Unquote`. Texts are sequences of Unicode
    characters here. */
module Quoting {
  import opened Text
  import opened Regex
  import opened Fields

  function HexDigit(d: nat): char
    requires d < 16
  {
    if d < 10 then (48 + d) as char else (87 + d) as char
  }

  function HexValueOf(c: char): Option<nat> {
    if '0' <= c <= '9' then Some(c as nat - 48)
    else if 'a' <= c <= 'f' then Some(c as nat - 87)
    else if 'A' <= c <= 'F' then Some(c as nat - 55)
    else None
  }

  function Power16(n: nat): nat {
    if n == 0 then 1 else 16 * Power16(n - 1)
  }

  /** `n` in hexadecimal, `width` digits. */
  function Hex(n: nat, width: nat): (s: string)
    ensures |s| == width
  {
    if width == 0 then "" else Hex(n / 16, width - 1) + [HexDigit(n % 16)]
  }

  function HexValue(s: string): Option<nat> {
    if s == "" then Some(0)
    else
      match (HexValue(s[..|s| - 1]), HexValueOf(s[|s| - 1]))
      case (Some(high), Some(low)) => Some(16 * high + low)
      case _ => None
  }

  lemma {:induction false} HexRoundTrip(n: nat, width: nat)
    requires n < Power16(width)
    ensures HexValue(Hex(n, width)) == Some(n)
    ensures forall c | c in Hex(n, width) :: c != '"' && c != '\\' && c != '\n'
  {
    if width > 0 {
      HexRoundTrip(n / 16, width - 1);
      var s := Hex(n, width);
      assert s[..|s| - 1] == Hex(n / 16, width - 1);
      assert s[|s| - 1] == HexDigit(n % 16);
    }
  }

  /** What is printed as it is: among the ASCII characters those from the space to the tilde. */
  ghost predicate PrintsAscii(printable: char -> bool) {
    forall c: char | c as int < 0x80 :: printable(c) <==> 0x20 <= c as int < 0x7f
  }

  /** The letter of a one-letter escape. */
  function Letter(c: char): Option<char> {
    match c as int
    case 7 => Some('a')
    case 8 => Some('b')
    case 12 => Some('f')
    case 10 => Some('n')
    case 13 => Some('r')
    case 9 => Some('t')
    case 11 => Some('v')
    case _ => None
  }

  function Escape(c: char, printable: char -> bool): string {
    if c == '"' || c == '\\' then ['\\', c]
    else if printable(c) then [c]
    else if Letter(c).Some? then ['\\', Letter(c).value]
    else if c as int < 0x20 || c as int == 0x7f then ['\\', 'x'] + Hex(c as nat, 2)
    else if c as int < 0x10000 then ['\\', 'u'] + Hex(c as nat, 4)
    else ['\\', 'U'] + Hex(c as nat, 8)
  }

  /** The inside of the quoted text. */
  function Quoted(s: string, printable: char -> bool): string {
    if s == "" then "" else Escape(s[0], printable) + Quoted(s[1..], printable)
  }

  function LetterMeans(l: char): Option<char> {
    if l == 'a' then Some(7 as char)
    else if l == 'b' then Some(8 as char)
    else if l == 'f' then Some(12 as char)
    else if l == 'n' then Some('\n')
    else if l == 'r' then Some('\r')
    else if l == 't' then Some('\t')
    else if l == 'v' then Some(11 as char)
    else if l == '\\' || l == '"' then Some(l)
    else None
  }

  /** A rune value, where it is one. */
  function Rune(v: nat): Option<char> {
    if v < 0xD800 || 0xE000 <= v < 0x11_0000 then Some(v as char) else None
  }

  /** A byte value; from 0x80 on it is no character by itself. */
  function Byte(v: nat): char {
    if v < 0x80 then v as char else 0xFFFD as char
  }

  predicate Octal(c: char) {
    '0' <= c <= '7'
  }

  /** The escape after a backslash: the character, and how long the escape is. */
  function Escaped(s: string): (r: Option<(char, nat)>)
    ensures r.Some? ==> 1 <= r.value.1 <= |s|
  {
    if s == "" then None
    else if LetterMeans(s[0]).Some? then Some((LetterMeans(s[0]).value, 1))
    else if s[0] == 'x' && |s| >= 3 && HexValue(s[1..3]).Some? then Some((Byte(HexValue(s[1..3]).value), 3))
    else if s[0] == 'u' && |s| >= 5 && HexValue(s[1..5]).Some? && Rune(HexValue(s[1..5]).value).Some? then
      Some((Rune(HexValue(s[1..5]).value).value, 5))
    else if s[0] == 'U' && |s| >= 9 && HexValue(s[1..9]).Some? && Rune(HexValue(s[1..9]).value).Some? then
      Some((Rune(HexValue(s[1..9]).value).value, 9))
    else if |s| >= 3 && Octal(s[0]) && Octal(s[1]) && Octal(s[2]) && s[0] <= '3' then
      Some((Byte((s[0] as nat - 48) * 64 + (s[1] as nat - 48) * 8 + (s[2] as nat - 48)), 3))
    else None
  }

  /** `Unquote` of the text between two double quotes. */
  function Unquoted(s: string): Option<string>
    decreases |s|
  {
    if s == "" then Some("")
    else if s[0] == '"' || s[0] == '\n' then None
    else if s[0] != '\\' then
      match Unquoted(s[1..]) case Some(rest) => Some([s[0]] + rest) case None => None
    else
      match Escaped(s[1..])
      case None => None
      case Some((c, n)) =>
        match Unquoted(s[1 + n..]) case Some(rest) => Some([c] + rest) case None => None
  }

  // ---- quoting is undone ----

  lemma HexOfChar(c: char)
    ensures c as nat < Power16(8)
    ensures c as int < 0x10000 ==> c as nat < Power16(4)
    ensures c as int < 0x80 ==> c as nat < Power16(2)
  {
    assert Power16(1) == 16 && Power16(2) == 0x100 && Power16(3) == 0x1000 && Power16(4) == 0x10000;
    assert Power16(5) == 0x10_0000 && Power16(6) == 0x100_0000 && Power16(7) == 0x1000_0000;
  }

  /** An escape, whatever follows it. */
  lemma EscapedEscape(c: char, printable: char -> bool, rest: string)
    requires PrintsAscii(printable)
    ensures var e := Escape(c, printable);
            || (e == [c] && c != '"' && c != '\\' && c != '\n')
            || (|e| >= 2 && e[0] == '\\' && Escaped(e[1..] + rest) == Some((c, |e| - 1)))
  {
    var e := Escape(c, printable);
    hide HexValue, Hex, Power16;
    HexOfChar(c);
    if c != '"' && c != '\\' && !printable(c) && Letter(c).None? {
      var width := if c as int < 0x20 || c as int == 0x7f then 2 else if c as int < 0x10000 then 4 else 8;
      HexRoundTrip(c as nat, width);
      var s := e[1..] + rest;
      assert s[1..width + 1] == Hex(c as nat, width);
    }
  }

  lemma UnquotedStep(c: char, e: string, rest: string)
    requires Unquoted(rest).Some?
    requires || (e == [c] && c != '"' && c != '\\' && c != '\n')
             || (|e| >= 2 && e[0] == '\\' && Escaped(e[1..] + rest) == Some((c, |e| - 1)))
    ensures Unquoted(e + rest) == Some([c] + Unquoted(rest).value)
  {
    hide Escaped;
    if |e| >= 2 {
      assert (e + rest)[1..] == e[1..] + rest;
      assert (e + rest)[1 + (|e| - 1)..] == rest;
    } else {
      assert (e + rest)[1..] == rest;
    }
  }

  lemma {:induction false} UnquotedQuoted(s: string, printable: char -> bool)
    requires PrintsAscii(printable)
    ensures Unquoted(Quoted(s, printable)) == Some(s)
  {
    hide Unquoted, Escape, Escaped, PrintsAscii;
    if s == "" {
      assert Unquoted("") == Some("") by { UnquotedNothing(); }
    } else {
      UnquotedQuoted(s[1..], printable);
      EscapedEscape(s[0], printable, Quoted(s[1..], printable));
      UnquotedStep(s[0], Escape(s[0], printable), Quoted(s[1..], printable));
      assert [s[0]] + s[1..] == s;
    }
  }

  lemma UnquotedNothing()
    ensures Unquoted("") == Some("")
  {
  }

  // ---- a quoted text inside a line ----

  /** The quoted text is one line, and the pattern for strings ends where it ends. */
  lemma {:induction false} CloseHereQuoted(s: string, printable: char -> bool, rest: string)
    requires PrintsAscii(printable) && LineEnd(rest).Some?
    ensures CloseHere(Quoted(s, printable) + ("\"" + rest)) == Some(|Quoted(s, printable)|)
    ensures '\n' !in Quoted(s, printable)
  {
    hide CloseHere, Escape, Escaped, PrintsAscii, LineEnd;
    if s == "" {
      CloseHereAtQuote(rest);
      assert "" + ("\"" + rest) == "\"" + rest;
    } else {
      var e, more := Escape(s[0], printable), Quoted(s[1..], printable);
      CloseHereQuoted(s[1..], printable, rest);
      EscapeIsPlain(s[0], printable);
      assert Quoted(s, printable) + ("\"" + rest) == e + (more + ("\"" + rest));
      CloseHereEscape(e, more + ("\"" + rest));
    }
  }

  lemma CloseHereAtQuote(rest: string)
    ensures LineEnd(rest).Some? ==> CloseHere("\"" + rest) == Some(0)
  {
    assert ("\"" + rest)[1..] == rest;
  }

  /** An escape is one plain character, or a backslash, a character it takes with it, and plain ones. */
  ghost predicate IsUnit(e: string) {
    (|e| == 1 && Unremarkable(e)) || (|e| >= 2 && e[0] == '\\' && e[1] != '\n' && Unremarkable(e[2..]))
  }

  ghost predicate Unremarkable(p: string) {
    forall i | 0 <= i < |p| :: p[i] != '"' && p[i] != '\\' && p[i] != '\n'
  }

  lemma EscapeIsPlain(c: char, printable: char -> bool)
    requires PrintsAscii(printable)
    ensures IsUnit(Escape(c, printable)) && '\n' !in Escape(c, printable)
  {
    HexOfChar(c);
    hide Hex, Power16, HexValue;
    if c != '"' && c != '\\' && !printable(c) && Letter(c).None? {
      var width := if c as int < 0x20 || c as int == 0x7f then 2 else if c as int < 0x10000 then 4 else 8;
      HexRoundTrip(c as nat, width);
      var digits := Hex(c as nat, width);
      assert Escape(c, printable)[2..] == digits;
      assert forall i | 0 <= i < |digits| :: digits[i] in digits;
    }
  }

  lemma CloseSingle(s: string)
    requires s != "" && s[0] != '"' && s[0] != '\\' && CloseHere(s[1..]).Some?
    ensures CloseHere(s) == Some(1 + CloseHere(s[1..]).value)
  {
  }

  lemma ClosePair(s: string)
    requires |s| > 1 && s[0] == '\\' && s[1] != '\n' && CloseHere(s[2..]).Some?
    ensures CloseHere(s) == Some(2 + CloseHere(s[2..]).value)
  {
  }

  lemma {:induction false} CloseHerePlain(p: string, rest: string)
    requires CloseHere(rest).Some? && Unremarkable(p)
    ensures CloseHere(p + rest) == Some(|p| + CloseHere(rest).value)
  {
    hide CloseHere;
    if p == "" {
      assert p + rest == rest;
    } else {
      CloseHerePlain(p[1..], rest);
      assert (p + rest)[1..] == p[1..] + rest;
      CloseSingle(p + rest);
    }
  }

  lemma CloseHereEscape(e: string, rest: string)
    requires IsUnit(e) && CloseHere(rest).Some?
    ensures CloseHere(e + rest) == Some(|e| + CloseHere(rest).value)
  {
    hide CloseHere, Unremarkable;
    if |e| == 1 {
      CloseHerePlain(e, rest);
    } else {
      CloseHerePlain(e[2..], rest);
      DropOfConcat(e, rest);
      ClosePair(e + rest);
    }
  }

  lemma DropOfConcat(e: string, rest: string)
    requires |e| >= 2
    ensures |e + rest| == |e| + |rest| && (e + rest)[0] == e[0] && (e + rest)[1] == e[1]
    ensures (e + rest)[2..] == e[2..] + rest
  {
  }
}

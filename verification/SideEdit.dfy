/** Changing the side in a metadata file (service/internal/api/items.go, `setMetadataSide`). */
module SideEdit {
  import opened Text
  import opened Regex
  import opened Fields
  import opened Quoting
  import opened Metadata

  const WORD := Or(Lit("client"), Or(Lit("server"), Lit("both")))

  /** `^side\s*=\s*"(?:client|server|both)"\s*$`. */
  function SideLine(): Re {
    Cat(Open("side"), Cat(WORD, CLOSE))
  }

  function SideText(side: string): string {
    "side = \"" + side + "\""
  }

  // ---- the match at the head of a text ----

  function WordHere(s: string): (n: Option<nat>)
    ensures n.Some? ==> 1 <= n.value <= |s|
  {
    if "client" <= s || "server" <= s then Some(6) else if "both" <= s then Some(4) else None
  }

  /** The length of a word, its closing quote and the white space after it. */
  function ValueHere(s: string): (n: Option<nat>)
    ensures n.Some? ==> n.value <= |s|
  {
    match WordHere(s)
    case None => None
    case Some(w) =>
      if w == |s| || s[w] != '"' then None
      else match LineEnd(s[w + 1..]) case Some(n) => Some(w + 1 + n) case None => None
  }

  function SideHere(s: string): (n: Option<nat>)
    ensures n.Some? ==> 6 <= n.value <= |s|
  {
    match OpenHere("side", s)
    case None => None
    case Some(b) => match ValueHere(s[b..]) case Some(n) => Some(b + n) case None => None
  }

  /** What replacing every match gives; `begins` tells whether `s` begins a line. */
  function Edited(s: string, begins: bool, side: string): string
    decreases |s|
  {
    if begins && SideHere(s).Some? then
      var n := SideHere(s).value;
      SideText(side) + Edited(s[n..], s[n - 1] == '\n', side)
    else if s == "" then ""
    else [s[0]] + Edited(s[1..], s[0] == '\n', side)
  }

  predicate HasSideLine(s: string, begins: bool)
    decreases |s|
  {
    (begins && SideHere(s).Some?) || (s != "" && HasSideLine(s[1..], s[0] == '\n'))
  }

  // ---- the pattern matches just that ----

  lemma WordEnds(t: string, i: nat)
    requires i <= |t|
    ensures Ends(WORD, t, i) == match WordHere(t[i..]) case Some(n) => [i + n] case None => []
  {
    hide EndsFrom, Lit;
    LitEnds("client", t, i);
    LitEnds("server", t, i);
    LitEnds("both", t, i);
    OneWord(t[i..]);
  }

  lemma OneWord(s: string)
    ensures "client" <= s ==> !("server" <= s) && !("both" <= s)
    ensures "server" <= s ==> !("both" <= s)
  {
    assert "client"[0] == 'c' && "server"[0] == 's' && "both"[0] == 'b';
  }

  lemma CloseFirst(t: string, k: nat)
    requires k <= |t|
    ensures First(Ends(CLOSE, t, k)) ==
            if k < |t| && t[k] == '"' then
              (match LineEnd(t[k + 1..]) case Some(n) => Some(k + 1 + n) case None => None)
            else None
  {
    hide Ends, EndsFrom, Chr, LineEnd, Within;
    ChrOne('"', REST_OF_LINE, t, k);
    if k < |t| {
      LineEndEnds(t, k + 1);
    }
  }

  lemma ValuePieces(t: string, i: nat)
    requires i <= |t|
    ensures ValueHere(t[i..]) ==
            match WordHere(t[i..])
            case None => None
            case Some(w) =>
              if i + w < |t| && t[i + w] == '"' then
                (match LineEnd(t[i + w + 1..]) case Some(n) => Some(w + 1 + n) case None => None)
              else None
  {
    hide WordHere, LineEnd;
    match WordHere(t[i..])
    case None =>
    case Some(w) =>
      if i + w < |t| {
        SliceOfRest(t, i, w + 1);
      }
  }

  lemma ValueEnds(t: string, i: nat)
    requires i <= |t|
    ensures First(Ends(Cat(WORD, CLOSE), t, i)) ==
            match ValueHere(t[i..]) case Some(n) => Some(i + n) case None => None
  {
    hide *;
    ValuePieces(t, i);
    WordEnds(t, i);
    CatSingle(WORD, CLOSE, t, i);
    FirstOfNothing();
    match WordHere(t[i..])
    case None =>
    case Some(w) => CloseFirst(t, i + w);
  }

  lemma FirstOfNothing()
    ensures First<nat>([]) == None
  {
  }

  lemma SidePieces(t: string, i: nat)
    requires i <= |t|
    ensures SideHere(t[i..]) ==
            match OpenHere("side", t[i..])
            case None => None
            case Some(b) => match ValueHere(t[i + b..]) case Some(n) => Some(b + n) case None => None
    ensures SideLine() == Cat(Open("side"), Cat(WORD, CLOSE))
  {
    hide OpenHere, ValueHere;
    match OpenHere("side", t[i..])
    case None =>
    case Some(b) => SliceOfRest(t, i, b);
  }

  lemma SideEnds(t: string, i: nat)
    requires i <= |t|
    ensures First(Ends(SideLine(), t, i)) ==
            if !BeginsLine(t, i) then None
            else match SideHere(t[i..]) case Some(n) => Some(i + n) case None => None
  {
    hide *;
    SidePieces(t, i);
    OpenEnds("side", t, i);
    CatSingle(Open("side"), Cat(WORD, CLOSE), t, i);
    FirstOfNothing();
    match OpenHere("side", t[i..])
    case None =>
    case Some(b) => ValueEnds(t, i + b);
  }

  lemma EditedAt(t: string, i: nat, side: string)
    requires i <= |t|
    ensures Edited(t[i..], BeginsLine(t, i), side) ==
            if BeginsLine(t, i) && SideHere(t[i..]).Some? then
              var n := SideHere(t[i..]).value;
              SideText(side) + Edited(t[i + n..], BeginsLine(t, i + n), side)
            else if i == |t| then ""
            else [t[i]] + Edited(t[i + 1..], BeginsLine(t, i + 1), side)
    ensures HasSideLine(t[i..], BeginsLine(t, i)) <==>
            (BeginsLine(t, i) && SideHere(t[i..]).Some?) ||
            (i < |t| && HasSideLine(t[i + 1..], BeginsLine(t, i + 1)))
  {
    hide SideHere, SideText;
    if BeginsLine(t, i) && SideHere(t[i..]).Some? {
      SliceOfRest(t, i, SideHere(t[i..]).value);
    }
    if i < |t| {
      SliceOfRest(t, i, 1);
    }
  }

  lemma ReplaceAt(r: Re, t: string, i: nat, replacement: string)
    requires i <= |t|
    ensures First(Ends(r, t, i)).None? ==>
              ReplaceAll(r, t, i, replacement) ==
              if i == |t| then "" else [t[i]] + ReplaceAll(r, t, i + 1, replacement)
    ensures forall end | First(Ends(r, t, i)) == Some(end) && i < end ::
              ReplaceAll(r, t, i, replacement) == replacement + ReplaceAll(r, t, end, replacement)
    ensures Find(r, t, i).Some? <==> First(Ends(r, t, i)).Some? || (i < |t| && Find(r, t, i + 1).Some?)
  {
    hide Ends, ReplaceAll;
    assert t[i..i] == "" && t[|t|..] == "";
    ReplaceFirst(r, t, i, replacement);
    if i < |t| && First(Ends(r, t, i)).None? {
      LaterMatch(r, t, i, replacement);
    }
  }

  lemma LaterMatch(r: Re, t: string, i: nat, replacement: string)
    requires i < |t| && First(Ends(r, t, i)).None?
    ensures ReplaceAll(r, t, i, replacement) == [t[i]] + ReplaceAll(r, t, i + 1, replacement)
  {
    hide Ends, Find, ReplaceAll;
    FindLater(r, t, i);
    ReplaceFirst(r, t, i, replacement);
    ReplaceFirst(r, t, i + 1, replacement);
    assert t[i..] == [t[i]] + t[i + 1..];
    if Find(r, t, i + 1).Some? {
      var start := Find(r, t, i + 1).value.0;
      assert t[i..start] == [t[i]] + t[i + 1..start];
    }
  }

  lemma FindLater(r: Re, t: string, i: nat)
    requires i < |t| && First(Ends(r, t, i)).None?
    ensures Find(r, t, i) == Find(r, t, i + 1)
  {
    hide Ends;
  }

  lemma ReplaceFirst(r: Re, t: string, i: nat, replacement: string)
    requires i <= |t|
    ensures ReplaceAll(r, t, i, replacement) ==
            if Find(r, t, i).None? || Find(r, t, i).value.0 == Find(r, t, i).value.1 then t[i..]
            else t[i..Find(r, t, i).value.0] + replacement + ReplaceAll(r, t, Find(r, t, i).value.1, replacement)
  {
  }

  lemma {:induction false} ReplaceIsEdited(t: string, i: nat, side: string)
    requires i <= |t|
    ensures ReplaceAll(SideLine(), t, i, SideText(side)) == Edited(t[i..], BeginsLine(t, i), side)
    ensures Find(SideLine(), t, i).Some? <==> HasSideLine(t[i..], BeginsLine(t, i))
    decreases |t| - i
  {
    hide *;
    SideEnds(t, i);
    EditedAt(t, i, side);
    ReplaceAt(SideLine(), t, i, SideText(side));
    if BeginsLine(t, i) && SideHere(t[i..]).Some? {
      ReplaceIsEdited(t, i + SideHere(t[i..]).value, side);
    }
    if i < |t| {
      ReplaceIsEdited(t, i + 1, side);
    }
  }

  // ---- what the edit does not touch, it does not change the meaning of ----

  lemma EditedEmpty(begins: bool, side: string)
    ensures Edited("", begins, side) == "" && SideHere("").None?
  {
  }

  lemma EditedStep(s: string, begins: bool, side: string)
    requires s != "" && !(begins && SideHere(s).Some?)
    ensures Edited(s, begins, side) == [s[0]] + Edited(s[1..], s[0] == '\n', side)
  {
    hide SideHere;
  }

  lemma EditedMatch(s: string, side: string)
    requires SideHere(s).Some?
    ensures var n := SideHere(s).value;
            Edited(s, true, side) == SideText(side) + Edited(s[n..], s[n - 1] == '\n', side)
    ensures s[0] == 's' && Edited(s, true, side) != "" && Edited(s, true, side)[0] == 's'
  {
    hide SideHere;
    assert s[0] == 's' by { SideBegins(s); }
    assert SideText(side)[0] == 's';
  }

  lemma SideBegins(s: string)
    requires SideHere(s).Some?
    ensures "side" <= s && s[0] == 's'
  {
    hide ValueHere, AssignHere;
    assert "side"[0] == 's';
  }

  /** The first character stays. */
  lemma HeadAgrees(s: string, begins: bool, side: string)
    ensures Edited(s, begins, side) == "" <==> s == ""
    ensures s != "" ==> Edited(s, begins, side)[0] == s[0]
  {
    hide SideHere, Edited;
    EditedEmpty(begins, side);
    if begins && SideHere(s).Some? {
      EditedMatch(s, side);
    } else if s != "" {
      EditedStep(s, begins, side);
    }
  }

  /** Text without a line break, when no replaced line begins with it. */
  lemma {:induction false} LitAgrees(w: string, s: string, begins: bool, side: string)
    requires '\n' !in w && !(begins && SideHere(s).Some?)
    ensures w <= Edited(s, begins, side) <==> w <= s
    ensures w != "" && w <= s ==> Edited(s, begins, side)[|w|..] == Edited(s[|w|..], false, side)
    decreases |w|
  {
    hide SideHere, Edited;
    HeadAgrees(s, begins, side);
    if w != "" && s != "" && s[0] == w[0] {
      EditedStep(s, begins, side);
      var v, rest := Edited(s, begins, side), Edited(s[1..], false, side);
      assert w[0] in w && v == [s[0]] + rest && s == [s[0]] + s[1..] && w == [w[0]] + w[1..];
      LitAgrees(w[1..], s[1..], false, side);
      if w[1..] == "" {
        assert v[1..] == rest;
      } else if w <= s {
        assert v[|w|..] == rest[|w| - 1..] && s[|w|..] == s[1..][|w| - 1..];
      }
    }
  }

  /** A character that no replaced line begins with, after white space. */
  lemma {:induction false} UpToAgrees(s: string, c: char, begins: bool, side: string)
    requires !Space(c) && c != 's'
    ensures UpTo(Edited(s, begins, side), c) == UpTo(s, c)
    ensures UpTo(s, c).Some? ==>
              Edited(s, begins, side)[UpTo(s, c).value..] == Edited(s[UpTo(s, c).value..], false, side)
    decreases |s|
  {
    hide SideHere, Edited, UpTo;
    var v := Edited(s, begins, side);
    HeadAgrees(s, begins, side);
    UpToStep(s, c);
    UpToStep(v, c);
    if begins && SideHere(s).Some? {
      EditedMatch(s, side);
    } else if s != "" {
      EditedStep(s, begins, side);
      assert v[1..] == Edited(s[1..], s[0] == '\n', side);
      if Space(s[0]) {
        UpToAgrees(s[1..], c, s[0] == '\n', side);
        if UpTo(s, c).Some? {
          var n := UpTo(s, c).value;
          assert v[n..] == v[1..][n - 1..] && s[n..] == s[1..][n - 1..];
        }
      }
    }
  }

  lemma UpToStep(s: string, c: char)
    requires !Space(c)
    ensures UpTo(s, c) ==
            if s == "" then None
            else if s[0] == c then Some(1)
            else if Space(s[0]) && UpTo(s[1..], c).Some? then Some(1 + UpTo(s[1..], c).value)
            else None
  {
    if s != "" && Space(s[0]) {
      assert Skip(s) == 1 + Skip(s[1..]);
    }
  }

  lemma AssignAgrees(s: string, side: string)
    ensures AssignHere(Edited(s, false, side)) == AssignHere(s)
    ensures AssignHere(s).Some? ==>
              Edited(s, false, side)[AssignHere(s).value..] == Edited(s[AssignHere(s).value..], false, side)
  {
    hide SideHere, Edited, UpTo;
    var v := Edited(s, false, side);
    UpToAgrees(s, '=', false, side);
    if UpTo(s, '=').Some? {
      var a := UpTo(s, '=').value;
      UpToAgrees(s[a..], '"', false, side);
      if UpTo(s[a..], '"').Some? {
        var b := UpTo(s[a..], '"').value;
        assert v[a..][b..] == v[a + b..] && s[a..][b..] == s[a + b..];
      }
    }
  }

  lemma OpenAgrees(s: string, begins: bool, side: string)
    requires !(begins && SideHere(s).Some?)
    ensures OpenHere("side", Edited(s, begins, side)) == OpenHere("side", s)
    ensures OpenHere("side", s).Some? ==>
              Edited(s, begins, side)[OpenHere("side", s).value..] == Edited(s[OpenHere("side", s).value..], false, side)
  {
    hide SideHere, Edited, AssignHere;
    var v := Edited(s, begins, side);
    LitAgrees("side", s, begins, side);
    if "side" <= s {
      AssignAgrees(s[4..], side);
      if AssignHere(s[4..]).Some? {
        var n := AssignHere(s[4..]).value;
        assert v[4..][n..] == v[4 + n..] && s[4..][n..] == s[4 + n..];
      }
    }
  }

  lemma {:induction false} LineEndAgrees(s: string, begins: bool, side: string)
    ensures LineEnd(Edited(s, begins, side)) == LineEnd(s)
    decreases |s|
  {
    hide SideHere, Edited;
    var v := Edited(s, begins, side);
    HeadAgrees(s, begins, side);
    if begins && SideHere(s).Some? {
      EditedMatch(s, side);
    } else if s != "" {
      EditedStep(s, begins, side);
      assert v[1..] == Edited(s[1..], s[0] == '\n', side);
      LineEndAgrees(s[1..], s[0] == '\n', side);
    }
  }

  lemma ValueAgrees(s: string, side: string)
    ensures ValueHere(Edited(s, false, side)) == ValueHere(s)
  {
    hide SideHere, Edited, LineEnd;
    LitAgrees("client", s, false, side);
    LitAgrees("server", s, false, side);
    LitAgrees("both", s, false, side);
    if WordHere(s).Some? {
      var w := WordHere(s).value;
      QuoteAgrees(s[w..], side);
      assert Edited(s, false, side)[w..] == Edited(s[w..], false, side);
      ValueTail(s, w);
      ValueTail(Edited(s, false, side), w);
    }
  }

  /** The closing quote and the white space after it. */
  function QuoteHere(s: string): Option<nat> {
    if s == "" || s[0] != '"' then None
    else match LineEnd(s[1..]) case Some(n) => Some(1 + n) case None => None
  }

  lemma ValueTail(s: string, w: nat)
    requires WordHere(s) == Some(w)
    ensures ValueHere(s) == match QuoteHere(s[w..]) case Some(n) => Some(w + n) case None => None
  {
    hide LineEnd;
    if w < |s| {
      assert s[w..][1..] == s[w + 1..];
    }
  }

  lemma QuoteAgrees(s: string, side: string)
    ensures QuoteHere(Edited(s, false, side)) == QuoteHere(s)
  {
    hide SideHere, Edited, LineEnd;
    HeadAgrees(s, false, side);
    if s != "" {
      EditedStep(s, false, side);
      assert Edited(s, false, side)[1..] == Edited(s[1..], s[0] == '\n', side);
      LineEndAgrees(s[1..], s[0] == '\n', side);
    }
  }

  /** A line that is not replaced is no side line afterwards either. */
  lemma SideAgrees(s: string, begins: bool, side: string)
    requires !(begins && SideHere(s).Some?)
    ensures SideHere(Edited(s, begins, side)) == SideHere(s)
  {
    hide Edited, OpenHere, ValueHere;
    OpenAgrees(s, begins, side);
    if OpenHere("side", s).Some? {
      ValueAgrees(s[OpenHere("side", s).value..], side);
    }
  }

  // ---- what the edit writes is a side line ----

  /** White space is taken up to the last line end in it. */
  lemma {:induction false} LineEndStops(s: string)
    requires LineEnd(s).Some?
    ensures LineEnd(s[LineEnd(s).value..]) == Some(0)
  {
    if LineEnd(s).value > 0 {
      LineEndStops(s[1..]);
      assert s[LineEnd(s).value..] == s[1..][LineEnd(s).value - 1..];
    } else {
      assert s[0..] == s;
    }
  }

  lemma SideStops(s: string)
    requires SideHere(s).Some?
    ensures LineEnd(s[SideHere(s).value..]) == Some(0)
    ensures s[SideHere(s).value..] == "" || s[SideHere(s).value] == '\n'
  {
    hide OpenHere, WordHere, LineEnd;
    var b := OpenHere("side", s).value;
    var w := WordHere(s[b..]).value;
    var rest := s[b..][w + 1..];
    LineEndStops(rest);
    assert rest == s[b + w + 1..];
    assert rest[LineEnd(rest).value..] == s[SideHere(s).value..];
    LineEndAtHead(s[SideHere(s).value..]);
  }

  lemma LineEndAtHead(s: string)
    requires LineEnd(s) == Some(0)
    ensures s == "" || s[0] == '\n'
  {
  }

  lemma SideTextIsSideLine(side: string, rest: string)
    requires ValidSide(side) && LineEnd(rest).Some?
    ensures SideHere(SideText(side) + rest) == Some(|SideText(side)| + LineEnd(rest).value)
    ensures '\n' !in SideText(side)
  {
    hide AssignHere, LineEnd, ValueHere;
    var after := side + ("\"" + rest);
    var s := SideText(side) + rest;
    SideTextParts(side, rest);
    ValueOfSide(side, rest);
    NoBreakInSideText(side);
  }

  lemma NoBreakInSideText(side: string)
    requires ValidSide(side)
    ensures '\n' !in SideText(side)
  {
  }

  /** The head of a written side line. */
  lemma SideTextParts(side: string, rest: string)
    ensures var s := SideText(side) + rest; OpenHere("side", s) == Some(8) && s[8..] == side + ("\"" + rest)
  {
    hide AssignHere;
    var after := side + ("\"" + rest);
    var s := SideText(side) + rest;
    assert s == ("side" + " = \"") + after by {
      assert "side = \"" == "side" + " = \"";
    }
    AssignAtHead(after);
    assert s[4..] == " = \"" + after;
  }

  lemma ValueOfSide(side: string, rest: string)
    requires ValidSide(side) && LineEnd(rest).Some?
    ensures ValueHere(side + ("\"" + rest)) == Some(|side| + 1 + LineEnd(rest).value)
  {
    hide LineEnd;
    var s := side + ("\"" + rest);
    assert s[|side| + 1..] == rest;
    assert side <= s && s[0] == side[0];
    OneWord(s);
  }

  /** Every side line in the text reads as the given one. */
  predicate AllRead(u: string, begins: bool, side: string)
    decreases |u|
  {
    u == "" || ((begins && SideHere(u).Some? ==> SideText(side) <= u) && AllRead(u[1..], u[0] == '\n', side))
  }

  lemma {:induction false} AllReadAfter(p: string, u: string, side: string)
    requires '\n' !in p && AllRead(u, true, side)
    ensures AllRead(p + u, false, side)
  {
    hide SideHere;
    if p == "" {
      assert p + u == u;
    } else {
      assert (p + u)[1..] == p[1..] + u && p[0] in p;
      AllReadAfter(p[1..], u, side);
    }
  }

  lemma {:induction false} EditedReads(s: string, begins: bool, side: string)
    requires ValidSide(side)
    ensures AllRead(Edited(s, begins, side), begins, side)
    decreases |s|
  {
    hide Edited, SideHere, SideText;
    var v := Edited(s, begins, side);
    if begins && SideHere(s).Some? {
      var n := SideHere(s).value;
      var rest := Edited(s[n..], s[n - 1] == '\n', side);
      EditedMatch(s, side);
      EditedReads(s[n..], s[n - 1] == '\n', side);
      AllReadAfterMatch(s, side);
      SideTextIsSideLine(side, "");
      AllReadAfter(SideText(side), rest, side);
      AllReadAtHead(v, side);
    } else if s != "" {
      EditedStep(s, begins, side);
      EditedReads(s[1..], s[0] == '\n', side);
      assert v[1..] == Edited(s[1..], s[0] == '\n', side);
      SideAgrees(s, begins, side);
    } else {
      EditedEmpty(begins, side);
    }
  }

  lemma AllReadAtHead(v: string, side: string)
    requires AllRead(v, false, side) && SideText(side) <= v
    ensures AllRead(v, true, side)
  {
    hide SideHere, SideText;
  }

  /** After a replaced line nothing begins a side line before the next line break. */
  lemma AllReadAfterMatch(s: string, side: string)
    requires SideHere(s).Some?
    requires var n := SideHere(s).value; AllRead(Edited(s[n..], s[n - 1] == '\n', side), s[n - 1] == '\n', side)
    ensures var n := SideHere(s).value; AllRead(Edited(s[n..], s[n - 1] == '\n', side), true, side)
  {
    hide Edited, SideHere;
    var n := SideHere(s).value;
    var rest := Edited(s[n..], s[n - 1] == '\n', side);
    SideStops(s);
    HeadAgrees(s[n..], s[n - 1] == '\n', side);
    if SideHere(rest).Some? {
      SideBegins(rest);
    }
  }

  lemma EditedAfterMatch(s: string, side: string)
    requires SideHere(s).Some? && ValidSide(side)
    ensures var n := SideHere(s).value;
            var rest := Edited(s[n..], s[n - 1] == '\n', side);
            && LineEnd(rest) == Some(0) && Edited(s, true, side) == SideText(side) + rest
            && SideHere(Edited(s, true, side)) == Some(|SideText(side)|)
  {
    hide Edited, SideHere, SideText, LineEnd;
    var n := SideHere(s).value;
    EditedMatch(s, side);
    SideStops(s);
    LineEndAgrees(s[n..], s[n - 1] == '\n', side);
    SideTextIsSideLine(side, Edited(s[n..], s[n - 1] == '\n', side));
  }

  // ---- what the edit keeps ----

  /** A well-formed assignment of the side, and the white space after it. */
  ghost predicate IsSideLine(c: string) {
    exists a, b, word, w ::
      AllSpace(a) && AllSpace(b) && AllSpace(w) && ValidSide(word) && c == FormOf(a, b, word, w)
  }

  function FormOf(a: string, b: string, word: string, w: string): string {
    "side" + a + "=" + b + "\"" + word + "\"" + w
  }

  /** The text between the side lines, and the side lines. */
  function Gaps(s: string, begins: bool): (gaps: seq<string>)
    ensures |gaps| >= 1
    decreases |s|
  {
    if begins && SideHere(s).Some? then
      [""] + Gaps(s[SideHere(s).value..], s[SideHere(s).value - 1] == '\n')
    else if s == "" then [""]
    else var gaps := Gaps(s[1..], s[0] == '\n'); [[s[0]] + gaps[0]] + gaps[1..]
  }

  function Cuts(s: string, begins: bool): (cuts: seq<string>)
    ensures |cuts| + 1 == |Gaps(s, begins)|
    decreases |s|
  {
    if begins && SideHere(s).Some? then
      [s[..SideHere(s).value]] + Cuts(s[SideHere(s).value..], s[SideHere(s).value - 1] == '\n')
    else if s == "" then []
    else Cuts(s[1..], s[0] == '\n')
  }

  function Weave(gaps: seq<string>, cuts: seq<string>): string
    requires |gaps| == |cuts| + 1
  {
    if cuts == [] then gaps[0] else gaps[0] + cuts[0] + Weave(gaps[1..], cuts[1..])
  }

  function Repeated(x: string, n: nat): (xs: seq<string>)
    ensures |xs| == n
  {
    if n == 0 then [] else [x] + Repeated(x, n - 1)
  }

  lemma WeaveHead(c: char, gaps: seq<string>, cuts: seq<string>)
    requires |gaps| == |cuts| + 1
    ensures Weave([[c] + gaps[0]] + gaps[1..], cuts) == [c] + Weave(gaps, cuts)
  {
    assert ([[c] + gaps[0]] + gaps[1..])[1..] == gaps[1..];
  }

  lemma WeaveCut(cut: string, gaps: seq<string>, cuts: seq<string>)
    requires |gaps| == |cuts| + 1
    ensures Weave([""] + gaps, [cut] + cuts) == cut + Weave(gaps, cuts)
  {
    assert ([""] + gaps)[1..] == gaps && ([cut] + cuts)[1..] == cuts;
    assert "" + cut == cut;
  }

  /** The text is its gaps and side lines in turn, and the edit only puts the new line in place of each
      side line: everything else stays, in order. */
  lemma {:induction false} EditedIsWoven(s: string, begins: bool, side: string)
    ensures Weave(Gaps(s, begins), Cuts(s, begins)) == s
    ensures Weave(Gaps(s, begins), Repeated(SideText(side), |Cuts(s, begins)|)) == Edited(s, begins, side)
    decreases |s|
  {
    hide Weave, SideHere, SideText, Edited;
    if begins && SideHere(s).Some? {
      var n := SideHere(s).value;
      var gaps, cuts := Gaps(s[n..], s[n - 1] == '\n'), Cuts(s[n..], s[n - 1] == '\n');
      EditedIsWoven(s[n..], s[n - 1] == '\n', side);
      EditedMatch(s, side);
      WeaveCut(s[..n], gaps, cuts);
      WeaveCut(SideText(side), gaps, Repeated(SideText(side), |cuts|));
      assert s == s[..n] + s[n..];
    } else if s != "" {
      var gaps, cuts := Gaps(s[1..], s[0] == '\n'), Cuts(s[1..], s[0] == '\n');
      EditedIsWoven(s[1..], s[0] == '\n', side);
      EditedStep(s, begins, side);
      WeaveHead(s[0], gaps, cuts);
      WeaveHead(s[0], gaps, Repeated(SideText(side), |cuts|));
      assert s == [s[0]] + s[1..];
    } else {
      WeaveNothing();
      EditedEmpty(begins, side);
    }
  }

  lemma WeaveNothing()
    ensures Weave([""], []) == ""
  {
  }

  lemma {:induction false} SkipIsSpace(s: string)
    ensures AllSpace(s[..Skip(s)])
  {
    if s != "" && Space(s[0]) {
      SkipIsSpace(s[1..]);
      assert forall i | 1 <= i < Skip(s) :: s[..Skip(s)][i] == s[1..][..Skip(s[1..])][i - 1];
    }
  }

  lemma UpToForm(s: string, c: char)
    requires UpTo(s, c).Some?
    ensures var n := UpTo(s, c).value; AllSpace(s[..n - 1]) && s[..n] == s[..n - 1] + [c]
  {
    hide Skip;
    SkipIsSpace(s);
  }

  lemma AssignForm(s: string) returns (a: string, b: string)
    requires AssignHere(s).Some?
    ensures AllSpace(a) && AllSpace(b) && s[..AssignHere(s).value] == a + "=" + b + "\""
  {
    hide UpTo, AllSpace;
    var m := UpTo(s, '=').value;
    var n := UpTo(s[m..], '"').value;
    UpToForm(s, '=');
    UpToForm(s[m..], '"');
    a, b := s[..m - 1], s[m..][..n - 1];
    assert s[..m + n] == s[..m] + s[m..][..n];
  }

  lemma ValueForm(s: string) returns (word: string, w: string)
    requires ValueHere(s).Some?
    ensures ValidSide(word) && AllSpace(w) && s[..ValueHere(s).value] == word + "\"" + w
    ensures s[0] != ' ' && !Space(s[0]) && '"' !in word && '\\' !in word
  {
    hide LineEnd;
    var n := WordHere(s).value;
    word := s[..n];
    assert ValidSide(word);
    w := s[n + 1..ValueHere(s).value];
    LineEndForm(s[n + 1..]);
    assert s[n + 1..][..LineEnd(s[n + 1..]).value] == w;
    assert s[..ValueHere(s).value] == s[..n] + [s[n]] + w;
  }

  lemma LineEndForm(s: string)
    requires LineEnd(s).Some?
    ensures AllSpace(s[..LineEnd(s).value])
  {
    SkipIsSpace(s);
    assert forall i | 0 <= i < LineEnd(s).value :: s[..LineEnd(s).value][i] == s[..Skip(s)][i];
  }

  /** What is replaced is a well-formed side line and white space after it. */
  lemma SideHereForm(s: string)
    requires SideHere(s).Some?
    ensures IsSideLine(s[..SideHere(s).value])
  {
    hide AssignHere, ValueHere, AllSpace, SideHere, IsSideLine, FormOf, OpenHere;
    SideParts(s);
    var b, n := OpenHere("side", s).value, SideHere(s).value;
    var x, y := AssignForm(s[4..]);
    var word, w := ValueForm(s[b..]);
    ThreeParts(s, b, n);
    FormParts(x, y, word, w);
  }

  /** The text begins with a line `side = "..."` with one of the three words, whatever white space it has. */
  ghost predicate SideSpelling(s: string, a: string, b: string, word: string, w: string, rest: string) {
    && AllSpace(a) && AllSpace(b) && AllSpace(w) && (word == "client" || word == "server" || word == "both")
    && (rest == "" || rest[0] == '\n')
    && s == "side" + a + "=" + b + "\"" + word + "\"" + w + rest
  }

  /** Exactly such lines are replaced. */
  lemma SideLineMeans(s: string)
    ensures SideHere(s).Some? <==> exists a, b, word, w, rest :: SideSpelling(s, a, b, word, w, rest)
  {
    hide SideHere, SideSpelling;
    if SideHere(s).Some? {
      SpellingOf(s);
    }
    forall a, b, word, w, rest | SideSpelling(s, a, b, word, w, rest)
      ensures SideHere(s).Some?
    {
      SpellingMatches(s, a, b, word, w, rest);
    }
  }

  lemma SpellingOf(s: string)
    requires SideHere(s).Some?
    ensures exists a, b, word, w, rest :: SideSpelling(s, a, b, word, w, rest)
  {
    hide SideHere, AllSpace;
    var n := SideHere(s).value;
    SideHereForm(s);
    SideStops(s);
    var a, b, word, w :| AllSpace(a) && AllSpace(b) && AllSpace(w) && ValidSide(word) && s[..n] == FormOf(a, b, word, w);
    assert SideSpelling(s, a, b, word, w, s[n..]);
  }

  lemma SpellingMatches(s: string, a: string, b: string, word: string, w: string, rest: string)
    requires SideSpelling(s, a, b, word, w, rest)
    ensures SideHere(s).Some?
  {
    hide SideHere, AllSpace;
    FormMatches(a, b, word, w, rest);
  }

  lemma FormMatches(a: string, b: string, word: string, w: string, rest: string)
    requires AllSpace(a) && AllSpace(b) && AllSpace(w) && ValidSide(word) && (rest == "" || rest[0] == '\n')
    ensures SideHere(FormOf(a, b, word, w) + rest).Some?
  {
    hide *;
    LineEndOver(w, rest);
    ValueOfSide(word, w + rest);
    AnySpacing("side", a, b, word + ("\"" + (w + rest)));
    FormPieces(a, b, word, w, rest);
    assert SideHere(FormOf(a, b, word, w) + rest).Some? by {
      SideFromParts(FormOf(a, b, word, w) + rest, 6 + |a| + |b|);
    }
  }

  lemma SideFromParts(s: string, b: nat)
    requires OpenHere("side", s) == Some(b) && ValueHere(s[b..]).Some?
    ensures SideHere(s).Some?
  {
    hide OpenHere, ValueHere;
  }

  lemma FormPieces(a: string, b: string, word: string, w: string, rest: string)
    ensures var s, value := FormOf(a, b, word, w) + rest, word + ("\"" + (w + rest));
            && s == "side" + (a + ("=" + (b + ("\"" + value))))
            && 6 + |a| + |b| <= |s| && s[6 + |a| + |b|..] == value
  {
    Grouped("side", a, "=", b, "\"", word, "\"", w, rest);
  }

  lemma Grouped(x0: string, a: string, x1: string, b: string, x2: string, word: string, x3: string, w: string, rest: string)
    ensures var s, value := x0 + a + x1 + b + x2 + word + x3 + w + rest, word + (x3 + (w + rest));
            && s == x0 + (a + (x1 + (b + (x2 + value))))
            && s[|x0| + |a| + |x1| + |b| + |x2|..] == value
  {
    var head := x0 + a + x1 + b + x2;
    var value := word + (x3 + (w + rest));
    assert head + word + x3 + w + rest == head + value;
  }

  lemma ThreeParts(s: string, b: nat, n: nat)
    requires "side" <= s && 4 <= b <= n <= |s|
    ensures s[..n] == "side" + s[4..][..b - 4] + s[b..][..n - b]
  {
  }

  lemma FormParts(a: string, b: string, word: string, w: string)
    requires AllSpace(a) && AllSpace(b) && AllSpace(w) && ValidSide(word)
    ensures IsSideLine("side" + (a + "=" + b + "\"") + (word + "\"" + w))
  {
    hide AllSpace;
    assert "side" + (a + "=" + b + "\"") + (word + "\"" + w) == FormOf(a, b, word, w);
  }

  lemma SideParts(s: string)
    requires SideHere(s).Some?
    ensures "side" <= s && AssignHere(s[4..]).Some? && OpenHere("side", s) == Some(4 + AssignHere(s[4..]).value)
    ensures ValueHere(s[OpenHere("side", s).value..]) == Some(SideHere(s).value - OpenHere("side", s).value)
  {
    hide AssignHere, ValueHere;
  }

  lemma {:induction false} CutsAreSideLines(s: string, begins: bool)
    ensures forall c | c in Cuts(s, begins) :: IsSideLine(c)
    decreases |s|
  {
    hide SideHere, IsSideLine;
    if begins && SideHere(s).Some? {
      CutsAreSideLines(s[SideHere(s).value..], s[SideHere(s).value - 1] == '\n');
      SideHereForm(s);
    } else if s != "" {
      CutsAreSideLines(s[1..], s[0] == '\n');
    }
  }
}

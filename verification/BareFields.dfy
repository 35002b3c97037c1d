/** What the pattern for provider identifiers matches (service/internal/api/import_inventory.go,
    `importBareField`): an assignment of a quoted string or of a bare word. */
module BareFields {
  import opened Text
  import opened Regex
  import opened Fields

  /** `[0-9A-Za-z._-]`. */
  predicate BareChar(c: char) {
    '0' <= c <= '9' || 'A' <= c <= 'Z' || 'a' <= c <= 'z' || c == '.' || c == '_' || c == '-'
  }

  const WORD := Cat(One(BareChar), Star(One(BareChar)))
  const QUOTED := Cat(Chr('"'), Cat(BODY, Chr('"')))

  /** `^name\s*=\s*("(?:\\.|[^"])*"|[0-9A-Za-z._-]+)\s*$`. */
  function BarePattern(name: string): Pattern {
    Pattern(Cat(BeginLine, Cat(Lit(name), Cat(SPACES, Cat(Chr('='), SPACES)))), Or(QUOTED, WORD), REST_OF_LINE)
  }

  // ---- what it matches at the head of a text ----

  /** The length of the leading bare word. */
  function WordLength(s: string): (n: nat)
    ensures n <= |s|
  {
    if s != "" && BareChar(s[0]) then 1 + WordLength(s[1..]) else 0
  }

  /** The length of the value at the head of `s`, quotes included. */
  function ValueLength(s: string): (n: Option<nat>)
    ensures n.Some? ==> 1 <= n.value <= |s|
  {
    if s == "" then None
    else if s[0] == '"' then match CloseHere(s[1..]) case Some(n) => Some(n + 2) case None => None
    else if BareChar(s[0]) && LineEnd(s[WordLength(s)..]).Some? then Some(WordLength(s))
    else None
  }

  /** Where the value begins in an assignment at the head of `s`. */
  function BareStart(name: string, s: string): (n: Option<nat>)
    ensures n.Some? ==> n.value <= |s|
  {
    if name <= s then
      match UpTo(s[|name|..], '=')
      case None => None
      case Some(a) => Some(|name| + a + Skip(s[|name| + a..]))
    else None
  }

  function ValueAt(s: string): Option<string> {
    match ValueLength(s) case Some(n) => Some(s[..n]) case None => None
  }

  /** The value of the assignment at the head of `s`. */
  function BareHere(name: string, s: string): Option<string> {
    match BareStart(name, s) case Some(b) => ValueAt(s[b..]) case None => None
  }

  function FirstBare(name: string, s: string, begins: bool): Option<string> {
    if begins && BareHere(name, s).Some? then BareHere(name, s)
    else if s == "" then None
    else FirstBare(name, s[1..], s[0] == '\n')
  }

  // ---- the pattern matches just that ----

  lemma {:induction false} GroupFromAppend(p: Pattern, t: string, js: seq<nat>, ks: seq<nat>)
    requires Within(js, 0, |t|) && Within(ks, 0, |t|)
    ensures GroupFrom(p, t, js + ks) == if GroupFrom(p, t, js).Some? then GroupFrom(p, t, js) else GroupFrom(p, t, ks)
  {
    hide Ends, GroupEnd;
    if js == [] {
      assert js + ks == ks;
    } else {
      assert (js + ks)[0] == js[0] && (js + ks)[1..] == js[1..] + ks;
      GroupFromAppend(p, t, js[1..], ks);
    }
  }

  /** White space before a group that does not begin with white space. */
  lemma {:induction false} GroupAfterSpaces(p: Pattern, t: string, i: nat)
    requires i <= |t| && forall j | i <= j < |t| && Space(t[j]) :: Ends(p.group, t, j) == []
    ensures i + Skip(t[i..]) <= |t|
    ensures GroupFrom(p, t, Ends(SPACES, t, i)) == GroupFrom(p, t, [i + Skip(t[i..])])
    decreases |t| - i
  {
    hide Ends, GroupFrom, Skip, Space;
    SkipFrom(t, i);
    StarOne(Space, t, i);
    if i < |t| && Space(t[i]) {
      GroupAfterSpaces(p, t, i + 1);
      GroupFromAppend(p, t, Ends(SPACES, t, i + 1), [i]);
      GroupFromOne(p, t, i);
      GroupEndOne(p.after, t, i);
    }
  }

  lemma ClosingQuote(t: string, j: nat)
    requires j <= |t|
    ensures Within(Ends(Chr('"'), t, j), 0, |t|)
    ensures GroupEnd(REST_OF_LINE, t, Ends(Chr('"'), t, j)) ==
            match GroupEnd(CLOSE, t, [j]) case Some(k) => Some(k + 1) case None => None
  {
    hide Ends, EndsFrom, GroupEnd;
    ChrOne('"', REST_OF_LINE, t, j);
    GroupEndOne(CLOSE, t, j);
    GroupEndOne(REST_OF_LINE, t, j);
    if j < |t| && t[j] == '"' {
      GroupEndOne(REST_OF_LINE, t, j + 1);
    }
  }

  lemma EndsFromStep(r: Re, t: string, js: seq<nat>, lo: nat)
    requires lo <= |t| && Within(js, lo, |t|)
    ensures EndsFrom(r, t, js, lo) == if js == [] then [] else Ends(r, t, js[0]) + EndsFrom(r, t, js[1..], lo)
    ensures js != [] ==> js == [js[0]] + js[1..] && Within(js[1..], lo, |t|) && lo <= js[0] <= |t|
    ensures Within(EndsFrom(r, t, js, lo), 0, |t|)
  {
    hide Ends;
  }

  /** A quoted string: its body and the closing quote. */
  lemma {:induction false} ClosingQuotes(t: string, js: seq<nat>, lo: nat)
    requires lo <= |t| && Within(js, lo, |t|)
    ensures Within(js, 0, |t|) && Within(EndsFrom(Chr('"'), t, js, lo), 0, |t|)
    ensures GroupEnd(REST_OF_LINE, t, EndsFrom(Chr('"'), t, js, lo)) ==
            match GroupEnd(CLOSE, t, js) case Some(k) => Some(k + 1) case None => None
    decreases |js|
  {
    hide Ends, EndsFrom, GroupEnd, Chr;
    assert Within(js, 0, |t|);
    hide Within;
    EndsFromStep(Chr('"'), t, js, lo);
    NoEnd(t);
    if js != [] {
      ClosingQuotes(t, js[1..], lo);
      OneMoreQuote(t, js[0], js[1..], EndsFrom(Chr('"'), t, js[1..], lo));
    }
  }

  lemma OneMoreQuote(t: string, j: nat, rest: seq<nat>, ends: seq<nat>)
    requires j <= |t| && Within(rest, 0, |t|) && Within(ends, 0, |t|)
    requires GroupEnd(REST_OF_LINE, t, ends) == match GroupEnd(CLOSE, t, rest) case Some(k) => Some(k + 1) case None => None
    ensures Within([j] + rest, 0, |t|) && Within(Ends(Chr('"'), t, j) + ends, 0, |t|)
    ensures GroupEnd(REST_OF_LINE, t, Ends(Chr('"'), t, j) + ends) ==
            match GroupEnd(CLOSE, t, [j] + rest) case Some(k) => Some(k + 1) case None => None
  {
    hide *;
    ClosingQuote(t, j);
    OneWithin(j, |t|);
    OneMore(CLOSE, REST_OF_LINE, t, [j], rest, Ends(Chr('"'), t, j), ends);
  }

  lemma OneMore(close: Re, after: Re, t: string, js: seq<nat>, rest: seq<nat>, ks: seq<nat>, ends: seq<nat>)
    requires Within(js, 0, |t|) && Within(rest, 0, |t|) && Within(ks, 0, |t|) && Within(ends, 0, |t|)
    requires GroupEnd(after, t, ks) == match GroupEnd(close, t, js) case Some(k) => Some(k + 1) case None => None
    requires GroupEnd(after, t, ends) == match GroupEnd(close, t, rest) case Some(k) => Some(k + 1) case None => None
    ensures Within(js + rest, 0, |t|) && Within(ks + ends, 0, |t|)
    ensures GroupEnd(after, t, ks + ends) == match GroupEnd(close, t, js + rest) case Some(k) => Some(k + 1) case None => None
  {
    BothWithin(js, rest, |t|);
    BothWithin(ks, ends, |t|);
    hide *;
    GroupEndAppend(close, t, js, rest);
    GroupEndAppend(after, t, ks, ends);
  }

  lemma BothWithin(js: seq<nat>, ks: seq<nat>, hi: nat)
    requires Within(js, 0, hi) && Within(ks, 0, hi)
    ensures Within(js + ks, 0, hi)
  {
  }

  lemma OneWithin(j: nat, hi: nat)
    requires j <= hi
    ensures Within([j], 0, hi)
  {
  }

  lemma NoEnd(t: string)
    ensures GroupEnd(CLOSE, t, []) == None && GroupEnd(REST_OF_LINE, t, []) == None
  {
  }

  lemma QuotedEnds(t: string, i: nat)
    requires i < |t| && t[i] == '"'
    ensures GroupEnd(REST_OF_LINE, t, Ends(QUOTED, t, i)) ==
            match CloseHere(t[i + 1..]) case Some(n) => Some(i + 1 + n + 1) case None => None
  {
    hide Ends, EndsFrom, GroupEnd, CloseHere;
    ChrOne('"', Cat(BODY, Chr('"')), t, i);
    CatIs(BODY, Chr('"'), t, i + 1);
    ClosingQuotes(t, Ends(BODY, t, i + 1), i + 1);
    BodyEnds(t, i + 1);
  }

  lemma NotRestOfLine(t: string, i: nat)
    requires i < |t| && BareChar(t[i])
    ensures Ends(REST_OF_LINE, t, i) == []
  {
    hide Ends;
    LineEndEnds(t, i);
  }

  lemma WordFrom(t: string, i: nat)
    requires i <= |t|
    ensures i + WordLength(t[i..]) <= |t|
    ensures WordLength(t[i..]) == if i < |t| && BareChar(t[i]) then 1 + WordLength(t[i + 1..]) else 0
  {
    hide BareChar;
    if i < |t| {
      SliceOfRest(t, i, 1);
    }
  }

  lemma {:induction false} WordEnds(t: string, i: nat)
    requires i <= |t|
    ensures i + WordLength(t[i..]) <= |t|
    ensures GroupEnd(REST_OF_LINE, t, Ends(Star(One(BareChar)), t, i)) ==
            if LineEnd(t[i + WordLength(t[i..])..]).Some? then Some(i + WordLength(t[i..])) else None
    decreases |t| - i
  {
    hide *;
    WordFrom(t, i);
    StarOne(BareChar, t, i);
    if i < |t| && BareChar(t[i]) {
      WordEnds(t, i + 1);
      EndsAreWithin(Star(One(BareChar)), t, i + 1);
      NoEndInWord(t, i, Ends(Star(One(BareChar)), t, i + 1));
    } else {
      AloneEnds(t, i);
    }
  }

  lemma NoEndInWord(t: string, i: nat, later: seq<nat>)
    requires i < |t| && BareChar(t[i]) && Within(later, 0, |t|)
    ensures Within(later + [i], 0, |t|) && GroupEnd(REST_OF_LINE, t, later + [i]) == GroupEnd(REST_OF_LINE, t, later)
  {
    OneWithin(i, |t|);
    BothWithin(later, [i], |t|);
    hide Ends, GroupEnd, Within;
    GroupEndAppend(REST_OF_LINE, t, later, [i]);
    GroupEndOne(REST_OF_LINE, t, i);
    NotRestOfLine(t, i);
  }

  lemma AloneEnds(t: string, i: nat)
    requires i <= |t|
    ensures GroupEnd(REST_OF_LINE, t, [i]) == if LineEnd(t[i..]).Some? then Some(i) else None
  {
    hide Ends, GroupEnd, LineEnd;
    GroupEndOne(REST_OF_LINE, t, i);
    LineEndEnds(t, i);
    FirstIsNothing(Ends(REST_OF_LINE, t, i));
  }

  lemma EndsAreWithin(r: Re, t: string, i: nat)
    requires i <= |t|
    ensures Within(Ends(r, t, i), 0, |t|)
  {
    hide Ends;
  }

  lemma FirstIsNothing(js: seq<nat>)
    ensures First(js).None? <==> js == []
  {
  }

  lemma ValueEnds(t: string, i: nat)
    requires i <= |t|
    ensures GroupEnd(REST_OF_LINE, t, Ends(Or(QUOTED, WORD), t, i)) ==
            match ValueLength(t[i..]) case Some(n) => Some(i + n) case None => None
    ensures i < |t| && Space(t[i]) ==> Ends(Or(QUOTED, WORD), t, i) == []
  {
    hide *;
    if i < |t| && t[i] == '"' {
      QuotedValue(t, i);
    } else if i < |t| && BareChar(t[i]) {
      WordValue(t, i);
    } else {
      NoValue(t, i);
    }
    ValuePieces(t, i);
  }

  lemma QuotedValue(t: string, i: nat)
    requires i < |t| && t[i] == '"'
    ensures GroupEnd(REST_OF_LINE, t, Ends(Or(QUOTED, WORD), t, i)) ==
            match ValueLength(t[i..]) case Some(n) => Some(i + n) case None => None
  {
    hide *;
    QuotedOrWord(t, i);
    ValuePieces(t, i);
    QuotedEnds(t, i);
  }

  lemma WordValue(t: string, i: nat)
    requires i < |t| && t[i] != '"' && BareChar(t[i])
    ensures GroupEnd(REST_OF_LINE, t, Ends(Or(QUOTED, WORD), t, i)) ==
            match ValueLength(t[i..]) case Some(n) => Some(i + n) case None => None
  {
    hide *;
    QuotedOrWord(t, i);
    ValuePieces(t, i);
    WordEnds(t, i + 1);
  }

  lemma NoValue(t: string, i: nat)
    requires i <= |t| && (i < |t| ==> t[i] != '"' && !BareChar(t[i]))
    ensures Ends(Or(QUOTED, WORD), t, i) == []
    ensures GroupEnd(REST_OF_LINE, t, Ends(Or(QUOTED, WORD), t, i)) == None && ValueLength(t[i..]) == None
  {
    hide *;
    QuotedOrWord(t, i);
    ValuePieces(t, i);
    NoEnd(t);
  }

  lemma ValuePieces(t: string, i: nat)
    requires i <= |t|
    ensures i < |t| ==> i + 1 + WordLength(t[i + 1..]) <= |t|
    ensures ValueLength(t[i..]) ==
            if i == |t| then None
            else if t[i] == '"' then match CloseHere(t[i + 1..]) case Some(n) => Some(n + 2) case None => None
            else if BareChar(t[i]) && LineEnd(t[i + 1 + WordLength(t[i + 1..])..]).Some? then Some(1 + WordLength(t[i + 1..]))
            else None
    ensures i < |t| && Space(t[i]) ==> t[i] != '"' && !BareChar(t[i])
  {
    hide CloseHere, LineEnd;
    if i < |t| {
      SliceOfRest(t, i, 1);
      SliceOfRest(t, i, 1 + WordLength(t[i + 1..]));
    }
  }

  /** A value is a quoted string, or a word, by its first character. */
  lemma QuotedOrWord(t: string, i: nat)
    requires i <= |t|
    ensures Ends(Or(QUOTED, WORD), t, i) ==
            if i < |t| && t[i] == '"' then Ends(QUOTED, t, i)
            else if i < |t| && BareChar(t[i]) then Ends(Star(One(BareChar)), t, i + 1)
            else []
  {
    OrEnds(QUOTED, WORD, t, i);
    hide Ends, EndsFrom, Within;
    ChrOne('"', Cat(BODY, Chr('"')), t, i);
    OneEnds(BareChar, t, i);
    CatSingle(One(BareChar), Star(One(BareChar)), t, i);
  }

  lemma OrEnds(a: Re, b: Re, t: string, i: nat)
    requires i <= |t|
    ensures Ends(Or(a, b), t, i) == Ends(a, t, i) + Ends(b, t, i)
  {
  }

  lemma BareAt(name: string, t: string, i: nat)
    requires i <= |t|
    ensures GroupFrom(BarePattern(name), t, Ends(BarePattern(name).before, t, i)) ==
            if BeginsLine(t, i) then BareHere(name, t[i..]) else None
  {
    hide *;
    BareStarts(name, t, i);
    BarePieces(name, t, i);
    NoGroup(BarePattern(name), t);
    if BeginsLine(t, i) && At(t, i, name) && UpTo(t[i + |name|..], '=').Some? {
      ValueGroup(name, t, i + |name| + UpTo(t[i + |name|..], '=').value);
    }
  }

  lemma ValueGroup(name: string, t: string, j: nat)
    requires j <= |t|
    ensures j + Skip(t[j..]) <= |t|
    ensures GroupFrom(BarePattern(name), t, Ends(SPACES, t, j)) == ValueAt(t[j + Skip(t[j..])..])
  {
    hide Ends, EndsFrom, GroupFrom, GroupEnd, ValueLength, Skip, Space;
    forall k | j <= k < |t| && Space(t[k])
      ensures Ends(BarePattern(name).group, t, k) == []
    {
      ValueEnds(t, k);
    }
    GroupAfterSpaces(BarePattern(name), t, j);
    var b := j + Skip(t[j..]);
    GroupFromOne(BarePattern(name), t, b);
    ValueEnds(t, b);
    if ValueLength(t[b..]).Some? {
      assert t[b..][..ValueLength(t[b..]).value] == t[b..b + ValueLength(t[b..]).value];
    }
  }

  /** Where the group can start. */
  lemma BareStarts(name: string, t: string, i: nat)
    requires i <= |t|
    ensures Ends(BarePattern(name).before, t, i) ==
            if BeginsLine(t, i) && At(t, i, name) && UpTo(t[i + |name|..], '=').Some?
            then Ends(SPACES, t, i + |name| + UpTo(t[i + |name|..], '=').value) else []
  {
    hide Ends, EndsFrom, Lit, UpTo, Within, Chr;
    var rest := Cat(SPACES, Cat(Chr('='), SPACES));
    BeginThen(Cat(Lit(name), rest), t, i);
    LitThen(name, rest, t, i);
    if At(t, i, name) {
      SpacesThenOne('=', SPACES, t, i + |name|);
    }
  }

  lemma BarePieces(name: string, t: string, i: nat)
    requires i <= |t|
    ensures At(t, i, name) ==> i + |name| <= |t|
    ensures At(t, i, name) && UpTo(t[i + |name|..], '=').Some? ==>
              var j := i + |name| + UpTo(t[i + |name|..], '=').value;
              j <= |t| && j + Skip(t[j..]) <= |t|
    ensures BareHere(name, t[i..]) ==
            if At(t, i, name) && UpTo(t[i + |name|..], '=').Some? then
              var j := i + |name| + UpTo(t[i + |name|..], '=').value;
              ValueAt(t[j + Skip(t[j..])..])
            else None
  {
    hide UpTo, Skip, ValueAt;
    if At(t, i, name) {
      SliceOfRest(t, i, |name|);
      if UpTo(t[i + |name|..], '=').Some? {
        var a := UpTo(t[i + |name|..], '=').value;
        SliceOfRest(t, i, |name| + a);
        SliceOfRest(t, i, |name| + a + Skip(t[i..][|name| + a..]));
      }
    }
  }

  /** What the pattern finds in a text is the first such assignment that begins a line. */
  lemma {:induction false} FindIsFirstBare(name: string, t: string, i: nat)
    requires i <= |t|
    ensures FindGroup(BarePattern(name), t, i) == FirstBare(name, t[i..], BeginsLine(t, i))
    decreases |t| - i
  {
    hide Ends, EndsFrom, GroupFrom, BareHere, BarePattern, Within;
    BareAt(name, t, i);
    if i < |t| {
      SliceOfRest(t, i, 1);
      FindIsFirstBare(name, t, i + 1);
    } else {
      assert t[i..] == "";
    }
  }
}

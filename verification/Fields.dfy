/** The patterns that read a Packwiz metadata file (service/internal/api/import_inventory.go), and what
    they match: for each pattern a direct description of the match at the head of a text. */
module Fields {
  import opened Text
  import opened Regex

  // ---- the patterns ----

  /** `^name\s*=\s*"`. */
  function Open(name: string): Re {
    Cat(BeginLine, Cat(Lit(name), Assign()))
  }

  function Assign(): Re {
    Cat(SPACES, Cat(Chr('='), Cat(SPACES, Chr('"'))))
  }

  const ESCAPED := Cat(Chr('\\'), One(c => c != '\n'))
  const UNQUOTED := One(c => c != '"')

  /** `(?:\\.|[^"])*`. */
  const BODY := Star(Or(ESCAPED, UNQUOTED))

  /** `"\s*$`. */
  const CLOSE := Cat(Chr('"'), REST_OF_LINE)

  function StringPattern(name: string): Pattern {
    Pattern(Open(name), BODY, CLOSE)
  }

  /** `.*?`, and `(?:^\[|\z)`. */
  const ANYTHING := Lazy(One(c => true))
  const NEXT := Or(Cat(BeginLine, Chr('[')), EndText)

  /** `^\[name\]\s*\n(.*?)(?:^\[|\z)`. */
  function SectionPattern(name: string): Pattern {
    Pattern(Cat(BeginLine, Cat(Lit("[" + name + "]"), Cat(SPACES, Chr('\n')))),
            ANYTHING,
            NEXT)
  }

  // ---- what they match at the head of a text ----

  /** The length of the leading white space. */
  function Skip(s: string): (n: nat)
    ensures n <= |s|
  {
    if s != "" && Space(s[0]) then 1 + Skip(s[1..]) else 0
  }

  /** Leading white space up to the last line end in it, if only white space is left on the line. */
  function LineEnd(s: string): (n: Option<nat>)
    ensures n.Some? ==> n.value <= Skip(s)
  {
    if s == "" then Some(0)
    else if !Space(s[0]) then None
    else match LineEnd(s[1..])
      case Some(n) => Some(1 + n)
      case None => if s[0] == '\n' then Some(0) else None
  }

  /** The length of leading white space and the character `c` after it. */
  function UpTo(s: string, c: char): (n: Option<nat>)
    ensures n.Some? ==> 1 <= n.value <= |s|
  {
    var a := Skip(s);
    if a < |s| && s[a] == c then Some(a + 1) else None
  }

  /** The length of `\s*=\s*"`. */
  function AssignHere(s: string): (n: Option<nat>)
    ensures n.Some? ==> 2 <= n.value <= |s|
  {
    match UpTo(s, '=')
    case None => None
    case Some(a) => match UpTo(s[a..], '"') case Some(b) => Some(a + b) case None => None
  }

  function OpenHere(name: string, s: string): (n: Option<nat>)
    ensures n.Some? ==> |name| + 2 <= n.value <= |s|
  {
    if name <= s then
      match AssignHere(s[|name|..]) case Some(n) => Some(|name| + n) case None => None
    else None
  }

  /** The length of the string that is first found to end here: a backslash takes the next character
      with it where that leads to a closing quote, and stands alone otherwise. */
  function CloseHere(s: string): (n: Option<nat>)
    ensures n.Some? ==> n.value < |s| && s[n.value] == '"'
  {
    if s == "" then None
    else
      var paired := if s[0] == '\\' && |s| > 1 && s[1] != '\n' then CloseHere(s[2..]) else None;
      if paired.Some? then Some(2 + paired.value)
      else if s[0] == '"' then (if LineEnd(s[1..]).Some? then Some(0) else None)
      else match CloseHere(s[1..]) case Some(n) => Some(1 + n) case None => None
  }

  /** The quoted value of the assignment at the head of `s`. */
  function FieldHere(name: string, s: string): Option<string> {
    match OpenHere(name, s)
    case None => None
    case Some(b) =>
      match CloseHere(s[b..]) case Some(n) => Some(s[b..b + n]) case None => None
  }

  /** The first assignment in `s`; `begins` tells whether `s` begins a line. */
  function FirstField(name: string, s: string, begins: bool): Option<string> {
    if begins && FieldHere(name, s).Some? then FieldHere(name, s)
    else if s == "" then None
    else FirstField(name, s[1..], s[0] == '\n')
  }

  // ---- any white space around the equals sign ----

  predicate AllSpace(s: string) {
    forall i | 0 <= i < |s| :: Space(s[i])
  }

  lemma {:induction false} SkipOver(a: string, rest: string)
    requires AllSpace(a) && (rest == "" || !Space(rest[0]))
    ensures Skip(a + rest) == |a|
  {
    if a == "" {
      assert a + rest == rest;
    } else {
      assert (a + rest)[1..] == a[1..] + rest;
      SkipOver(a[1..], rest);
    }
  }

  lemma {:induction false} LineEndOver(w: string, rest: string)
    requires AllSpace(w) && (rest == "" || rest[0] == '\n')
    ensures LineEnd(w + rest).Some?
  {
    if w == "" {
      assert w + rest == rest;
    } else {
      assert (w + rest)[1..] == w[1..] + rest;
      LineEndOver(w[1..], rest);
    }
  }

  lemma UpToOver(a: string, c: char, rest: string)
    requires AllSpace(a) && !Space(c)
    ensures UpTo(a + ([c] + rest), c) == Some(|a| + 1) && (a + ([c] + rest))[|a| + 1..] == rest
  {
    SkipOver(a, [c] + rest);
  }

  /** An assignment opens whatever white space stands around its equals sign. */
  lemma AnySpacing(name: string, a: string, b: string, rest: string)
    requires AllSpace(a) && AllSpace(b)
    ensures OpenHere(name, name + (a + ("=" + (b + ("\"" + rest))))) == Some(|name| + |a| + |b| + 2)
  {
    var value := b + ("\"" + rest);
    var s := a + ("=" + value);
    UpToOver(a, '=', value);
    UpToOver(b, '"', rest);
    hide UpTo, AllSpace;
    assert (name + s)[|name|..] == s;
  }

  // ---- the patterns match just that ----

  lemma SkipFrom(t: string, i: nat)
    requires i <= |t|
    ensures Skip(t[i..]) == if i < |t| && Space(t[i]) then 1 + Skip(t[i + 1..]) else 0
    ensures i + Skip(t[i..]) <= |t|
  {
    assert i < |t| ==> t[i..][1..] == t[i + 1..];
  }

  /** White space before something that does not begin with white space. */
  lemma {:induction false} SpacesThen(b: Re, t: string, i: nat)
    requires i <= |t| && forall j | i <= j < |t| && Space(t[j]) :: Ends(b, t, j) == []
    ensures i + Skip(t[i..]) <= |t|
    ensures Ends(Cat(SPACES, b), t, i) == Ends(b, t, i + Skip(t[i..]))
    decreases |t| - i
  {
    hide Ends, EndsFrom, Skip, Space;
    SkipFrom(t, i);
    RunThen(Space, b, t, i);
    if i < |t| && Space(t[i]) {
      SpacesThen(b, t, i + 1);
    }
  }

  /** One character. */
  lemma ChrOne(c: char, b: Re, t: string, i: nat)
    requires i <= |t|
    ensures Ends(Chr(c), t, i) == if i < |t| && t[i] == c then [i + 1] else []
    ensures Ends(Cat(Chr(c), b), t, i) == if i < |t| && t[i] == c then Ends(b, t, i + 1) else []
  {
    hide EndsFrom, Within;
    CatSingle(Chr(c), b, t, i);
  }

  /** White space and then one other character. */
  lemma SpacesThenOne(c: char, b: Re, t: string, i: nat)
    requires i <= |t| && !Space(c)
    ensures Ends(Cat(SPACES, Cat(Chr(c), b)), t, i) ==
            match UpTo(t[i..], c) case Some(n) => Ends(b, t, i + n) case None => []
  {
    hide Ends, EndsFrom, Skip, Space, Chr;
    var then_ := Cat(Chr(c), b);
    forall j | i <= j <= |t|
      ensures Ends(then_, t, j) == if j < |t| && t[j] == c then Ends(b, t, j + 1) else []
    {
      ChrOne(c, b, t, j);
    }
    SpacesThen(then_, t, i);
  }

  lemma SpacesThenLast(c: char, t: string, i: nat)
    requires i <= |t| && !Space(c)
    ensures Ends(Cat(SPACES, Chr(c)), t, i) == match UpTo(t[i..], c) case Some(n) => [i + n] case None => []
  {
    hide Ends, EndsFrom, Skip, Space, Chr;
    forall j | i <= j <= |t|
      ensures Ends(Chr(c), t, j) == if j < |t| && t[j] == c then [j + 1] else []
    {
      ChrOne(c, Empty, t, j);
    }
    SpacesThen(Chr(c), t, i);
  }

  lemma AssignEnds(t: string, i: nat)
    requires i <= |t|
    ensures Ends(Assign(), t, i) == match AssignHere(t[i..]) case Some(n) => [i + n] case None => []
  {
    hide *;
    AssignUnfolds(t, i);
    match UpTo(t[i..], '=')
    case None =>
    case Some(a) => SpacesThenQuote(t, i + a);
  }

  lemma SpacesThenQuote(t: string, i: nat)
    requires i <= |t|
    ensures Ends(Cat(SPACES, Chr('"')), t, i) == match UpTo(t[i..], '"') case Some(n) => [i + n] case None => []
  {
    hide Ends, EndsFrom, UpTo, Chr;
    SpacesThenLast('"', t, i);
  }

  lemma AssignUnfolds(t: string, i: nat)
    requires i <= |t|
    ensures Ends(Assign(), t, i) ==
            match UpTo(t[i..], '=') case Some(n) => Ends(Cat(SPACES, Chr('"')), t, i + n) case None => []
    ensures AssignHere(t[i..]) ==
            match UpTo(t[i..], '=')
            case None => None
            case Some(a) => match UpTo(t[i + a..], '"') case Some(b) => Some(a + b) case None => None
  {
    hide Ends, EndsFrom, Chr, UpTo, Within;
    SpacesThenOne('=', Cat(SPACES, Chr('"')), t, i);
    match UpTo(t[i..], '=')
    case None =>
    case Some(a) => SliceOfRest(t, i, a);
  }

  lemma SliceOfRest(t: string, i: nat, n: nat)
    requires i + n <= |t|
    ensures t[i..][n..] == t[i + n..]
  {
  }

  lemma OpenEnds(name: string, t: string, i: nat)
    requires i <= |t|
    ensures Ends(Open(name), t, i) ==
            if BeginsLine(t, i) then (match OpenHere(name, t[i..]) case Some(n) => [i + n] case None => []) else []
  {
    hide Ends, EndsFrom, Assign, AssignHere, Lit, Within;
    BeginThen(Cat(Lit(name), Assign()), t, i);
    LitThen(name, Assign(), t, i);
    if At(t, i, name) {
      SliceOfRest(t, i, |name|);
      AssignEnds(t, i + |name|);
    }
  }

  lemma LineEndIs(t: string, i: nat)
    requires i <= |t|
    ensures Ends(EndLine, t, i) == if i == |t| || t[i] == '\n' then [i] else []
    ensures i < |t| && t[i] == '\n' ==> Space(t[i])
  {
  }

  lemma {:induction false} LineEndEnds(t: string, i: nat)
    requires i <= |t|
    ensures First(Ends(REST_OF_LINE, t, i)) ==
            match LineEnd(t[i..]) case Some(n) => Some(i + n) case None => None
    decreases |t| - i
  {
    hide EndsFrom, Space, Ends;
    LineEndIs(t, i);
    RunThen(Space, EndLine, t, i);
    if i < |t| {
      assert t[i..][1..] == t[i + 1..];
      if Space(t[i]) {
        LineEndEnds(t, i + 1);
      }
    }
  }

  lemma CloseEnds(t: string, k: nat)
    requires k <= |t|
    ensures Ends(CLOSE, t, k) != [] <==> k < |t| && t[k] == '"' && LineEnd(t[k + 1..]).Some?
  {
    hide Ends, EndsFrom, Chr, LineEnd, Within;
    ChrOne('"', REST_OF_LINE, t, k);
    if k < |t| {
      LineEndEnds(t, k + 1);
    }
  }

  /** What one round of the string's star can take. */
  function Pair(t: string, i: nat): seq<nat>
    requires i <= |t|
  {
    if i + 1 < |t| && t[i] == '\\' && t[i + 1] != '\n' then [i + 2] else []
  }

  function Single(t: string, i: nat): seq<nat>
    requires i <= |t|
  {
    if i < |t| && t[i] != '"' then [i + 1] else []
  }

  lemma UnitEnds(t: string, i: nat)
    requires i <= |t|
    ensures Ends(Or(ESCAPED, UNQUOTED), t, i) == Pair(t, i) + Single(t, i)
  {
    ChrOne('\\', One(c => c != '\n'), t, i);
  }

  lemma BodyStep(t: string, i: nat)
    requires i <= |t|
    ensures Ends(BODY, t, i) ==
            (if Pair(t, i) != [] then Ends(BODY, t, i + 2) else []) +
            (if Single(t, i) != [] then Ends(BODY, t, i + 1) else []) + [i]
  {
    hide Ends, EndsFrom;
    UnitEnds(t, i);
    StarStep(Or(ESCAPED, UNQUOTED), t, i);
    EndsFromAppend(BODY, t, Pair(t, i), Single(t, i), i + 1);
    if Pair(t, i) != [] {
      EndsFromOne(BODY, t, i + 2, i + 1);
    }
    if Single(t, i) != [] {
      EndsFromOne(BODY, t, i + 1, i + 1);
    }
    EndsFromNone(BODY, t, i + 1);
  }

  lemma EndsFromNone(r: Re, t: string, lo: nat)
    requires lo <= |t| + 1
    ensures EndsFrom(r, t, [], lo) == []
  {
  }

  lemma ClosePieces(t: string, i: nat)
    requires i <= |t|
    ensures CloseHere(t[i..]) ==
            if Pair(t, i) != [] && CloseHere(t[i + 2..]).Some? then Some(2 + CloseHere(t[i + 2..]).value)
            else if Single(t, i) != [] && CloseHere(t[i + 1..]).Some? then Some(1 + CloseHere(t[i + 1..]).value)
            else if i < |t| && t[i] == '"' && LineEnd(t[i + 1..]).Some? then Some(0)
            else None
  {
    if i < |t| {
      assert t[i..][1..] == t[i + 1..];
    }
    if i + 1 < |t| {
      assert t[i..][2..] == t[i + 2..];
    }
  }

  lemma BodyGroup(t: string, i: nat)
    requires i <= |t|
    ensures GroupEnd(CLOSE, t, Ends(BODY, t, i)) ==
            if Pair(t, i) != [] && GroupEnd(CLOSE, t, Ends(BODY, t, i + 2)).Some?
            then GroupEnd(CLOSE, t, Ends(BODY, t, i + 2))
            else if Single(t, i) != [] && GroupEnd(CLOSE, t, Ends(BODY, t, i + 1)).Some?
            then GroupEnd(CLOSE, t, Ends(BODY, t, i + 1))
            else if Ends(CLOSE, t, i) != [] then Some(i) else None
  {
    hide Ends, EndsFrom, GroupEnd, CloseHere, LineEnd;
    BodyStep(t, i);
    var pair := if Pair(t, i) != [] then Ends(BODY, t, i + 2) else [];
    var single := if Single(t, i) != [] then Ends(BODY, t, i + 1) else [];
    GroupEndAppend(CLOSE, t, pair + single, [i]);
    GroupEndAppend(CLOSE, t, pair, single);
    GroupEndOne(CLOSE, t, i);
  }

  lemma {:induction false} BodyEnds(t: string, i: nat)
    requires i <= |t|
    ensures GroupEnd(CLOSE, t, Ends(BODY, t, i)) == match CloseHere(t[i..]) case Some(n) => Some(i + n) case None => None
    decreases |t| - i
  {
    hide *;
    ClosePieces(t, i);
    PairInside(t, i);
    BodyGroup(t, i);
    CloseEnds(t, i);
    if Pair(t, i) != [] {
      BodyEnds(t, i + 2);
    }
    if Single(t, i) != [] {
      BodyEnds(t, i + 1);
    }
  }

  lemma PairInside(t: string, i: nat)
    requires i <= |t|
    ensures Pair(t, i) != [] ==> i + 2 <= |t|
    ensures Single(t, i) != [] ==> i + 1 <= |t|
  {
  }

  lemma GroupEndOne(after: Re, t: string, i: nat)
    requires i <= |t|
    ensures GroupEnd(after, t, [i]) == if Ends(after, t, i) != [] then Some(i) else None
    ensures GroupEnd(after, t, []) == None
  {
    assert [i][1..] == [];
  }

  // ---- the first field of a text ----

  lemma FieldAt(name: string, t: string, i: nat)
    requires i <= |t|
    ensures GroupFrom(StringPattern(name), t, Ends(Open(name), t, i)) ==
            if BeginsLine(t, i) then FieldHere(name, t[i..]) else None
  {
    hide *;
    FieldPieces(name, t, i);
    OpenEnds(name, t, i);
    NoGroup(StringPattern(name), t);
    match OpenHere(name, t[i..])
    case None =>
    case Some(b) =>
      BodyEnds(t, i + b);
      GroupFromOne(StringPattern(name), t, i + b);
  }

  lemma FieldPieces(name: string, t: string, i: nat)
    requires i <= |t|
    ensures FieldHere(name, t[i..]) ==
            match OpenHere(name, t[i..])
            case None => None
            case Some(b) => match CloseHere(t[i + b..]) case Some(n) => Some(t[i + b..i + b + n]) case None => None
    ensures StringPattern(name).group == BODY && StringPattern(name).after == CLOSE
  {
    hide OpenHere, CloseHere, Open;
    match OpenHere(name, t[i..])
    case None =>
    case Some(b) =>
      SliceOfRest(t, i, b);
      match CloseHere(t[i + b..])
      case None =>
      case Some(n) => assert t[i..][b..b + n] == t[i + b..i + b + n];
  }

  lemma NoGroup(p: Pattern, t: string)
    ensures GroupFrom(p, t, []) == None
  {
  }

  lemma GroupFromOne(p: Pattern, t: string, j: nat)
    requires j <= |t|
    ensures GroupFrom(p, t, [j]) ==
            match GroupEnd(p.after, t, Ends(p.group, t, j)) case Some(k) => Some(t[j..k]) case None => None
  {
    hide Ends, GroupEnd;
    assert [j][1..] == [];
  }

  /** What the pattern finds in a text is the first assignment that begins a line. */
  lemma {:induction false} FindIsFirstField(name: string, t: string, i: nat)
    requires i <= |t|
    ensures FindGroup(StringPattern(name), t, i) == FirstField(name, t[i..], BeginsLine(t, i))
    decreases |t| - i
  {
    hide Ends, GroupFrom, FieldHere, Open;
    FieldAt(name, t, i);
    if i < |t| {
      assert t[i..][1..] == t[i + 1..];
      FindIsFirstField(name, t, i + 1);
    } else {
      assert t[i..] == "";
    }
  }

  // ---- sections ----

  /** Leading white space up to and with the last line break in it. */
  function BreakEnd(s: string): (n: Option<nat>)
    ensures n.Some? ==> 1 <= n.value <= |s| && s[n.value - 1] == '\n'
  {
    if s == "" || !Space(s[0]) then None
    else match BreakEnd(s[1..])
      case Some(n) => Some(1 + n)
      case None => if s[0] == '\n' then Some(1) else None
  }

  function HeaderHere(name: string, s: string): (n: Option<nat>)
    ensures n.Some? ==> 1 <= n.value <= |s| && s[n.value - 1] == '\n'
  {
    var header := "[" + name + "]";
    if header <= s then
      match BreakEnd(s[|header|..]) case Some(n) => Some(|header| + n) case None => None
    else None
  }

  /** The length of the text before the next line that begins with a bracket. */
  function ToNextHeader(s: string, begins: bool): (n: nat)
    ensures n <= |s|
  {
    if s == "" || (begins && s[0] == '[') then 0 else 1 + ToNextHeader(s[1..], s[0] == '\n')
  }

  function SectionHere(name: string, s: string): Option<string> {
    match HeaderHere(name, s)
    case None => None
    case Some(h) => Some(s[h..h + ToNextHeader(s[h..], true)])
  }

  function FirstSection(name: string, s: string, begins: bool): Option<string> {
    if begins && SectionHere(name, s).Some? then SectionHere(name, s)
    else if s == "" then None
    else FirstSection(name, s[1..], s[0] == '\n')
  }

  lemma {:induction false} BreakEnds(t: string, i: nat)
    requires i <= |t|
    ensures First(Ends(Cat(SPACES, Chr('\n')), t, i)) ==
            match BreakEnd(t[i..]) case Some(n) => Some(i + n) case None => None
    decreases |t| - i
  {
    hide EndsFrom, Space, Ends, Chr;
    NewlineIsSpace(t, i);
    RunThen(Space, Chr('\n'), t, i);
    if i < |t| {
      assert t[i..][1..] == t[i + 1..];
      if Space(t[i]) {
        BreakEnds(t, i + 1);
      }
    }
  }

  lemma NewlineIsSpace(t: string, i: nat)
    requires i <= |t|
    ensures Ends(Chr('\n'), t, i) == if i < |t| && t[i] == '\n' then [i + 1] else []
    ensures i < |t| && t[i] == '\n' ==> Space(t[i])
  {
  }

  lemma HeaderEnds(name: string, t: string, i: nat)
    requires i <= |t|
    ensures First(Ends(SectionPattern(name).before, t, i)) ==
            if !BeginsLine(t, i) then None
            else match HeaderHere(name, t[i..]) case Some(n) => Some(i + n) case None => None
  {
    hide Ends, EndsFrom, Lit, BreakEnd, Within, Chr;
    var header := "[" + name + "]";
    var rest := Cat(SPACES, Chr('\n'));
    BeginThen(Cat(Lit(header), rest), t, i);
    LitThen(header, rest, t, i);
    if At(t, i, header) {
      SliceOfRest(t, i, |header|);
      BreakEnds(t, i + |header|);
    }
  }

  lemma NextEnds(t: string, j: nat)
    requires j <= |t|
    ensures Ends(NEXT, t, j) != [] <==> j == |t| || (BeginsLine(t, j) && t[j] == '[')
  {
    BeginThen(Chr('['), t, j);
  }

  lemma AnythingStep(t: string, j: nat)
    requires j <= |t|
    ensures Ends(ANYTHING, t, j) == [j] + if j < |t| then Ends(ANYTHING, t, j + 1) else []
  {
    StarStep(One(c => true), t, j);
    if j < |t| {
      EndsFromOne(ANYTHING, t, j + 1, j + 1);
    }
  }

  lemma {:induction false} SectionLength(t: string, j: nat)
    requires j <= |t|
    ensures GroupEnd(NEXT, t, Ends(ANYTHING, t, j)) == Some(j + ToNextHeader(t[j..], BeginsLine(t, j)))
    decreases |t| - j
  {
    hide Ends, EndsFrom, GroupEnd;
    AnythingStep(t, j);
    NextEnds(t, j);
    GroupEndOne(NEXT, t, j);
    if j < |t| {
      GroupEndAppend(NEXT, t, [j], Ends(ANYTHING, t, j + 1));
      SliceOfRest(t, j, 1);
      SectionLength(t, j + 1);
    } else {
      assert t[j..] == "" && [j] + [] == [j];
    }
  }

  lemma SectionAt(name: string, t: string, i: nat)
    requires i <= |t|
    ensures GroupFrom(SectionPattern(name), t, Ends(SectionPattern(name).before, t, i)) ==
            if BeginsLine(t, i) then SectionHere(name, t[i..]) else None
  {
    hide Ends, EndsFrom, GroupEnd, HeaderHere, ToNextHeader, Within;
    var p := SectionPattern(name);
    HeaderEnds(name, t, i);
    if Ends(p.before, t, i) != [] {
      var j := Ends(p.before, t, i)[0];
      SectionLength(t, j);
      SectionPieces(name, t, i);
    }
  }

  lemma SectionPieces(name: string, t: string, i: nat)
    requires i <= |t| && HeaderHere(name, t[i..]).Some?
    ensures var j := i + HeaderHere(name, t[i..]).value;
            && BeginsLine(t, j)
            && SectionHere(name, t[i..]) == Some(t[j..j + ToNextHeader(t[j..], true)])
  {
    hide HeaderHere, ToNextHeader;
    var h := HeaderHere(name, t[i..]).value;
    SliceOfRest(t, i, h);
    assert t[i..][h - 1] == t[i + h - 1];
    var n := ToNextHeader(t[i + h..], true);
    assert t[i..][h..h + n] == t[i + h..i + h + n];
  }

  lemma {:induction false} FindIsFirstSection(name: string, t: string, i: nat)
    requires i <= |t|
    ensures FindGroup(SectionPattern(name), t, i) == FirstSection(name, t[i..], BeginsLine(t, i))
    decreases |t| - i
  {
    hide Ends, GroupFrom, SectionHere, SectionPattern;
    SectionAt(name, t, i);
    if i < |t| {
      SliceOfRest(t, i, 1);
      FindIsFirstSection(name, t, i + 1);
    } else {
      assert t[i..] == "";
    }
  }
}

/** Regular expressions as Go's regexp package matches them, for the constructs the manager uses: the
    leftmost match, and among the matches there the one a backtracking search finds first. */
module Regex {
  import opened Text

  /** `One` is a character class, `Lazy` the reluctant star; `BeginLine` and `EndLine` are `^` and `$`
      in multi-line mode, `EndText` is `\z`. */
  datatype Re =
    | Empty
    | One(ok: char -> bool)
    | Cat(first: Re, second: Re)
    | Or(left: Re, right: Re)
    | Star(body: Re)
    | Lazy(body: Re)
    | BeginLine
    | EndLine
    | EndText

  predicate BeginsLine(t: string, i: nat)
    requires i <= |t|
  {
    i == 0 || t[i - 1] == '\n'
  }

  predicate EndsLine(t: string, i: nat)
    requires i <= |t|
  {
    i == |t| || t[i] == '\n'
  }

  /** Where a match of `r` from `i` on can end, in the order in which a backtracking search gets there. */
  function Ends(r: Re, t: string, i: nat): (js: seq<nat>)
    requires i <= |t|
    ensures Within(js, i, |t|)
    decreases |t| + 1 - i, r, 0
  {
    match r
    case Empty => [i]
    case One(ok) => if i < |t| && ok(t[i]) then [i + 1] else []
    case Cat(first, second) => EndsFrom(second, t, Ends(first, t, i), i)
    case Or(left, right) => Ends(left, t, i) + Ends(right, t, i)
    case Star(body) => EndsFrom(r, t, Beyond(Ends(body, t, i), i, |t|), i + 1) + [i]
    case Lazy(body) => [i] + EndsFrom(r, t, Beyond(Ends(body, t, i), i, |t|), i + 1)
    case BeginLine => if BeginsLine(t, i) then [i] else []
    case EndLine => if EndsLine(t, i) then [i] else []
    case EndText => if i == |t| then [i] else []
  }

  function EndsFrom(r: Re, t: string, js: seq<nat>, lo: nat): (ks: seq<nat>)
    requires lo <= |t| + 1 && Within(js, lo, |t|)
    ensures Within(ks, lo, |t|)
    decreases |t| + 1 - lo, r, |js| + 1
  {
    if js == [] then [] else Ends(r, t, js[0]) + EndsFrom(r, t, js[1..], lo)
  }

  /** Positions between two bounds. */
  predicate Within(js: seq<nat>, lo: nat, hi: nat) {
    forall k | 0 <= k < |js| :: lo <= js[k] <= hi
  }

  function Beyond(js: seq<nat>, i: nat, hi: nat): (ks: seq<nat>)
    requires Within(js, i, hi)
    ensures Within(ks, i + 1, hi)
  {
    if js == [] then [] else (if js[0] > i then [js[0]] else []) + Beyond(js[1..], i, hi)
  }

  function First<T>(s: seq<T>): Option<T> {
    if s == [] then None else Some(s[0])
  }

  /** The leftmost match from `i` on: start and end. */
  function Find(r: Re, t: string, i: nat): (m: Option<(nat, nat)>)
    requires i <= |t|
    ensures m.Some? ==> i <= m.value.0 <= m.value.1 <= |t|
    decreases |t| - i
  {
    if Ends(r, t, i) != [] then Some((i, Ends(r, t, i)[0]))
    else if i < |t| then Find(r, t, i + 1)
    else None
  }

  /** `ReplaceAllString` for a replacement without `$` and a pattern that never matches the empty text. */
  function ReplaceAll(r: Re, t: string, i: nat, replacement: string): string
    requires i <= |t|
    decreases |t| - i
  {
    match Find(r, t, i)
    case None => t[i..]
    case Some((start, end)) =>
      if end == start then t[i..] else t[i..start] + replacement + ReplaceAll(r, t, end, replacement)
  }

  /** A pattern with one group. */
  datatype Pattern = Pattern(before: Re, group: Re, after: Re)

  function GroupEnd(after: Re, t: string, ks: seq<nat>): (k: Option<nat>)
    requires Within(ks, 0, |t|)
    ensures k.Some? ==> exists n :: 0 <= n < |ks| && ks[n] == k.value
  {
    if ks == [] then None
    else if Ends(after, t, ks[0]) != [] then Some(ks[0])
    else
      var k := GroupEnd(after, t, ks[1..]);
      assert k.Some? ==> exists n :: 0 <= n < |ks[1..]| && ks[1..][n] == k.value && ks[n + 1] == k.value;
      k
  }

  function GroupFrom(p: Pattern, t: string, js: seq<nat>): (g: Option<string>)
    requires Within(js, 0, |t|)
  {
    if js == [] then None
    else match GroupEnd(p.after, t, Ends(p.group, t, js[0]))
      case Some(k) => Some(t[js[0]..k])
      case None => GroupFrom(p, t, js[1..])
  }

  /** What the group of the leftmost match holds (`FindSubmatch`). */
  function FindGroup(p: Pattern, t: string, i: nat): Option<string>
    requires i <= |t|
    decreases |t| - i
  {
    match GroupFrom(p, t, Ends(p.before, t, i))
    case Some(g) => Some(g)
    case None => if i < |t| then FindGroup(p, t, i + 1) else None
  }

  // ---- building blocks ----

  function Lit(s: string): Re {
    if s == "" then Empty else Cat(One(c => c == s[0]), Lit(s[1..]))
  }

  function Chr(c: char): Re {
    One(x => x == c)
  }

  /** `\s`. */
  predicate Space(c: char) {
    c == '\t' || c == '\n' || c == '\U{0C}' || c == '\r' || c == ' '
  }

  const SPACES := Star(One(Space))

  /** `\s*$`. */
  const REST_OF_LINE := Cat(SPACES, EndLine)

  lemma {:induction false} EndsFromAppend(r: Re, t: string, js: seq<nat>, ks: seq<nat>, lo: nat)
    requires lo <= |t| + 1 && Within(js, lo, |t|) && Within(ks, lo, |t|)
    ensures EndsFrom(r, t, js + ks, lo) == EndsFrom(r, t, js, lo) + EndsFrom(r, t, ks, lo)
  {
    hide Ends;
    if js == [] {
      assert js + ks == ks;
    } else {
      assert (js + ks)[0] == js[0] && (js + ks)[1..] == js[1..] + ks;
      EndsFromAppend(r, t, js[1..], ks, lo);
    }
  }

  lemma {:induction false} EndsFromAnyBound(r: Re, t: string, js: seq<nat>, lo: nat, lower: nat)
    requires lower <= lo <= |t| + 1 && Within(js, lo, |t|)
    ensures EndsFrom(r, t, js, lo) == EndsFrom(r, t, js, lower)
  {
    if js != [] {
      EndsFromAnyBound(r, t, js[1..], lo, lower);
    }
  }

  lemma EndsFromOne(r: Re, t: string, j: nat, lo: nat)
    requires lo <= j <= |t|
    ensures EndsFrom(r, t, [j], lo) == Ends(r, t, j)
  {
    assert EndsFrom(r, t, [j][1..], lo) == [];
  }

  lemma {:induction false} GroupEndAppend(after: Re, t: string, js: seq<nat>, ks: seq<nat>)
    requires Within(js, 0, |t|) && Within(ks, 0, |t|)
    ensures GroupEnd(after, t, js + ks) ==
            if GroupEnd(after, t, js).Some? then GroupEnd(after, t, js) else GroupEnd(after, t, ks)
  {
    hide Ends;
    if js == [] {
      assert js + ks == ks;
    } else {
      assert (js + ks)[0] == js[0] && (js + ks)[1..] == js[1..] + ks;
      GroupEndAppend(after, t, js[1..], ks);
    }
  }

  lemma BeginThen(b: Re, t: string, i: nat)
    requires i <= |t|
    ensures Ends(Cat(BeginLine, b), t, i) == if BeginsLine(t, i) then Ends(b, t, i) else []
  {
    CatSingle(BeginLine, b, t, i);
  }

  lemma LitThen(s: string, b: Re, t: string, i: nat)
    requires i <= |t|
    ensures Ends(Cat(Lit(s), b), t, i) == if At(t, i, s) then Ends(b, t, i + |s|) else []
  {
    hide Ends, EndsFrom, Lit;
    LitEnds(s, t, i);
    CatSingle(Lit(s), b, t, i);
  }

  /** A concatenation whose first part matches in at most one way. */
  lemma CatSingle(a: Re, b: Re, t: string, i: nat)
    requires i <= |t| && |Ends(a, t, i)| <= 1
    ensures Ends(Cat(a, b), t, i) == if Ends(a, t, i) == [] then [] else Ends(b, t, Ends(a, t, i)[0])
  {
    var js := Ends(a, t, i);
    if js != [] {
      assert js == [js[0]];
      EndsFromOne(b, t, js[0], i);
    }
  }

  /** `s` stands at position `i`. */
  predicate At(t: string, i: nat, s: string)
    requires i <= |t|
  {
    s <= t[i..]
  }

  lemma {:induction false} LitEnds(s: string, t: string, i: nat)
    requires i <= |t|
    ensures Ends(Lit(s), t, i) == if At(t, i, s) then [i + |s|] else []
  {
    hide Ends, EndsFrom, Within;
    if s == "" {
      EmptyEnds(t, i);
    } else {
      var head := One(c => c == s[0]);
      OneEnds(head.ok, t, i);
      CatSingle(head, Lit(s[1..]), t, i);
      if i < |t| && t[i] == s[0] {
        LitEnds(s[1..], t, i + 1);
        assert t[i..] == [t[i]] + t[i + 1..] && s == [s[0]] + s[1..];
      }
    }
  }

  lemma EmptyEnds(t: string, i: nat)
    requires i <= |t|
    ensures Ends(Empty, t, i) == [i]
  {
  }

  lemma OneEnds(ok: char -> bool, t: string, i: nat)
    requires i <= |t|
    ensures Ends(One(ok), t, i) == if i < |t| && ok(t[i]) then [i + 1] else []
  {
  }

  lemma {:induction false} BeyondAll(js: seq<nat>, i: nat, hi: nat)
    requires Within(js, i + 1, hi)
    ensures Beyond(js, i, hi) == js
  {
    if js != [] {
      BeyondAll(js[1..], i, hi);
    }
  }

  /** A star whose body never matches the empty text. */
  lemma StarStep(body: Re, t: string, i: nat)
    requires i <= |t| && Within(Ends(body, t, i), i + 1, |t|)
    ensures Ends(Star(body), t, i) == EndsFrom(Star(body), t, Ends(body, t, i), i + 1) + [i]
    ensures Ends(Lazy(body), t, i) == [i] + EndsFrom(Lazy(body), t, Ends(body, t, i), i + 1)
  {
    BeyondAll(Ends(body, t, i), i, |t|);
  }

  lemma StarOne(ok: char -> bool, t: string, i: nat)
    requires i <= |t|
    ensures var star := Star(One(ok));
            Ends(star, t, i) == if i < |t| && ok(t[i]) then Ends(star, t, i + 1) + [i] else [i]
  {
    StarStep(One(ok), t, i);
    if i < |t| && ok(t[i]) {
      EndsFromOne(Star(One(ok)), t, i + 1, i + 1);
    }
  }

  lemma CatIs(a: Re, b: Re, t: string, i: nat)
    requires i <= |t|
    ensures Ends(Cat(a, b), t, i) == EndsFrom(b, t, Ends(a, t, i), i)
  {
  }

  /** A greedy run of a class before `b`: the rest of the run first. */
  lemma RunThen(ok: char -> bool, b: Re, t: string, i: nat)
    requires i <= |t|
    ensures Ends(Cat(Star(One(ok)), b), t, i) ==
            (if i < |t| && ok(t[i]) then Ends(Cat(Star(One(ok)), b), t, i + 1) else []) + Ends(b, t, i)
  {
    hide Ends, EndsFrom;
    var star := Star(One(ok));
    StarOne(ok, t, i);
    CatIs(star, b, t, i);
    EndsFromOne(b, t, i, i);
    if i < |t| && ok(t[i]) {
      var more := Ends(star, t, i + 1);
      CatIs(star, b, t, i + 1);
      EndsFromAnyBound(b, t, more, i + 1, i);
      EndsFromAppend(b, t, more, [i], i);
    }
  }

  /** The five characters of `\s`; the vertical tab is not one. */
  lemma SpaceCharacters(c: char)
    ensures Space(c) <==> c == ' ' || c as int == 9 || c as int == 10 || c as int == 12 || c as int == 13
  {
  }
}

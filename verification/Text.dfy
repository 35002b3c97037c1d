/** String operations of the Go standard library that the manager relies on.
    A Go string is modelled by its sequence of bytes, one `char` per byte, except in the
    metadata modules, where it is its sequence of runes. */
module Text {

  datatype Option<+T> = None | Some(value: T)

  datatype Result<+T> = Ok(value: T) | Err

  /** `strings.Split(s, "/")`. */
  function Split(s: string): (parts: seq<string>)
    ensures |parts| >= 1
    ensures forall p | p in parts :: '/' !in p
  {
    if s == "" then [""]
    else
      var rest := Split(s[1..]);
      if s[0] == '/' then [""] + rest else [[s[0]] + rest[0]] + rest[1..]
  }

  /** `strings.Join(parts, "/")`. */
  function Join(parts: seq<string>): string {
    if |parts| == 0 then ""
    else if |parts| == 1 then parts[0]
    else parts[0] + "/" + Join(parts[1..])
  }

  lemma {:induction false} JoinOfSplit(s: string)
    ensures Join(Split(s)) == s
  {
    if s != "" {
      JoinOfSplit(s[1..]);
      var rest := Split(s[1..]);
      if s[0] != '/' && |rest| > 1 {
        assert Split(s)[1..] == rest[1..];
      }
    }
  }

  lemma {:induction false} SplitOfPlain(s: string)
    requires '/' !in s
    ensures Split(s) == [s]
  {
    if s != "" {
      assert s[0] in s && s == [s[0]] + s[1..];
      SplitOfPlain(s[1..]);
    }
  }

  lemma SplitHead(c: char, s: string)
    ensures Split([c] + s) == if c == '/' then [""] + Split(s) else [[c] + Split(s)[0]] + Split(s)[1..]
  {
    assert ([c] + s)[1..] == s;
  }

  /** A separator splits the text in two independent halves. */
  lemma {:induction false} SplitAtSlash(a: string, b: string)
    ensures Split(a + "/" + b) == Split(a) + Split(b)
  {
    if a == "" {
      SplitHead('/', b);
      assert Split("") == [""] && "" + "/" + b == ['/'] + b;
    } else {
      hide Split;
      SplitAtSlash(a[1..], b);
      SplitHead(a[0], a[1..]);
      SplitHead(a[0], a[1..] + "/" + b);
      FirstApart(a, b);
      PartsApart(a[0], Split(a[1..]), Split(b));
    }
  }

  lemma FirstApart(a: string, b: string)
    requires a != ""
    ensures [a[0]] + a[1..] == a && [a[0]] + (a[1..] + "/" + b) == a + "/" + b
  {
  }

  lemma PartsApart(c: char, parts: seq<string>, more: seq<string>)
    requires |parts| >= 1
    ensures [""] + (parts + more) == [""] + parts + more
    ensures [[c] + (parts + more)[0]] + (parts + more)[1..] == [[c] + parts[0]] + parts[1..] + more
  {
  }

  lemma {:induction false} SplitOfJoin(parts: seq<string>)
    requires |parts| >= 1
    requires forall p | p in parts :: '/' !in p
    ensures Split(Join(parts)) == parts
  {
    if |parts| == 1 {
      SplitOfPlain(parts[0]);
    } else {
      SplitAtSlash(parts[0], Join(parts[1..]));
      SplitOfPlain(parts[0]);
      SplitOfJoin(parts[1..]);
      assert [parts[0]] + parts[1..] == parts;
    }
  }

  lemma {:induction false} JoinAppend(a: seq<string>, b: seq<string>)
    requires |a| >= 1 && |b| >= 1
    ensures Join(a + b) == Join(a) + "/" + Join(b)
  {
    if |a| == 1 {
      assert (a + b)[1..] == b;
    } else {
      assert (a + b)[1..] == a[1..] + b;
      JoinAppend(a[1..], b);
    }
  }

  /** A string prefix ending in a separator is a component prefix, for every two strings. */
  lemma PrefixIsComponentPrefix(dir: string, s: string)
    ensures dir + "/" <= s <==> Split(dir) < Split(s)
  {
    if dir + "/" <= s {
      var rest := s[|dir| + 1..];
      assert s == dir + "/" + rest;
      SplitAtSlash(dir, rest);
    }
    if Split(dir) < Split(s) {
      var rest := Split(s)[|Split(dir)|..];
      assert Split(s) == Split(dir) + rest;
      JoinAppend(Split(dir), rest);
      JoinOfSplit(dir);
      JoinOfSplit(s);
    }
  }

  lemma SplitInjective(a: string, b: string)
    requires Split(a) == Split(b)
    ensures a == b
  {
    JoinOfSplit(a);
    JoinOfSplit(b);
  }

  /** `fmt.Sprint(n)` for a number that is not negative. */
  function Decimal(n: nat): (s: string)
    ensures |s| >= 1 && AllDigits(s)
  {
    if n < 10 then [Digit(n)] else Decimal(n / 10) + [Digit(n % 10)]
  }

  predicate AllDigits(s: string) {
    forall i | 0 <= i < |s| :: '0' <= s[i] <= '9'
  }

  function Digit(d: nat): (c: char)
    requires d < 10
    ensures '0' <= c <= '9' && c as int - '0' as int == d
  {
    ('0' as int + d) as char
  }

  /** The number a string of digits stands for. */
  function DecimalValue(s: string): nat
    requires AllDigits(s)
  {
    if s == "" then 0
    else DecimalValue(s[..|s| - 1]) * 10 + (s[|s| - 1] as int - '0' as int)
  }

  lemma {:induction false} ValueOfDecimal(n: nat)
    ensures DecimalValue(Decimal(n)) == n
  {
    var s := Decimal(n);
    if n < 10 {
      assert s[..0] == "";
    } else {
      ValueOfDecimal(n / 10);
      assert s[..|s| - 1] == Decimal(n / 10);
    }
  }

  lemma DecimalInjective(a: nat, b: nat)
    requires Decimal(a) == Decimal(b)
    ensures a == b
  {
    ValueOfDecimal(a);
    ValueOfDecimal(b);
  }

  /** `strings.HasSuffix`. */
  predicate HasSuffix(s: string, suffix: string) {
    |suffix| <= |s| && s[|s| - |suffix|..] == suffix
  }

  /** `strings.TrimSuffix`. */
  function TrimSuffix(s: string, suffix: string): string {
    if HasSuffix(s, suffix) then s[..|s| - |suffix|] else s
  }

  /** `strings.TrimLeft(s, "/")` and `strings.TrimRight(s, "/")`. */
  function TrimLeft(s: string): string {
    if "/" <= s then TrimLeft(s[1..]) else s
  }

  function TrimRight(s: string): string {
    if HasSuffix(s, "/") then TrimRight(s[..|s| - 1]) else s
  }

  /** `strings.ToLower` on the ASCII letters. */
  function ToLower(s: string): (r: string)
    ensures |r| == |s|
  {
    seq(|s|, i requires 0 <= i < |s| => if 'A' <= s[i] <= 'Z' then (s[i] as int + 32) as char else s[i])
  }

  predicate IsSpace(c: char) {
    c in " \t\n\r" || c as int == 11 || c as int == 12
  }

  /** `strings.TrimSpace` on ASCII. */
  function TrimSpace(s: string): string {
    if s != "" && IsSpace(s[0]) then TrimSpace(s[1..])
    else if s != "" && IsSpace(s[|s| - 1]) then TrimSpace(s[..|s| - 1])
    else s
  }

  /** Trimming takes white space off both ends and nothing else. */
  lemma {:induction false} TrimSpaceTrims(s: string) returns (a: string, b: string)
    ensures s == a + TrimSpace(s) + b
    ensures (forall i | 0 <= i < |a| :: IsSpace(a[i])) && (forall i | 0 <= i < |b| :: IsSpace(b[i]))
    ensures TrimSpace(s) != "" ==> !IsSpace(TrimSpace(s)[0]) && !IsSpace(TrimSpace(s)[|TrimSpace(s)| - 1])
    decreases |s|
  {
    TrimStep(s);
    hide IsSpace, TrimSpace;
    if s != "" && IsSpace(s[0]) {
      a, b := TrimSpaceTrims(s[1..]);
      Around([s[0]], a, TrimSpace(s), b, "");
      assert s == [s[0]] + s[1..];
      a := [s[0]] + a;
    } else if s != "" && IsSpace(s[|s| - 1]) {
      a, b := TrimSpaceTrims(s[..|s| - 1]);
      Around("", a, TrimSpace(s), b, [s[|s| - 1]]);
      assert s == s[..|s| - 1] + [s[|s| - 1]];
      b := b + [s[|s| - 1]];
    } else {
      a, b := "", "";
      assert s == "" + s + "";
    }
  }

  lemma TrimStep(s: string)
    ensures TrimSpace(s) ==
            if s != "" && IsSpace(s[0]) then TrimSpace(s[1..])
            else if s != "" && IsSpace(s[|s| - 1]) then TrimSpace(s[..|s| - 1])
            else s
  {
    hide IsSpace;
  }

  lemma Around(front: string, a: string, middle: string, b: string, back: string)
    ensures front + (a + middle + b) + back == (front + a) + middle + (b + back)
    ensures front == "" ==> front + a == a
    ensures back == "" ==> b + back == b && front + (a + middle + b) == (front + a) + middle + b
    ensures front == "" ==> (a + middle + b) + back == a + middle + (b + back)
  {
  }

  /** The digits of a number, the last one first. */
  lemma DecimalDigits(n: nat)
    ensures n < 10 ==> Decimal(n) == [['0', '1', '2', '3', '4', '5', '6', '7', '8', '9'][n]]
    ensures n >= 10 ==> Decimal(n) == Decimal(n / 10) + Decimal(n % 10)
  {
  }

  lemma SpaceCharacters(c: char)
    ensures IsSpace(c) <==> c == ' ' || 9 <= c as int <= 13
  {
  }

  predicate Slashes(s: string) {
    forall i | 0 <= i < |s| :: s[i] == '/'
  }

  /** All slashes at the ends go, however many, and no others. */
  lemma {:induction false} SlashesAreTrimmed(front: string, s: string, back: string)
    requires Slashes(front) && Slashes(back) && s != "" && s[0] != '/' && s[|s| - 1] != '/'
    ensures TrimLeft(front + s + back) == s + back && TrimRight(s + back) == s
    decreases |front| + |back|
  {
    if front != "" {
      assert (front + s + back)[0] == '/' && (front + s + back)[1..] == front[1..] + s + back;
      SlashesAreTrimmed(front[1..], s, back);
    } else if back != "" {
      var shorter := back[..|back| - 1];
      assert s + back == s + shorter + "/" && (s + back)[..|s + back| - 1] == s + shorter;
      SlashesAreTrimmed("", s, shorter);
      assert "" + s + back == s + back && (s + back)[0] == s[0];
    } else {
      assert front + s + back == s && s + back == s;
    }
  }
}

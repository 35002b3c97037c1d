/** What a metadata file says about its side after `setMetadataSide`. */
module SideReading {
  import opened Text
  import opened Paths
  import opened Regex
  import opened Fields
  import opened Quoting
  import opened Metadata
  import opened SideEdit

  // ---- strings that run into a side line ----

  /** No string ends at a quote that is followed by more text on its line. */
  lemma {:induction false} CloseDead(p: string, x: string)
    requires x != "" && !Space(x[0]) && '"' !in p && '\\' !in p
    ensures CloseHere(p + ("\"" + x)).None?
  {
    var s := p + ("\"" + x);
    if p == "" {
      assert s[0] == '"' && s[1..] == x;
    } else {
      assert s[0] == p[0] && p[0] in p;
      assert s[1..] == p[1..] + ("\"" + x);
      CloseDead(p[1..], x);
    }
  }

  lemma SpaceIsPlain(s: string)
    requires AllSpace(s)
    ensures '"' !in s && '\\' !in s
  {
  }

  /** A string that is still open where a side line begins has no end. */
  lemma SideIsDead(s: string)
    requires SideHere(s).Some?
    ensures CloseHere(s).None?
  {
    hide AssignHere, ValueHere, AllSpace, SideHere, OpenHere, CloseHere;
    SideParts(s);
    var b := OpenHere("side", s).value;
    var x, y := AssignForm(s[4..]);
    var word, w := ValueForm(s[b..]);
    SpaceIsPlain(x);
    SpaceIsPlain(y);
    var p := "side" + x + "=" + y;
    ThreeParts(s, b, b);
    assert s == p + ("\"" + s[b..]);
    CloseDead(p, s[b..]);
  }

  /** The edit changes no string before the first side line after it. */
  lemma {:induction false} CloseAgrees(s: string, begins: bool, side: string)
    requires ValidSide(side)
    ensures SameClose(s, Edited(s, begins, side))
    decreases |s|
  {
    hide SideHere, Edited, LineEnd, CloseHere;
    var v := Edited(s, begins, side);
    if begins && SideHere(s).Some? {
      SideIsDead(s);
      EditedAfterMatch(s, side);
      SideIsDead(v);
    } else if s == "" {
      EditedEmpty(begins, side);
    } else {
      var next := s[0] == '\n';
      EditedStep(s, begins, side);
      assert v[1..] == Edited(s[1..], next, side);
      CloseAgrees(s[1..], next, side);
      LineEndAgrees(s[1..], next, side);
      HeadAgrees(s[1..], next, side);
      if |s| > 1 && s[0] == '\\' && s[1] != '\n' {
        EditedStep(s[1..], false, side);
        assert v[2..] == Edited(s[2..], false, side);
        CloseAgrees(s[2..], false, side);
      }
      CloseFromParts(s, v);
    }
  }

  ghost predicate SameClose(s: string, v: string) {
    && CloseHere(v) == CloseHere(s)
    && (CloseHere(s).Some? ==> v[..CloseHere(s).value] == s[..CloseHere(s).value])
  }

  lemma CloseFromParts(s: string, v: string)
    requires s != "" && v != "" && s[0] == v[0] && (|s| > 1 <==> |v| > 1) && (|s| > 1 ==> s[1] == v[1])
    requires SameClose(s[1..], v[1..]) && LineEnd(v[1..]) == LineEnd(s[1..])
    requires |s| > 1 && s[0] == '\\' && s[1] != '\n' ==> SameClose(s[2..], v[2..])
    ensures SameClose(s, v)
  {
    hide CloseHere, LineEnd;
    CloseUnfolds(s);
    CloseUnfolds(v);
    if CloseHere(s).Some? {
      var n := CloseHere(s).value;
      if |s| > 1 && s[0] == '\\' && s[1] != '\n' && CloseHere(s[2..]).Some? {
        assert s[..n] == [s[0], s[1]] + s[2..][..n - 2] && v[..n] == [v[0], v[1]] + v[2..][..n - 2];
      } else if n > 0 {
        assert s[..n] == [s[0]] + s[1..][..n - 1] && v[..n] == [v[0]] + v[1..][..n - 1];
      }
    }
  }

  lemma CloseUnfolds(s: string)
    requires s != ""
    ensures CloseHere(s) ==
            if |s| > 1 && s[0] == '\\' && s[1] != '\n' && CloseHere(s[2..]).Some? then Some(2 + CloseHere(s[2..]).value)
            else if s[0] != '"' && CloseHere(s[1..]).Some? then Some(1 + CloseHere(s[1..]).value)
            else if s[0] == '"' && LineEnd(s[1..]).Some? then Some(0)
            else None
  {
    hide CloseHere, LineEnd;
    ClosePieces(s, 0);
    assert s[0..] == s;
  }

  // ---- the first side assignment ----

  /** An assignment that is no side line is read as before. */
  lemma FieldAgrees(s: string, begins: bool, side: string)
    requires ValidSide(side) && !(begins && SideHere(s).Some?)
    ensures FieldHere("side", Edited(s, begins, side)) == FieldHere("side", s)
  {
    hide Edited, SideHere, OpenHere, CloseHere;
    OpenAgrees(s, begins, side);
    if OpenHere("side", s).Some? {
      CloseAgrees(s[OpenHere("side", s).value..], false, side);
      SameField(s, Edited(s, begins, side));
    }
  }

  lemma SameField(s: string, v: string)
    requires OpenHere("side", s).Some? && OpenHere("side", v) == OpenHere("side", s)
    requires var b := OpenHere("side", s).value; SameClose(s[b..], v[b..])
    ensures FieldHere("side", v) == FieldHere("side", s)
  {
    hide OpenHere, CloseHere;
    var b := OpenHere("side", s).value;
    if CloseHere(s[b..]).Some? {
      var n := CloseHere(s[b..]).value;
      assert s[b..][..n] == s[b..b + n] && v[b..][..n] == v[b..b + n];
    }
  }

  /** A side line is read as its word. */
  lemma FieldOfSideLine(side: string, rest: string)
    requires Unremarkable(side) && LineEnd(rest).Some?
    ensures FieldHere("side", SideText(side) + rest) == Some(side)
  {
    hide OpenHere, LineEnd, CloseHere, SideText, Unremarkable;
    var after := side + ("\"" + rest);
    var s := SideText(side) + rest;
    SideTextParts(side, rest);
    CloseHereAtQuote(rest);
    CloseHerePlain(side, "\"" + rest);
    assert s[8..8 + |side|] == side;
  }

  /** The first assignment of the side, as it is read, is a well-formed side line. */
  predicate FirstIsSideLine(s: string, begins: bool)
    decreases |s|
  {
    if begins && SideHere(s).Some? then true
    else if begins && FieldHere("side", s).Some? then false
    else s != "" && FirstIsSideLine(s[1..], s[0] == '\n')
  }

  /** What is read after the edit: the new side where the first assignment was a side line, and
      otherwise what was read before. */
  lemma {:induction false} FirstFieldEdited(s: string, begins: bool, side: string)
    requires ValidSide(side)
    ensures FirstField("side", Edited(s, begins, side), begins) ==
            if FirstIsSideLine(s, begins) then Some(side) else FirstField("side", s, begins)
    decreases |s|
  {
    hide Edited, SideHere, FieldHere, SideText, LineEnd;
    var v := Edited(s, begins, side);
    if begins && SideHere(s).Some? {
      EditedAfterMatch(s, side);
      SidesAreUnremarkable(side);
      FieldOfSideLine(side, Edited(s[SideHere(s).value..], s[SideHere(s).value - 1] == '\n', side));
    } else {
      FieldAgrees(s, begins, side);
      if s == "" {
        EditedEmpty(begins, side);
      } else {
        EditedStep(s, begins, side);
        assert v[1..] == Edited(s[1..], s[0] == '\n', side);
        FirstFieldEdited(s[1..], s[0] == '\n', side);
      }
    }
  }

  // ---- the edit of a file ----

  /** The text `setMetadataSide` writes. */
  function WithSide(raw: string, side: string): string {
    var updated := ReplaceAll(SideLine(), raw, 0, SideText(side));
    if Find(SideLine(), raw, 0).None? then SideText(side) + "\n" + updated else updated
  }

  /** Which operations on the file fail. */
  datatype Faults = Faults(path: bool, read: bool, write: bool, rename: bool)

  class MetadataFile {
    var content: string

    constructor (content: string)
      ensures this.content == content
    {
      this.content := content;
    }

    /** `setMetadataSide`: the whole file is replaced, or nothing is. */
    method SetMetadataSide(side: string, faults: Faults) returns (ok: bool)
      modifies this
      ensures ok <==>
                && (side == "client" || side == "server" || side == "both") && Utf8Length(old(content)) <= 1_048_576
                && faults == Faults(false, false, false, false)
      ensures content == if ok then WithSide(old(content), side) else old(content)
    {
      if side != "client" && side != "server" && side != "both" {
        return false;
      }
      if faults.path || faults.read {
        return false;
      }
      var raw := content;
      if Utf8Length(raw) > MAX_BYTES {
        return false;
      }
      var updated := ReplaceAll(SideLine(), raw, 0, SideText(side));
      if Find(SideLine(), raw, 0).None? {
        updated := SideText(side) + "\n" + updated;
      }
      if faults.write || faults.rename {
        return false;
      }
      content := updated;
      ok := true;
    }
  }

  lemma WithSideIs(raw: string, side: string)
    ensures WithSide(raw, side) ==
            if HasSideLine(raw, true) then Edited(raw, true, side) else SideText(side) + ("\n" + raw)
    ensures !HasSideLine(raw, true) ==> Edited(raw, true, side) == raw
  {
    hide Edited, HasSideLine, SideText, SideLine, ReplaceAll, Find, SideHere;
    ReplaceIsEdited(raw, 0, side);
    assert raw[0..] == raw;
    NothingToEdit(raw, true, side);
    Reassociate(SideText(side), "\n", raw);
  }

  lemma Reassociate(a: string, b: string, c: string)
    ensures a + b + c == a + (b + c)
  {
  }

  lemma {:induction false} NothingToEdit(s: string, begins: bool, side: string)
    ensures !HasSideLine(s, begins) ==> Edited(s, begins, side) == s
    decreases |s|
  {
    hide SideHere, Edited;
    if !HasSideLine(s, begins) {
      if s == "" {
        EditedEmpty(begins, side);
      } else {
        NothingToEdit(s[1..], s[0] == '\n', side);
        EditedStep(s, begins, side);
        assert s == [s[0]] + s[1..];
      }
    }
  }

  lemma {:induction false} ReadEverywhere(u: string, p: nat, i: nat, side: string)
    requires i <= p <= |u| && AllRead(u[i..], BeginsLine(u, i), side)
    ensures BeginsLine(u, p) && SideHere(u[p..]).Some? ==> SideText(side) <= u[p..]
    decreases p - i
  {
    hide SideHere, SideText;
    if i < p {
      SliceOfRest(u, i, 1);
      ReadEverywhere(u, p, i + 1, side);
    } else if u[p..] == "" {
      EditedEmpty(true, side);
    }
  }

  lemma WithSideReads(raw: string, side: string)
    requires ValidSide(side)
    ensures AllRead(WithSide(raw, side), true, side) && HasSideLine(WithSide(raw, side), true)
  {
    hide Edited, SideHere, SideText, AllRead, LineEnd;
    WithSideIs(raw, side);
    EditedReads(raw, true, side);
    if HasSideLine(raw, true) {
      EditedKeepsSideLines(raw, true, side);
    } else {
      BreakEndsLine(raw);
      SideTextIsSideLine(side, "\n" + raw);
      ReadAfterNewline(raw, side);
      AllReadAfter(SideText(side), "\n" + raw, side);
      AllReadAtHead(WithSide(raw, side), side);
    }
  }

  lemma ReadAfterNewline(raw: string, side: string)
    requires AllRead(raw, true, side)
    ensures AllRead("\n" + raw, true, side)
  {
    hide SideHere;
    assert ("\n" + raw)[1..] == raw;
    if SideHere("\n" + raw).Some? {
      SideBegins("\n" + raw);
    }
  }

  lemma {:induction false} EditedKeepsSideLines(s: string, begins: bool, side: string)
    requires ValidSide(side) && HasSideLine(s, begins)
    ensures HasSideLine(Edited(s, begins, side), begins)
    decreases |s|
  {
    hide SideHere, Edited, SideText;
    if begins && SideHere(s).Some? {
      EditedAfterMatch(s, side);
    } else {
      EditedStep(s, begins, side);
      EditedKeepsSideLines(s[1..], s[0] == '\n', side);
      assert Edited(s, begins, side)[1..] == Edited(s[1..], s[0] == '\n', side);
    }
  }

  /** After the edit there is a side line, and wherever the pattern matches, the line reads the new side. */
  lemma EverySideLineReadsTheSide(raw: string, side: string, p: nat)
    requires ValidSide(side) && p <= |WithSide(raw, side)|
    ensures Find(SideLine(), WithSide(raw, side), 0).Some?
    ensures Ends(SideLine(), WithSide(raw, side), p) != [] ==> SideText(side) <= WithSide(raw, side)[p..]
  {
    hide *;
    var u := WithSide(raw, side);
    WithSideReads(raw, side);
    ReplaceIsEdited(u, 0, side);
    SideEnds(u, p);
    FirstIsHead(Ends(SideLine(), u, p));
    assert u[0..] == u;
    LineBeginsAtZero(u);
    ReadEverywhere(u, p, 0, side);
  }

  lemma FirstIsHead(js: seq<nat>)
    ensures First(js).Some? <==> js != []
  {
  }

  lemma LineBeginsAtZero(u: string)
    ensures BeginsLine(u, 0)
  {
  }

  /** Everything else in the file survives in order: what goes is well-formed side lines with the white
      space after them, and without any the new line is put in front. */
  lemma RestSurvives(raw: string, side: string)
    requires ValidSide(side)
    ensures var gaps, cuts := Gaps(raw, true), Cuts(raw, true);
            && Weave(gaps, cuts) == raw && (forall c | c in cuts :: IsSideLine(c))
            && WithSide(raw, side) ==
               if cuts != [] then Weave(gaps, Repeated("side = \"" + side + "\"", |cuts|))
               else "side = \"" + side + "\"" + ("\n" + raw)
  {
    hide *;
    WrittenSide(side);
    WithSideIs(raw, side);
    EditedIsWoven(raw, true, side);
    CutsAreSideLines(raw, true);
    CutsWhereSideLines(raw, true);
  }

  lemma WrittenSide(side: string)
    ensures SideText(side) == "side = \"" + side + "\""
  {
  }

  lemma {:induction false} CutsWhereSideLines(s: string, begins: bool)
    ensures Cuts(s, begins) != [] <==> HasSideLine(s, begins)
    decreases |s|
  {
    hide SideHere;
    if !(begins && SideHere(s).Some?) && s != "" {
      CutsWhereSideLines(s[1..], s[0] == '\n');
    }
  }

  /** The side is read back unless an ill-formed assignment comes first; that one is then read as before. */
  lemma SideIsReadBack(raw: string, side: string)
    requires ValidSide(side)
    ensures StringField(WithSide(raw, side), "side") ==
            if !HasSideLine(raw, true) || FirstIsSideLine(raw, true) then side else StringField(raw, "side")
  {
    hide *;
    var u := WithSide(raw, side);
    WithSideIs(raw, side);
    StringFieldIs(u, "side");
    StringFieldIs(raw, "side");
    DecodedSide(side);
    if HasSideLine(raw, true) {
      FirstFieldEdited(raw, true, side);
    } else {
      BreakEndsLine(raw);
      SidesAreUnremarkable(side);
      FieldOfSideLine(side, "\n" + raw);
      FieldComesFirst("side", u);
    }
  }

  lemma FieldComesFirst(name: string, s: string)
    ensures FieldHere(name, s).Some? ==> FirstField(name, s, true) == FieldHere(name, s)
  {
    hide FieldHere;
  }

  lemma DecodedSide(side: string)
    requires ValidSide(side)
    ensures Decoded(side) == side
  {
    UnquotedPlain(side);
  }

  lemma {:induction false} UnquotedPlain(s: string)
    requires '"' !in s && '\\' !in s && '\n' !in s
    ensures Unquoted(s) == Some(s)
  {
    if s != "" {
      assert s[0] in s && s == [s[0]] + s[1..];
      UnquotedPlain(s[1..]);
    }
  }

  /** So the parsed file has the new side exactly when no ill-formed assignment with another meaning
      comes first. */
  lemma ParsedSideIsTheSide(raw: string, side: string, rel: string)
    requires ValidSide(side) && Parsed(raw, rel).Ok?
    ensures Parsed(WithSide(raw, side), rel).Ok? <==> Utf8Length(WithSide(raw, side)) <= MAX_BYTES
    ensures Parsed(WithSide(raw, side), rel).Ok? ==>
              (Parsed(WithSide(raw, side), rel).value.side == side <==>
               !HasSideLine(raw, true) || FirstIsSideLine(raw, true) || Parsed(raw, rel).value.side == side)
  {
    hide *;
    SideIsReadBack(raw, side);
    ParsedSide(raw, rel);
    ParsedSide(WithSide(raw, side), rel);
    hide ValidSide;
  }

  lemma ParsedSide(raw: string, rel: string)
    ensures Parsed(raw, rel).Ok? <==> Utf8Length(raw) <= MAX_BYTES
    ensures Parsed(raw, rel).Ok? ==>
              Parsed(raw, rel).value.side == if ValidSide(StringField(raw, "side")) then StringField(raw, "side") else "both"
  {
    hide Section, StringField, Folded, Clean, Dir, Utf8Length, Base, TrimSuffix, ValidSide, BareField;
  }

  // ---- editing twice ----

  lemma {:induction false} EditedTwice(s: string, begins: bool, first: string, second: string)
    requires ValidSide(first)
    ensures Edited(Edited(s, begins, first), begins, second) == Edited(s, begins, second)
    decreases |s|
  {
    hide SideHere, Edited, SideText, LineEnd;
    var v := Edited(s, begins, first);
    if begins && SideHere(s).Some? {
      var n, m := SideHere(s).value, |SideText(first)|;
      var rest := Edited(s[n..], s[n - 1] == '\n', first);
      EditedAfterMatch(s, first);
      EditedMatch(s, second);
      EditedMatch(v, second);
      EditedTwice(s[n..], s[n - 1] == '\n', first, second);
      assert v[m..] == rest;
      EitherWay(rest, second);
    } else if s == "" {
      EditedEmpty(begins, first);
      EditedEmpty(begins, second);
    } else {
      SideAgrees(s, begins, first);
      EditedStep(s, begins, first);
      EditedStep(s, begins, second);
      EditedStep(v, begins, second);
      assert v[1..] == Edited(s[1..], s[0] == '\n', first);
      EditedTwice(s[1..], s[0] == '\n', first, second);
    }
  }

  lemma EitherWay(s: string, side: string)
    requires LineEnd(s) == Some(0)
    ensures Edited(s, true, side) == Edited(s, false, side)
  {
    hide SideHere;
    LineEndAtHead(s);
    if SideHere(s).Some? {
      SideBegins(s);
    }
  }

  /** Of two edits the later one counts, as if the earlier one had not been made. */
  lemma LaterEditWins(raw: string, first: string, second: string)
    requires ValidSide(first) && ValidSide(second) && HasSideLine(raw, true)
    ensures WithSide(WithSide(raw, first), second) == WithSide(raw, second)
  {
    hide *;
    WithSideIs(raw, first);
    WithSideIs(raw, second);
    WithSideReads(raw, first);
    WithSideIs(WithSide(raw, first), second);
    EditedTwice(raw, true, first, second);
  }

  // ---- where it is not read back ----

  lemma SidesAreUnremarkable(side: string)
    requires ValidSide(side)
    ensures Unremarkable(side)
  {
  }

  lemma ValueIsAWord(x: string, rest: string)
    requires Unremarkable(x) && ValueHere(x + ("\"" + rest)).Some?
    ensures ValidSide(x)
  {
    var s := x + ("\"" + rest);
    var w := WordHere(s).value;
    assert s[|x|] == '"' && s[w] == '"';
    assert ValidSide(s[..w]) && forall i | 0 <= i < w :: s[..w][i] != '"';
    assert |x| == w && s[..w] == x;
  }

  lemma NoSideLine(x: string, rest: string)
    requires !ValidSide(x) && Unremarkable(x)
    ensures SideHere(SideText(x) + rest).None?
  {
    SideTextParts(x, rest);
    hide OpenHere, SideText, ValueHere, ValidSide, Unremarkable;
    if ValueHere(x + ("\"" + rest)).Some? {
      ValueIsAWord(x, rest);
    }
  }

  lemma {:induction false} LaterSideLine(line: string, rest: string, begins: bool)
    requires OneLine(line) && HasSideLine(rest, true)
    ensures HasSideLine(Row(line, rest), begins)
    decreases |line|
  {
    hide SideHere;
    if line == "" {
      assert Row(line, rest)[1..] == rest;
    } else {
      assert Row(line, rest)[1..] == Row(line[1..], rest);
      LaterSideLine(line[1..], rest, line[0] == '\n');
    }
  }

  /** An ill-formed assignment before a well-formed one hides the new side: the file reads as before. */
  lemma IllFormedComesFirst(x: string, y: string, side: string)
    requires Unremarkable(x) && !ValidSide(x) && ValidSide(y) && ValidSide(side)
    ensures var raw := Row(SideText(x), Row(SideText(y), ""));
            && HasSideLine(raw, true) && !FirstIsSideLine(raw, true)
            && StringField(raw, "side") == x && StringField(WithSide(raw, side), "side") == x
  {
    var rest := Row(SideText(y), "");
    var raw := Row(SideText(x), rest);
    BreakEndsLine(rest);
    BreakEndsLine("");
    FieldOfSideLine(x, "\n" + rest);
    NoSideLine(x, "\n" + rest);
    SideTextIsSideLine(y, "\n" + "");
    OneSideText(x);
    UnremarkableIsPlain(x);
    hide SideText, FieldHere, SideHere, LineEnd, Unremarkable, StringField, Unquoted;
    LaterSideLine(SideText(x), rest, true);
    SideIsReadBack(raw, side);
    StringFieldIs(raw, "side");
    FieldComesFirst("side", raw);
    UnquotedPlain(x);
  }

  lemma OneSideText(x: string)
    requires Unremarkable(x)
    ensures OneLine(SideText(x))
  {
  }

  lemma UnremarkableIsPlain(x: string)
    requires Unremarkable(x)
    ensures '"' !in x && '\\' !in x && '\n' !in x
  {
  }

  lemma {:induction false} EditedLength(s: string, begins: bool, side: string)
    requires ValidSide(side)
    ensures |Edited(s, begins, side)| <= 3 * |s|
    decreases |s|
  {
    hide SideHere, Edited;
    if begins && SideHere(s).Some? {
      EditedMatch(s, side);
      EditedLength(s[SideHere(s).value..], s[SideHere(s).value - 1] == '\n', side);
    } else if s == "" {
      EditedEmpty(begins, side);
    } else {
      EditedStep(s, begins, side);
      EditedLength(s[1..], s[0] == '\n', side);
    }
  }

  /** For one: with `side = "x"` before `side = "client"`, the side is `both` after it was set to `server`. */
  lemma SideIsNotReadBackHere(rel: string)
    ensures var raw := "side = \"x\"\nside = \"client\"\n";
            && HasSideLine(raw, true) && !FirstIsSideLine(raw, true)
            && Parsed(raw, rel).Ok? && Parsed(raw, rel).value.side == "both"
            && Parsed(WithSide(raw, "server"), rel).Ok? && Parsed(WithSide(raw, "server"), rel).value.side == "both"
  {
    hide *;
    var raw := "side = \"x\"\nside = \"client\"\n";
    TwoAssignments();
    IllFormedComesFirst("x", "client", "server");
    ShortText(raw);
    ParsedSide(raw, rel);
    ParsedSide(WithSide(raw, "server"), rel);
  }

  lemma TwoAssignments()
    ensures "side = \"x\"\nside = \"client\"\n" == Row(SideText("x"), Row(SideText("client"), ""))
    ensures Unremarkable("x") && !ValidSide("x") && ValidSide("client") && ValidSide("server")
    ensures |"side = \"x\"\nside = \"client\"\n"| <= 1000
  {
  }

  lemma ShortText(raw: string)
    requires |raw| <= 1000 && HasSideLine(raw, true)
    ensures Utf8Length(raw) <= MAX_BYTES && Utf8Length(WithSide(raw, "server")) <= MAX_BYTES
  {
    hide Edited, HasSideLine, WithSide, Utf8Length;
    AtMostFourBytes(raw);
    WithSideIs(raw, "server");
    EditedLength(raw, true, "server");
    AtMostFourBytes(WithSide(raw, "server"));
  }
}

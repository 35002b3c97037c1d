/** The update sections of a metadata file (service/internal/api/import_inventory.go,
    `parseImportedMetadata`): which provider a file names, and its identifiers. */
module Updates {
  import opened Text
  import opened Paths
  import opened Regex
  import opened Fields
  import opened BareFields
  import opened Quoting
  import opened Metadata

  function Rows(lines: seq<string>, rest: string): string {
    if lines == [] then rest else Row(lines[0], Rows(lines[1..], rest))
  }

  function Assignment(key: string, value: string): string {
    key + " = " + value
  }

  /** A value as it is written: the identifier in quotes, or bare where its characters allow that. */
  ghost predicate Shows(value: string, id: string, printable: char -> bool) {
    || value == "\"" + Quoted(id, printable) + "\""
    || (value == id && id != "" && forall i | 0 <= i < |id| ::
          || '0' <= id[i] <= '9' || 'A' <= id[i] <= 'Z' || 'a' <= id[i] <= 'z'
          || id[i] == '.' || id[i] == '_' || id[i] == '-')
  }

  /** A section with two assignments. */
  function Update(header: string, key: string, value: string, other: string, otherValue: string, rest: string): string {
    Row("[" + header + "]", Row(Assignment(key, value), Row(Assignment(other, otherValue), rest)))
  }

  // ---- one assignment ----

  lemma ShowsOneLine(key: string, value: string, id: string, printable: char -> bool)
    requires PrintsAscii(printable) && Shows(value, id, printable) && OneLine(key) && key != ""
    ensures OneLine(Assignment(key, value)) && Assignment(key, value)[0] == key[0]
  {
    hide PrintsAscii, Quoted, CloseHere;
    CloseHereQuoted(id, printable, "");
    assert forall i | 0 <= i < |value| :: value[i] != '\n';
  }

  lemma {:induction false} WholeWord(id: string, rest: string)
    requires (forall i | 0 <= i < |id| :: BareChar(id[i])) && rest != "" && !BareChar(rest[0])
    ensures WordLength(id + rest) == |id|
  {
    hide BareChar;
    if id == "" {
      assert id + rest == rest;
    } else {
      assert (id + rest)[1..] == id[1..] + rest;
      WholeWord(id[1..], rest);
    }
  }

  /** A written value is taken as a whole. */
  lemma ValueIsTaken(value: string, id: string, rest: string, printable: char -> bool)
    requires PrintsAscii(printable) && Shows(value, id, printable)
    ensures ValueAt(value + ("\n" + rest)) == Some(value)
    ensures value != "" && !Space(value[0])
  {
    hide PrintsAscii, Quoted, CloseHere, LineEnd;
    BreakEndsLine(rest);
    var s := value + ("\n" + rest);
    if value == "\"" + Quoted(id, printable) + "\"" {
      var q := Quoted(id, printable);
      CloseHereQuoted(id, printable, "\n" + rest);
      assert s[1..] == q + ("\"" + ("\n" + rest));
    } else {
      WholeWord(id, "\n" + rest);
      assert s[|id|..] == "\n" + rest;
    }
    assert s[..|value|] == value;
  }

  lemma BareOnRow(key: string, value: string, id: string, rest: string, printable: char -> bool)
    requires PrintsAscii(printable) && Shows(value, id, printable)
    ensures BareHere(key, Row(Assignment(key, value), rest)) == Some(value)
  {
    var after := value + ("\n" + rest);
    ValueIsTaken(value, id, rest, printable);
    hide ValueAt, Shows, UpTo, Skip, PrintsAscii;
    RowParts(key, value, rest);
    StartAtHead(key, after);
  }

  lemma RowParts(key: string, value: string, rest: string)
    ensures Row(Assignment(key, value), rest) == key + (" = " + (value + ("\n" + rest)))
  {
  }

  lemma StartAtHead(key: string, after: string)
    requires after != "" && !Space(after[0])
    ensures var s := key + (" = " + after); BareStart(key, s) == Some(|key| + 3) && s[|key| + 3..] == after
  {
    EqualsAtHead(after);
    hide UpTo, Skip, Space;
    var s := key + (" = " + after);
    assert s[|key|..] == " = " + after;
    assert s[|key| + 2..] == " " + after;
    assert s[|key| + 3..] == after;
  }

  lemma EqualsAtHead(after: string)
    requires after != "" && !Space(after[0])
    ensures UpTo(" = " + after, '=') == Some(2) && Skip(" " + after) == 1
  {
    var s := " = " + after;
    assert s[1..][0] == '=' && Skip(s[1..]) == 0 && Skip(s) == 1;
    assert (" " + after)[1..] == after && Skip(after) == 0;
  }

  lemma BareNotOnRow(key: string, line: string, rest: string)
    requires key != "" && key[0] != '\n' && (line == "" || line[0] != key[0])
    ensures BareHere(key, Row(line, rest)).None?
  {
    hide UpTo, ValueAt;
  }

  lemma {:induction false} FirstBareInLine(key: string, line: string, rest: string)
    requires OneLine(line)
    ensures FirstBare(key, Row(line, rest), false) == FirstBare(key, rest, true)
  {
    hide BareHere;
    if line == "" {
      assert Row(line, rest)[1..] == rest;
    } else {
      assert Row(line, rest)[1..] == Row(line[1..], rest);
      FirstBareInLine(key, line[1..], rest);
    }
  }

  lemma FirstBareRow(key: string, line: string, rest: string)
    requires OneLine(line)
    ensures FirstBare(key, Row(line, rest), true) ==
            if BareHere(key, Row(line, rest)).Some? then BareHere(key, Row(line, rest)) else FirstBare(key, rest, true)
  {
    hide BareHere;
    if BareHere(key, Row(line, rest)).None? {
      FirstBareInLine(key, line, rest);
      FirstBareBegins(key, Row(line, rest));
    }
  }

  lemma FirstBareBegins(key: string, s: string)
    requires BareHere(key, s).None?
    ensures FirstBare(key, s, true) == FirstBare(key, s, false)
  {
    hide BareHere;
  }

  /** What a value stands for. */
  function Meant(value: string): string {
    if |value| >= 2 && value[0] == '"' && value[|value| - 1] == '"' then Decoded(value[1..|value| - 1]) else value
  }

  lemma BareFieldIs(raw: string, key: string)
    ensures BareField(raw, key) == match FirstBare(key, raw, true) case Some(v) => Meant(v) case None => ""
  {
    hide FindGroup, FirstBare, BarePattern, Decoded;
    FindIsFirstBare(key, raw, 0);
    assert raw[0..] == raw;
  }

  lemma MeantIsTheId(value: string, id: string, printable: char -> bool)
    requires PrintsAscii(printable) && Shows(value, id, printable)
    ensures Meant(value) == id
  {
    hide PrintsAscii, Quoted, Unquoted;
    if value == "\"" + Quoted(id, printable) + "\"" {
      assert value[1..|value| - 1] == Quoted(id, printable);
      DecodedQuoted(id, printable);
    }
  }

  lemma ReadBare(key: string, value: string, id: string, rest: string, printable: char -> bool)
    requires PrintsAscii(printable) && Shows(value, id, printable) && OneLine(key) && key != ""
    ensures BareField(Row(Assignment(key, value), rest), key) == id
  {
    hide *;
    BareFieldIs(Row(Assignment(key, value), rest), key);
    ShowsOneLine(key, value, id, printable);
    BareOnRow(key, value, id, rest, printable);
    FirstBareRow(key, Assignment(key, value), rest);
    MeantIsTheId(value, id, printable);
  }

  lemma ReadBareLater(key: string, other: string, value: string, id: string, rest: string, printable: char -> bool)
    requires PrintsAscii(printable) && Shows(value, id, printable) && OneLine(other) && other != ""
    requires key != "" && key[0] != '\n' && key[0] != other[0]
    ensures BareField(Row(Assignment(other, value), rest), key) == BareField(rest, key)
  {
    hide *;
    BareFieldIs(Row(Assignment(other, value), rest), key);
    BareFieldIs(rest, key);
    ShowsOneLine(other, value, id, printable);
    BareNotOnRow(key, Assignment(other, value), rest);
    FirstBareRow(key, Assignment(other, value), rest);
  }

  // ---- a section in a file ----

  /** Lines none of which is the header of that section. */
  ghost predicate Without(lines: seq<string>, name: string) {
    forall i | 0 <= i < |lines| :: OneLine(lines[i]) && !("[" + name + "]" <= lines[i])
  }

  lemma OtherLine(name: string, line: string, rest: string)
    requires OneLine(name) && OneLine(line) && !("[" + name + "]" <= line)
    ensures SectionHere(name, Row(line, rest)).None?
  {
    hide BreakEnd, ToNextHeader;
    HeaderInLine("[" + name + "]", line, rest);
  }

  lemma HeaderInLine(header: string, line: string, rest: string)
    requires OneLine(header)
    ensures header <= Row(line, rest) ==> header <= line
  {
    if header <= Row(line, rest) {
      assert forall i | 0 <= i < |header| :: header[i] != '\n' && header[i] == Row(line, rest)[i];
      assert |line| < |Row(line, rest)| && Row(line, rest)[|line|] == '\n';
      assert |header| <= |line|;
    }
  }

  lemma {:induction false} SectionAfter(name: string, lines: seq<string>, rest: string)
    requires OneLine(name) && Without(lines, name)
    ensures FirstSection(name, Rows(lines, rest), true) == FirstSection(name, rest, true)
  {
    hide SectionHere, FirstSection, OneLine;
    if lines != [] {
      OtherLine(name, lines[0], Rows(lines[1..], rest));
      FirstSectionRow(name, lines[0], Rows(lines[1..], rest));
      SectionAfter(name, lines[1..], rest);
    }
  }

  lemma NothingAfter(name: string)
    ensures FirstSection(name, "", true) == None
  {
  }

  /** A section is the text after its header, up to the next line that begins with a bracket. */
  lemma SectionOfTwo(header: string, key: string, value: string, id: string, other: string, otherValue: string,
                     otherId: string, rest: string, printable: char -> bool)
    requires PrintsAscii(printable) && Shows(value, id, printable) && Shows(otherValue, otherId, printable)
    requires OneLine(key) && key != "" && key[0] != '[' && !Space(key[0]) && OneLine(other) && other != "" && other[0] != '['
    requires rest == "" || rest[0] == '['
    ensures SectionHere(header, Update(header, key, value, other, otherValue, rest)) ==
            Some(Row(Assignment(key, value), Row(Assignment(other, otherValue), "")))
  {
    ShowsOneLine(key, value, id, printable);
    ShowsOneLine(other, otherValue, otherId, printable);
    hide Shows, PrintsAscii, Assignment, Space;
    var one, two := Assignment(key, value), Assignment(other, otherValue);
    var body := Row(one, Row(two, rest));
    NextHeaderRow(one, Row(two, rest));
    NextHeaderRow(two, rest);
    HeaderOnRow(header, body);
    TwoRows(header, one, two, rest);
  }

  lemma TwoRows(header: string, one: string, two: string, rest: string)
    requires HeaderHere(header, Row("[" + header + "]", Row(one, Row(two, rest)))) == Some(|"[" + header + "]"| + 1)
    requires ToNextHeader(Row(one, Row(two, rest)), true) == |one| + 1 + (|two| + 1)
    ensures SectionHere(header, Row("[" + header + "]", Row(one, Row(two, rest)))) == Some(Row(one, Row(two, "")))
  {
    hide HeaderHere, ToNextHeader;
    var s, h := Row("[" + header + "]", Row(one, Row(two, rest))), |"[" + header + "]"| + 1;
    var n := |one| + 1 + (|two| + 1);
    assert s[h..] == Row(one, Row(two, rest));
    assert s[h..h + n] == s[h..][..n] == Row(one, Row(two, ""));
  }

  /** Both identifiers of the first section of that name are read, whatever comes before. */
  lemma SectionIsReadBack(before: seq<string>, header: string, key: string, value: string, id: string, other: string,
                          otherValue: string, otherId: string, rest: string, printable: char -> bool)
    requires PrintsAscii(printable) && Shows(value, id, printable) && Shows(otherValue, otherId, printable)
    requires OneLine(header) && Without(before, header) && (rest == "" || rest[0] == '[')
    requires OneLine(key) && key != "" && key[0] != '[' && !Space(key[0]) && OneLine(other) && other != "" && other[0] != '['
    requires other[0] != '\n' && key[0] != other[0]
    ensures var section := Section(Rows(before, Update(header, key, value, other, otherValue, rest)), header);
            section.Some? && BareField(section.value, key) == id && BareField(section.value, other) == otherId
  {
    hide *;
    var update := Update(header, key, value, other, otherValue, rest);
    SectionIs(Rows(before, update), header);
    SectionAfter(header, before, update);
    SectionOfTwo(header, key, value, id, other, otherValue, otherId, rest, printable);
    SectionComesFirst(header, update);
    var second := Row(Assignment(other, otherValue), "");
    ReadBare(key, value, id, second, printable);
    ReadBareLater(other, key, value, id, second, printable);
    ReadBare(other, otherValue, otherId, "", printable);
  }

  lemma SectionComesFirst(name: string, s: string)
    ensures SectionHere(name, s).Some? ==> FirstSection(name, s, true) == SectionHere(name, s)
  {
    hide SectionHere;
  }

  // ---- the parsed provider ----

  /** A file with a Modrinth section names Modrinth, with the project and version of its first such section,
      even if a CurseForge section stands before or after it. */
  lemma ModrinthIsReadBack(before: seq<string>, value: string, id: string, otherValue: string, otherId: string, rest: string,
                           rel: string, printable: char -> bool)
    requires PrintsAscii(printable) && Shows(value, id, printable) && Shows(otherValue, otherId, printable)
    requires Without(before, "update.modrinth") && (rest == "" || rest[0] == '[')
    ensures var raw := Rows(before, Update("update.modrinth", "mod-id", value, "version", otherValue, rest));
            Parsed(raw, rel).Ok? ==>
              && Parsed(raw, rel).value.provider == "modrinth"
              && Parsed(raw, rel).value.projectId == id && Parsed(raw, rel).value.versionId == otherId
  {
    hide PrintsAscii, Shows, Without, Parsed, Section, BareField, Update, Rows;
    SectionIsReadBack(before, "update.modrinth", "mod-id", value, id, "version", otherValue, otherId, rest, printable);
    ModrinthSection(Rows(before, Update("update.modrinth", "mod-id", value, "version", otherValue, rest)), rel);
  }

  lemma ModrinthSection(raw: string, rel: string)
    requires Section(raw, "update.modrinth").Some?
    ensures Parsed(raw, rel).Ok? ==>
              var m := Parsed(raw, rel).value;
            && m.provider == "modrinth" && m.projectId == BareField(Section(raw, "update.modrinth").value, "mod-id")
            && m.versionId == BareField(Section(raw, "update.modrinth").value, "version")
  {
    hide Section, StringField, BareField, Folded, Clean, Dir, Utf8Length, Base, TrimSuffix, ValidSide;
  }

  /** Without a Modrinth section, a CurseForge section names CurseForge, with its project and file. */
  lemma CurseForgeIsReadBack(before: seq<string>, value: string, id: string, otherValue: string, otherId: string,
                             after: seq<string>, rel: string, printable: char -> bool)
    requires PrintsAscii(printable) && Shows(value, id, printable) && Shows(otherValue, otherId, printable)
    requires Without(before, "update.curseforge") && Without(before, "update.modrinth") && Without(after, "update.modrinth")
    requires after != [] ==> after[0] != "" && after[0][0] == '['
    ensures var raw := Rows(before, Update("update.curseforge", "project-id", value, "file-id", otherValue, Rows(after, "")));
            Parsed(raw, rel).Ok? ==>
              && Parsed(raw, rel).value.provider == "curseforge"
              && Parsed(raw, rel).value.projectId == id && Parsed(raw, rel).value.versionId == otherId
  {
    hide *;
    var rest := Rows(after, "");
    var update := Update("update.curseforge", "project-id", value, "file-id", otherValue, rest);
    RestBegins(after);
    PlainKeys();
    SectionIsReadBack(before, "update.curseforge", "project-id", value, id, "file-id", otherValue, otherId, rest, printable);
    SectionIs(Rows(before, update), "update.modrinth");
    SectionAfter("update.modrinth", before, update);
    PassCurseForge(value, id, otherValue, otherId, rest, printable);
    SectionAfter("update.modrinth", after, "");
    NothingAfter("update.modrinth");
    CurseForgeSection(Rows(before, update), rel);
  }

  lemma RestBegins(after: seq<string>)
    requires after != [] ==> after[0] != "" && after[0][0] == '['
    ensures Rows(after, "") == "" || Rows(after, "")[0] == '['
  {
  }

  lemma PlainKeys()
    ensures OneLine("update.curseforge") && OneLine("update.modrinth") && OneLine("project-id") && OneLine("file-id")
    ensures "project-id"[0] == 'p' && "file-id"[0] == 'f' && !Space('p') && "project-id" != "" && "file-id" != ""
  {
  }

  lemma PassCurseForge(value: string, id: string, otherValue: string, otherId: string, rest: string, printable: char -> bool)
    requires PrintsAscii(printable) && Shows(value, id, printable) && Shows(otherValue, otherId, printable)
    ensures var update := Update("update.curseforge", "project-id", value, "file-id", otherValue, rest);
            FirstSection("update.modrinth", update, true) == FirstSection("update.modrinth", rest, true)
  {
    ShowsOneLine("project-id", value, id, printable);
    ShowsOneLine("file-id", otherValue, otherId, printable);
    OtherHeaderLine();
    hide FirstSection, SectionHere, Shows, PrintsAscii, Assignment;
    var one, two := Assignment("project-id", value), Assignment("file-id", otherValue);
    var header := "[" + "update.curseforge" + "]";
    OtherLine("update.modrinth", header, Row(one, Row(two, rest)));
    FirstSectionRow("update.modrinth", header, Row(one, Row(two, rest)));
    SectionNotOnRow("update.modrinth", one, Row(two, rest));
    FirstSectionRow("update.modrinth", one, Row(two, rest));
    SectionNotOnRow("update.modrinth", two, rest);
    FirstSectionRow("update.modrinth", two, rest);
  }

  lemma OtherHeaderLine()
    ensures OneLine("[" + "update.curseforge" + "]") && OneLine("update.modrinth")
    ensures !("[" + "update.modrinth" + "]" <= "[" + "update.curseforge" + "]")
  {
    assert ("[" + "update.modrinth" + "]")[8] == 'm' && ("[" + "update.curseforge" + "]")[8] == 'c';
  }

  lemma CurseForgeSection(raw: string, rel: string)
    requires Section(raw, "update.modrinth").None? && Section(raw, "update.curseforge").Some?
    ensures Parsed(raw, rel).Ok? ==>
              var m := Parsed(raw, rel).value;
            && m.provider == "curseforge" && m.projectId == BareField(Section(raw, "update.curseforge").value, "project-id")
            && m.versionId == BareField(Section(raw, "update.curseforge").value, "file-id")
  {
    hide Section, StringField, BareField, Folded, Clean, Dir, Utf8Length, Base, TrimSuffix, ValidSide;
  }

  /** For one, a file as Packwiz writes it. */
  lemma SodiumIsFromModrinth(rel: string, printable: char -> bool)
    requires PrintsAscii(printable)
    ensures var raw := Rows(["name = \"Sodium\"", "", "[update]", "[update.modrinth]", "mod-id = \"AANobbMI\"",
                             "version = \"b4hTi3mo\""], "");
            && Parsed(raw, rel).Ok? && Parsed(raw, rel).value.provider == "modrinth"
            && Parsed(raw, rel).value.projectId == "AANobbMI" && Parsed(raw, rel).value.versionId == "b4hTi3mo"
  {
    hide *;
    SodiumText(printable);
    var raw := Rows(["name = \"Sodium\"", "", "[update]", "[update.modrinth]", "mod-id = \"AANobbMI\"", "version = \"b4hTi3mo\""], "");
    AtMostFourBytes(raw);
    ParsedShort(raw, rel);
    ModrinthIsReadBack(["name = \"Sodium\"", "", "[update]"], "\"AANobbMI\"", "AANobbMI", "\"b4hTi3mo\"", "b4hTi3mo", "", rel, printable);
  }

  lemma ParsedShort(raw: string, rel: string)
    requires Utf8Length(raw) <= 4 * 1000
    ensures Parsed(raw, rel).Ok?
  {
    hide Section, StringField, BareField, Folded, Clean, Dir, Utf8Length, Base, TrimSuffix, ValidSide;
  }

  lemma RowsStep(line: string, lines: seq<string>, rest: string)
    ensures Rows([line] + lines, rest) == Row(line, Rows(lines, rest))
    ensures |Rows([line] + lines, rest)| == |line| + 1 + |Rows(lines, rest)|
  {
    assert ([line] + lines)[1..] == lines;
  }

  lemma SodiumText(printable: char -> bool)
    requires PrintsAscii(printable)
    ensures Rows(["name = \"Sodium\"", "", "[update]"],
                 Update("update.modrinth", "mod-id", "\"AANobbMI\"", "version", "\"b4hTi3mo\"", "")) ==
            Rows(["name = \"Sodium\"", "", "[update]", "[update.modrinth]", "mod-id = \"AANobbMI\"", "version = \"b4hTi3mo\""], "")
    ensures |Rows(["name = \"Sodium\"", "", "[update]", "[update.modrinth]", "mod-id = \"AANobbMI\"", "version = \"b4hTi3mo\""], "")|
            <= 1000
    ensures Shows("\"AANobbMI\"", "AANobbMI", printable) && Shows("\"b4hTi3mo\"", "b4hTi3mo", printable)
    ensures Without(["name = \"Sodium\"", "", "[update]"], "update.modrinth")
  {
    SodiumShows(printable);
    SodiumBefore();
    SodiumUpdate();
    hide *;
    SodiumRows(Update("update.modrinth", "mod-id", "\"AANobbMI\"", "version", "\"b4hTi3mo\"", ""),
               "name = \"Sodium\"", "", "[update]", "[update.modrinth]", "mod-id = \"AANobbMI\"", "version = \"b4hTi3mo\"");
  }

  lemma SodiumRows(update: string, a: string, b: string, c: string, d: string, e: string, f: string)
    requires update == Row(d, Row(e, Row(f, ""))) && |a| + |b| + |c| + |d| + |e| + |f| <= 900
    ensures Rows([a, b, c], update) == Rows([a, b, c, d, e, f], "") && |Rows([a, b, c, d, e, f], "")| <= 1000
  {
    hide Row;
    NoRows(update);
    NoRows("");
    RowsStep(c, [], update);
    RowsStep(b, [c], update);
    RowsStep(a, [b, c], update);
    RowsStep(f, [], "");
    RowsStep(e, [f], "");
    RowsStep(d, [e, f], "");
    RowsStep(c, [d, e, f], "");
    RowsStep(b, [c, d, e, f], "");
    RowsStep(a, [b, c, d, e, f], "");
    assert [a] + [b, c] == [a, b, c] && [b] + [c] == [b, c] && [c] + [] == [c];
    assert [a] + [b, c, d, e, f] == [a, b, c, d, e, f] && [b] + [c, d, e, f] == [b, c, d, e, f];
    assert [c] + [d, e, f] == [c, d, e, f] && [d] + [e, f] == [d, e, f] && [e] + [f] == [e, f] && [f] + [] == [f];
    hide Rows;
  }

  lemma NoRows(rest: string)
    ensures Rows([], rest) == rest
  {
  }

  lemma SodiumShows(printable: char -> bool)
    requires PrintsAscii(printable)
    ensures Shows("\"AANobbMI\"", "AANobbMI", printable) && Shows("\"b4hTi3mo\"", "b4hTi3mo", printable)
  {
    Words();
    QuotedWordShows("AANobbMI", printable);
    QuotedWordShows("b4hTi3mo", printable);
    hide Shows, PrintsAscii;
  }

  lemma QuotedWordShows(id: string, printable: char -> bool)
    requires PrintsAscii(printable) && forall i | 0 <= i < |id| :: BareChar(id[i])
    ensures Shows("\"" + id + "\"", id, printable)
  {
    PlainIsQuotedAsItIs(id, printable);
    hide Quoted;
  }

  lemma Words()
    ensures forall i | 0 <= i < |"AANobbMI"| :: BareChar("AANobbMI"[i])
    ensures forall i | 0 <= i < |"b4hTi3mo"| :: BareChar("b4hTi3mo"[i])
    ensures "\"" + "AANobbMI" + "\"" == "\"AANobbMI\"" && "\"" + "b4hTi3mo" + "\"" == "\"b4hTi3mo\""
  {
  }

  lemma SodiumBefore()
    ensures Without(["name = \"Sodium\"", "", "[update]"], "update.modrinth")
  {
    assert ("[" + "update.modrinth" + "]")[7] == '.' && "[update]"[7] == ']';
  }

  lemma SodiumUpdate()
    ensures Update("update.modrinth", "mod-id", "\"AANobbMI\"", "version", "\"b4hTi3mo\"", "") ==
            Row("[update.modrinth]", Row("mod-id = \"AANobbMI\"", Row("version = \"b4hTi3mo\"", "")))
    ensures |"name = \"Sodium\""| + |""| + |"[update]"| + |"[update.modrinth]"| + |"mod-id = \"AANobbMI\""|
            + |"version = \"b4hTi3mo\""| <= 900
  {
    hide Row;
    assert "[" + "update.modrinth" + "]" == "[update.modrinth]";
    assert Assignment("mod-id", "\"AANobbMI\"") == "mod-id = \"AANobbMI\"";
    assert Assignment("version", "\"b4hTi3mo\"") == "version = \"b4hTi3mo\"";
  }
}

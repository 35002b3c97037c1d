/** Packwiz metadata files: the text that uploads print (service/internal/api/api.go and
    client_files.go), and how it is read back (import_inventory.go). */
module Metadata {
  import opened Text
  import opened Paths
  import opened Regex
  import opened Fields
  import opened BareFields
  import opened Quoting

  // ---- reading ----

  const MAX_BYTES: nat := 0x10_0000

  /** How many bytes a text takes in UTF-8. */
  function Utf8Length(s: string): nat {
    if s == "" then 0
    else
      (if s[0] as int < 0x80 then 1 else if s[0] as int < 0x800 then 2 else if s[0] as int < 0x10000 then 3 else 4)
      + Utf8Length(s[1..])
  }

  /** `decodeTOMLString`: what cannot be unquoted is taken as it is. */
  function Decoded(v: string): string {
    match Unquoted(v) case Some(s) => s case None => v
  }

  function StringField(raw: string, name: string): string {
    match FindGroup(StringPattern(name), raw, 0) case Some(v) => Decoded(v) case None => ""
  }

  function Section(raw: string, name: string): Option<string> {
    FindGroup(SectionPattern(name), raw, 0)
  }

  function BareField(raw: string, name: string): string {
    match FindGroup(BarePattern(name), raw, 0)
    case None => ""
    case Some(v) => if |v| >= 2 && v[0] == '"' && v[|v| - 1] == '"' then Decoded(v[1..|v| - 1]) else v
  }

  /** Simple case folding, as far as it leads to the letters of "sha256": the long s folds to s. */
  function Folded(s: string): string {
    if s == "" then "" else ToLower([if s[0] as int == 0x17F then 's' else s[0]]) + Folded(s[1..])
  }

  datatype Meta = Meta(
    name: string, filename: string, side: string, sha: string, provider: string, projectId: string,
    versionId: string, path: string, destination: string)

  function Base(rel: string): string {
    var parts := Split(rel); parts[|parts| - 1]
  }

  /** The folder of a canonical path. */
  function Dir(rel: string): string {
    var parts := Split(rel); if |parts| == 1 then "." else Join(parts[..|parts| - 1])
  }

  predicate ValidSide(side: string) {
    side == "client" || side == "server" || side == "both"
  }

  /** `parseImportedMetadata` of the file at the canonical path `rel`. */
  function Parsed(raw: string, rel: string): Result<Meta> {
    if Utf8Length(raw) > MAX_BYTES then Err
    else
      var base := TrimSuffix(Base(rel), ".pw.toml");
      var name, filename, side := StringField(raw, "name"), StringField(raw, "filename"), StringField(raw, "side");
      var file := if filename == "" then base else filename;
      var (provider, projectId, versionId) :=
        match (Section(raw, "update.modrinth"), Section(raw, "update.curseforge"))
        case (Some(mr), _) => ("modrinth", BareField(mr, "mod-id"), BareField(mr, "version"))
        case (None, Some(cf)) => ("curseforge", BareField(cf, "project-id"), BareField(cf, "file-id"))
        case (None, None) => ("local", "", "");
      Ok(Meta(
           if name == "" then base else name, file, if ValidSide(side) then side else "both",
           match Section(raw, "download")
           case Some(d) => if Folded(StringField(d, "hash-format")) == "sha256" then StringField(d, "hash") else ""
           case None => "",
           provider, projectId, versionId, rel, Clean(Dir(rel) + "/" + file)))
  }

  /** `parseImportedMetadata` fills the record field by field. */
  method ParseImportedMetadata(raw: string, rel: string) returns (r: Result<Meta>)
    ensures r == Parsed(raw, rel)
  {
    hide StringField, Section, BareField, Folded, Clean, Dir, Base, TrimSuffix, Utf8Length;
    if Utf8Length(raw) > MAX_BYTES {
      return Err;
    }
    var meta := Meta(StringField(raw, "name"), StringField(raw, "filename"), StringField(raw, "side"), "", "local", "", "", rel, "");
    if meta.name == "" {
      meta := meta.(name := TrimSuffix(Base(rel), ".pw.toml"));
    }
    if meta.side == "" {
      meta := meta.(side := "both");
    }
    if meta.side != "client" && meta.side != "server" && meta.side != "both" {
      meta := meta.(side := "both");
    }
    if meta.filename == "" {
      meta := meta.(filename := TrimSuffix(Base(rel), ".pw.toml"));
    }
    meta := meta.(destination := Clean(Dir(rel) + "/" + meta.filename));
    var download := Section(raw, "download");
    if download.Some? {
      if Folded(StringField(download.value, "hash-format")) == "sha256" {
        meta := meta.(sha := StringField(download.value, "hash"));
      }
    }
    var mr, cf := Section(raw, "update.modrinth"), Section(raw, "update.curseforge");
    if mr.Some? {
      meta := meta.(provider := "modrinth", projectId := BareField(mr.value, "mod-id"), versionId := BareField(mr.value, "version"));
    } else if cf.Some? {
      meta := meta.(provider := "curseforge", projectId := BareField(cf.value, "project-id"), versionId := BareField(cf.value, "file-id"));
    }
    r := Ok(meta);
  }

  // ---- writing ----

  /** `key = %q`. */
  function Line(key: string, value: string, printable: char -> bool): string {
    key + " = \"" + Quoted(value, printable) + "\""
  }

  function Row(line: string, rest: string): string {
    line + ("\n" + rest)
  }

  function DownloadText(url: string, sha: string, printable: char -> bool): string {
    Row(Line("url", url, printable), Row(Line("hash-format", "sha256", printable), Row(Line("hash", sha, printable), "")))
  }

  /** The metadata file that an upload prints. */
  function FileText(name: string, filename: string, side: string, url: string, sha: string, printable: char -> bool): string {
    Row(Line("name", name, printable), Row(Line("filename", filename, printable), Row(Line("side", side, printable),
      Row("", Row("[download]", DownloadText(url, sha, printable))))))
  }

  // ---- fields line by line ----

  predicate OneLine(line: string) {
    '\n' !in line
  }

  lemma LineIsOneLine(key: string, value: string, printable: char -> bool)
    requires PrintsAscii(printable) && OneLine(key) && key != ""
    ensures OneLine(Line(key, value, printable)) && Line(key, value, printable)[0] == key[0]
  {
    hide PrintsAscii, Quoted, CloseHere;
    CloseHereQuoted(value, printable, "");
  }

  /** An assignment that an upload printed is read as the quoted text. */
  lemma FieldOnRow(key: string, value: string, rest: string, printable: char -> bool)
    requires PrintsAscii(printable)
    ensures FieldHere(key, Row(Line(key, value, printable), rest)) == Some(Quoted(value, printable))
  {
    hide PrintsAscii, Quoted, CloseHere, LineEnd, AssignHere;
    var q := Quoted(value, printable);
    var after := q + ("\"" + ("\n" + rest));
    var s := Row(Line(key, value, printable), rest);
    assert s == key + (" = \"" + after);
    assert s[|key|..] == " = \"" + after;
    BreakEndsLine(rest);
    CloseHereQuoted(value, printable, "\n" + rest);
    AssignAtHead(after);
    assert OpenHere(key, s) == Some(|key| + 4);
    assert s[|key| + 4..] == after;
    assert s[|key| + 4..|key| + 4 + |q|] == q;
  }

  lemma BreakEndsLine(rest: string)
    ensures LineEnd("\n" + rest).Some?
  {
    assert ("\n" + rest)[1..] == rest;
  }

  lemma AssignAtHead(after: string)
    ensures AssignHere(" = \"" + after) == Some(4)
  {
    var s := " = \"" + after;
    assert s == [' ', '=', ' ', '"'] + after;
    assert s[1..][0] == '=' && Skip(s[1..]) == 0 && Skip(s) == 1;
    assert s[2..] == [' ', '"'] + after;
    assert s[2..][1..][0] == '"' && Skip(s[2..][1..]) == 0 && Skip(s[2..]) == 1;
  }

  lemma FieldNotOnRow(key: string, line: string, rest: string)
    requires key != "" && key[0] != '\n' && (line == "" || line[0] != key[0])
    ensures FieldHere(key, Row(line, rest)).None?
  {
    hide AssignHere, CloseHere;
  }

  lemma {:induction false} FirstFieldInLine(key: string, line: string, rest: string)
    requires OneLine(line)
    ensures FirstField(key, Row(line, rest), false) == FirstField(key, rest, true)
  {
    hide FieldHere;
    if line == "" {
      assert Row(line, rest)[1..] == rest;
    } else {
      assert Row(line, rest)[1..] == Row(line[1..], rest);
      FirstFieldInLine(key, line[1..], rest);
    }
  }

  lemma FirstFieldRow(key: string, line: string, rest: string)
    requires OneLine(line)
    ensures FirstField(key, Row(line, rest), true) ==
            if FieldHere(key, Row(line, rest)).Some? then FieldHere(key, Row(line, rest)) else FirstField(key, rest, true)
  {
    hide FieldHere;
    if FieldHere(key, Row(line, rest)).None? {
      FirstFieldInLine(key, line, rest);
      FirstFieldBegins(key, Row(line, rest));
    }
  }

  lemma FirstFieldBegins(key: string, s: string)
    requires FieldHere(key, s).None?
    ensures FirstField(key, s, true) == FirstField(key, s, false)
  {
  }

  // ---- sections line by line ----

  lemma {:induction false} FirstSectionInLine(name: string, line: string, rest: string)
    requires OneLine(line)
    ensures FirstSection(name, Row(line, rest), false) == FirstSection(name, rest, true)
  {
    hide SectionHere;
    if line == "" {
      assert Row(line, rest)[1..] == rest;
    } else {
      assert Row(line, rest)[1..] == Row(line[1..], rest);
      FirstSectionInLine(name, line[1..], rest);
    }
  }

  lemma FirstSectionRow(name: string, line: string, rest: string)
    requires OneLine(line)
    ensures FirstSection(name, Row(line, rest), true) ==
            if SectionHere(name, Row(line, rest)).Some? then SectionHere(name, Row(line, rest)) else FirstSection(name, rest, true)
  {
    hide SectionHere;
    if SectionHere(name, Row(line, rest)).None? {
      FirstSectionInLine(name, line, rest);
      FirstSectionBegins(name, Row(line, rest));
    }
  }

  lemma FirstSectionBegins(name: string, s: string)
    requires SectionHere(name, s).None?
    ensures FirstSection(name, s, true) == FirstSection(name, s, false)
  {
  }

  lemma SectionNotOnRow(name: string, line: string, rest: string)
    requires line == "" || line[0] != '['
    ensures SectionHere(name, Row(line, rest)).None?
  {
    hide BreakEnd, ToNextHeader;
    assert ("[" + name + "]")[0] == '[';
  }

  lemma {:induction false} NextHeaderInLine(line: string, rest: string)
    requires OneLine(line)
    ensures ToNextHeader(Row(line, rest), false) == |line| + 1 + ToNextHeader(rest, true)
  {
    if line == "" {
      assert Row(line, rest)[1..] == rest;
    } else {
      assert Row(line, rest)[1..] == Row(line[1..], rest);
      NextHeaderInLine(line[1..], rest);
    }
  }

  lemma NextHeaderRow(line: string, rest: string)
    requires OneLine(line) && (line == "" || line[0] != '[')
    ensures ToNextHeader(Row(line, rest), true) == |line| + 1 + ToNextHeader(rest, true)
  {
    NextHeaderInLine(line, rest);
    assert ToNextHeader(Row(line, rest), true) == ToNextHeader(Row(line, rest), false);
  }

  lemma SectionOnRow(name: string, rest: string)
    requires rest != "" && !Space(rest[0]) && ToNextHeader(rest, true) == |rest|
    ensures SectionHere(name, Row("[" + name + "]", rest)) == Some(rest)
  {
    hide ToNextHeader, HeaderHere;
    HeaderOnRow(name, rest);
    var s, h := Row("[" + name + "]", rest), |"[" + name + "]"| + 1;
    assert s[h..] == rest && s[h..h + |rest|] == rest;
  }

  lemma HeaderOnRow(name: string, rest: string)
    requires rest != "" && !Space(rest[0])
    ensures HeaderHere(name, Row("[" + name + "]", rest)) == Some(|"[" + name + "]"| + 1)
  {
    hide BreakEnd;
    var header := "[" + name + "]";
    assert Row(header, rest)[|header|..] == "\n" + rest;
    BreakBefore(rest);
  }

  lemma BreakBefore(rest: string)
    requires rest != "" && !Space(rest[0])
    ensures BreakEnd("\n" + rest) == Some(1)
  {
    assert ("\n" + rest)[1..] == rest;
    assert BreakEnd(rest) == None;
  }

  // ---- what an upload prints is read back ----

  lemma StringFieldIs(raw: string, key: string)
    ensures StringField(raw, key) == match FirstField(key, raw, true) case Some(v) => Decoded(v) case None => ""
  {
    hide FindGroup, FirstField, StringPattern;
    FindIsFirstField(key, raw, 0);
    assert raw[0..] == raw;
  }

  lemma SectionIs(raw: string, name: string)
    ensures Section(raw, name) == FirstSection(name, raw, true)
  {
    hide FindGroup, FirstSection, SectionPattern;
    FindIsFirstSection(name, raw, 0);
    assert raw[0..] == raw;
  }

  lemma DecodedQuoted(value: string, printable: char -> bool)
    requires PrintsAscii(printable)
    ensures Decoded(Quoted(value, printable)) == value
  {
    hide Quoted, Unquoted, PrintsAscii;
    UnquotedQuoted(value, printable);
  }

  /** An assignment on the first line. */
  lemma ReadHere(key: string, value: string, rest: string, printable: char -> bool)
    requires PrintsAscii(printable) && OneLine(key) && key != ""
    ensures StringField(Row(Line(key, value, printable), rest), key) == value
  {
    hide *;
    var line := Line(key, value, printable);
    StringFieldIs(Row(line, rest), key);
    LineIsOneLine(key, value, printable);
    FieldOnRow(key, value, rest, printable);
    FirstFieldRow(key, line, rest);
    DecodedQuoted(value, printable);
  }

  /** A line that begins with another letter is passed over. */
  lemma ReadLater(key: string, other: string, value: string, rest: string, printable: char -> bool)
    requires PrintsAscii(printable) && OneLine(other) && other != ""
    requires key != "" && key[0] != '\n' && key[0] != other[0]
    ensures StringField(Row(Line(other, value, printable), rest), key) == StringField(rest, key)
  {
    hide *;
    var line := Line(other, value, printable);
    StringFieldIs(Row(line, rest), key);
    StringFieldIs(rest, key);
    LineIsOneLine(other, value, printable);
    FieldNotOnRow(key, line, rest);
    FirstFieldRow(key, line, rest);
  }

  /** "hash" does not begin "hash-format". */
  lemma HashIsNotHashFormat(value: string, rest: string, printable: char -> bool)
    requires PrintsAscii(printable)
    ensures StringField(Row(Line("hash-format", value, printable), rest), "hash") == StringField(rest, "hash")
  {
    var line := Line("hash-format", value, printable);
    var s := Row(line, rest);
    hide StringField, PrintsAscii, Quoted, FirstField, LineEnd, CloseHere;
    StringFieldIs(s, "hash");
    StringFieldIs(rest, "hash");
    LineIsOneLine("hash-format", value, printable);
    assert FieldHere("hash", s).None? by {
      assert s[4..][0] == '-' && Skip(s[4..]) == 0;
    }
    FirstFieldRow("hash", line, rest);
  }

  lemma ReadStrings(name: string, filename: string, side: string, url: string, sha: string, printable: char -> bool)
    requires PrintsAscii(printable)
    ensures var text := FileText(name, filename, side, url, sha, printable);
            StringField(text, "name") == name && StringField(text, "filename") == filename && StringField(text, "side") == side
  {
    hide StringField, PrintsAscii, Line, Row, DownloadText;
    var rest := Row("", Row("[download]", DownloadText(url, sha, printable)));
    var third := Row(Line("side", side, printable), rest);
    var second := Row(Line("filename", filename, printable), third);
    ReadHere("name", name, second, printable);
    ReadLater("filename", "name", name, second, printable);
    ReadHere("filename", filename, third, printable);
    ReadLater("side", "name", name, second, printable);
    ReadLater("side", "filename", filename, third, printable);
    ReadHere("side", side, rest, printable);
  }

  lemma ReadDownload(url: string, sha: string, printable: char -> bool)
    requires PrintsAscii(printable)
    ensures var d := DownloadText(url, sha, printable);
            StringField(d, "hash-format") == "sha256" && StringField(d, "hash") == sha
  {
    hide StringField, PrintsAscii, Line, Row;
    var last := Row(Line("hash", sha, printable), "");
    var second := Row(Line("hash-format", "sha256", printable), last);
    ReadLater("hash-format", "url", url, second, printable);
    ReadHere("hash-format", "sha256", last, printable);
    ReadLater("hash", "url", url, second, printable);
    HashIsNotHashFormat("sha256", last, printable);
    ReadHere("hash", sha, "", printable);
  }

  /** A line of the file, for the sections. */
  lemma PassLine(name: string, key: string, value: string, rest: string, printable: char -> bool)
    requires PrintsAscii(printable) && OneLine(key) && key != "" && key[0] != '['
    ensures FirstSection(name, Row(Line(key, value, printable), rest), true) == FirstSection(name, rest, true)
    ensures ToNextHeader(Row(Line(key, value, printable), rest), true) ==
            |Line(key, value, printable)| + 1 + ToNextHeader(rest, true)
    ensures |Row(Line(key, value, printable), rest)| == |Line(key, value, printable)| + 1 + |rest|
  {
    hide PrintsAscii, Line, FirstSection, ToNextHeader, SectionHere;
    var line := Line(key, value, printable);
    LineIsOneLine(key, value, printable);
    SectionNotOnRow(name, line, rest);
    FirstSectionRow(name, line, rest);
    NextHeaderRow(line, rest);
  }

  lemma DownloadHasNoHeader(name: string, url: string, sha: string, printable: char -> bool)
    requires PrintsAscii(printable)
    ensures var d := DownloadText(url, sha, printable);
            d != "" && !Space(d[0]) && ToNextHeader(d, true) == |d| && FirstSection(name, d, true) == None
  {
    hide PrintsAscii, Line, Row, FirstSection, ToNextHeader, SectionHere;
    var last := Row(Line("hash", sha, printable), "");
    var second := Row(Line("hash-format", "sha256", printable), last);
    PassLine(name, "url", url, second, printable);
    PassLine(name, "hash-format", "sha256", last, printable);
    PassLine(name, "hash", sha, "", printable);
    NoSectionInNothing(name);
    RowBegins("url", url, second, printable);
  }

  lemma NoSectionInNothing(name: string)
    ensures FirstSection(name, "", true) == None && ToNextHeader("", true) == 0
  {
  }

  lemma RowBegins(key: string, value: string, rest: string, printable: char -> bool)
    requires key != ""
    ensures Row(Line(key, value, printable), rest) != "" && Row(Line(key, value, printable), rest)[0] == key[0]
  {
  }

  lemma ReadSection(name: string, filename: string, side: string, url: string, sha: string, printable: char -> bool, section: string)
    requires PrintsAscii(printable) && (section == "download" || (section != "" && section[0] != 'd'))
    ensures Section(FileText(name, filename, side, url, sha, printable), section) ==
            if section == "download" then Some(DownloadText(url, sha, printable)) else None
  {
    hide PrintsAscii, Line, Row, FirstSection, ToNextHeader, SectionHere, DownloadText, Space;
    var d := DownloadText(url, sha, printable);
    var header := Row("[download]", d);
    var fourth := Row("", header);
    var third := Row(Line("side", side, printable), fourth);
    var second := Row(Line("filename", filename, printable), third);
    SectionIs(FileText(name, filename, side, url, sha, printable), section);
    PassLine(section, "name", name, second, printable);
    PassLine(section, "filename", filename, third, printable);
    PassLine(section, "side", side, fourth, printable);
    SectionNotOnRow(section, "", header);
    FirstSectionRow(section, "", header);
    DownloadHasNoHeader(section, url, sha, printable);
    HeaderRow(section, d);
  }

  lemma HeaderRow(section: string, d: string)
    requires section == "download" || (section != "" && section[0] != 'd')
    requires d != "" && !Space(d[0]) && ToNextHeader(d, true) == |d| && FirstSection(section, d, true) == None
    ensures FirstSection(section, Row("[download]", d), true) == if section == "download" then Some(d) else None
  {
    hide FirstSection, ToNextHeader, Space, BreakEnd, SectionHere;
    FirstSectionRow(section, "[download]", d);
    if section == "download" {
      SectionOnRow("download", d);
      assert "[" + "download" + "]" == "[download]";
    } else {
      OtherHeader(section, d);
    }
  }

  lemma OtherHeader(section: string, d: string)
    requires section != "" && section[0] != 'd'
    ensures SectionHere(section, Row("[download]", d)).None?
  {
    hide BreakEnd, ToNextHeader;
    assert Row("[download]", d)[1] == 'd' && ("[" + section + "]")[1] == section[0];
  }

  // ---- uploads ----

  lemma Sha256Folds()
    ensures Folded("sha256") == "sha256"
  {
    hide ToLower;
    FoldedStep('s', "ha256");
    FoldedStep('h', "a256");
    FoldedStep('a', "256");
    FoldedStep('2', "56");
    FoldedStep('5', "6");
    FoldedStep('6', "");
  }

  lemma FoldedStep(c: char, rest: string)
    requires 'a' <= c <= 'z' || '0' <= c <= '9'
    ensures Folded([c] + rest) == [c] + Folded(rest)
  {
    assert ([c] + rest)[1..] == rest;
  }

  /** Every field of a printed file is read back, quotes, backslashes, line breaks and key-like text
      included, up to the size limit. */
  lemma PrintedIsReadBack(name: string, filename: string, side: string, url: string, sha: string, rel: string, printable: char -> bool)
    requires PrintsAscii(printable) && name != "" && filename != "" && ValidSide(side)
    ensures var text := FileText(name, filename, side, url, sha, printable);
            Parsed(text, rel) ==
            if Utf8Length(text) <= MAX_BYTES
            then Ok(Meta(name, filename, side, sha, "local", "", "", rel, Clean(Dir(rel) + "/" + filename)))
            else Err
  {
    hide *;
    ReadStrings(name, filename, side, url, sha, printable);
    ReadDownload(url, sha, printable);
    ReadSection(name, filename, side, url, sha, printable, "download");
    ReadSection(name, filename, side, url, sha, printable, "update.modrinth");
    ReadSection(name, filename, side, url, sha, printable, "update.curseforge");
    Sha256Folds();
    ParsedIs(FileText(name, filename, side, url, sha, printable), rel);
  }

  lemma ParsedIs(raw: string, rel: string)
    requires Section(raw, "update.modrinth").None? && Section(raw, "update.curseforge").None?
    requires Section(raw, "download").Some? && StringField(raw, "name") != "" && StringField(raw, "filename") != ""
    requires ValidSide(StringField(raw, "side"))
    ensures var d := Section(raw, "download").value;
            Parsed(raw, rel) ==
            if Utf8Length(raw) <= MAX_BYTES
            then Ok(Meta(StringField(raw, "name"), StringField(raw, "filename"), StringField(raw, "side"),
                         if Folded(StringField(d, "hash-format")) == "sha256" then StringField(d, "hash") else "",
                         "local", "", "", rel, Clean(Dir(rel) + "/" + StringField(raw, "filename"))))
            else Err
  {
    hide Section, StringField, Folded, Clean, Dir, Utf8Length, Base, TrimSuffix, ValidSide;
  }

  /** The printed address is the one the reader finds in the download section. */
  lemma PrintedUrlIsReadBack(name: string, filename: string, side: string, url: string, sha: string, printable: char -> bool)
    requires PrintsAscii(printable)
    ensures var download := Section(FileText(name, filename, side, url, sha, printable), "download");
            download.Some? && StringField(download.value, "url") == url
  {
    ReadSection(name, filename, side, url, sha, printable, "download");
    hide StringField, PrintsAscii, Line, Row, Section, FileText;
    var last := Row(Line("hash", sha, printable), "");
    ReadHere("url", url, Row(Line("hash-format", "sha256", printable), last), printable);
  }

  // ---- the text, and the defaults ----

  lemma {:induction false} PlainIsQuotedAsItIs(s: string, printable: char -> bool)
    requires forall i | 0 <= i < |s| :: printable(s[i]) && s[i] != '"' && s[i] != '\\'
    ensures Quoted(s, printable) == s
  {
    if s != "" {
      PlainIsQuotedAsItIs(s[1..], printable);
      assert s == [s[0]] + s[1..];
    }
  }

  lemma PlainLine(key: string, value: string, rest: string, printable: char -> bool)
    requires forall i | 0 <= i < |value| :: printable(value[i]) && value[i] != '"' && value[i] != '\\'
    ensures Row(Line(key, value, printable), rest) == (key + " = \"" + value + "\"\n") + rest
  {
    PlainIsQuotedAsItIs(value, printable);
    hide Quoted;
  }

  predicate NeedsNoEscape(s: string, printable: char -> bool) {
    forall i | 0 <= i < |s| :: printable(s[i]) && s[i] != '"' && s[i] != '\\'
  }

  /** ASCII text without quotes and backslashes needs none. */
  lemma PlainAsciiNeedsNoEscape(s: string)
    requires forall i | 0 <= i < |s| :: 0x20 <= s[i] as int < 0x7f && s[i] != '"' && s[i] != '\\'
    ensures var printable := (c: char) => 0x20 <= c as int < 0x7f; PrintsAscii(printable) && NeedsNoEscape(s, printable)
  {
  }

  /** What the printed file looks like where nothing needs an escape. */
  lemma PrintedText(name: string, filename: string, side: string, url: string, sha: string, printable: char -> bool)
    requires PrintsAscii(printable) && NeedsNoEscape(name, printable) && NeedsNoEscape(filename, printable)
    requires NeedsNoEscape(side, printable) && NeedsNoEscape(url, printable) && NeedsNoEscape(sha, printable)
    ensures FileText(name, filename, side, url, sha, printable) ==
            ("name = \"" + name + "\"\n") +
            (("filename = \"" + filename + "\"\n") +
             (("side = \"" + side + "\"\n") +
              ("\n" +
               ("[download]\n" +
                (("url = \"" + url + "\"\n") +
                 (("hash-format = \"sha256\"\n") +
                  (("hash = \"" + sha + "\"\n") + "")))))))
  {
    Sha256IsPlain(printable);
    var r1 := ("hash = \"" + sha + "\"\n") + "";
    var r2 := "hash-format = \"sha256\"\n" + r1;
    var r3 := ("url = \"" + url + "\"\n") + r2;
    var r4 := "\n" + ("[download]\n" + r3);
    var r5 := ("side = \"" + side + "\"\n") + r4;
    PlainLine("hash", sha, "", printable);
    PlainLine("hash-format", "sha256", r1, printable);
    FormatRow(r1);
    PlainLine("url", url, r2, printable);
    HeaderRows(r3);
    PlainLine("side", side, r4, printable);
    PlainLine("filename", filename, r5, printable);
    PlainLine("name", name, ("filename = \"" + filename + "\"\n") + r5, printable);
    LineHeads(name, filename, side, url, sha);
    hide Row, Line, Quoted, PrintsAscii;
  }

  lemma FormatRow(rest: string)
    ensures ("hash-format" + " = \"" + "sha256" + "\"\n") + rest == "hash-format = \"sha256\"\n" + rest
  {
  }

  lemma HeaderRows(rest: string)
    ensures Row("", Row("[download]", rest)) == "\n" + ("[download]\n" + rest)
  {
  }

  lemma LineHeads(name: string, filename: string, side: string, url: string, sha: string)
    ensures "name" + " = \"" + name + "\"\n" == "name = \"" + name + "\"\n"
    ensures "filename" + " = \"" + filename + "\"\n" == "filename = \"" + filename + "\"\n"
    ensures "side" + " = \"" + side + "\"\n" == "side = \"" + side + "\"\n"
    ensures "url" + " = \"" + url + "\"\n" == "url = \"" + url + "\"\n"
    ensures "hash" + " = \"" + sha + "\"\n" == "hash = \"" + sha + "\"\n"
  {
    assert "name" + " = \"" == "name = \"" && "filename" + " = \"" == "filename = \"" && "side" + " = \"" == "side = \"";
    assert "url" + " = \"" == "url = \"" && "hash" + " = \"" == "hash = \"";
  }

  lemma Sha256IsPlain(printable: char -> bool)
    requires PrintsAscii(printable)
    ensures Quoted("sha256", printable) == "sha256"
  {
    PlainIsQuotedAsItIs("sha256", printable);
  }

  /** The escapes for quotes, backslashes and line breaks. */
  lemma CommonEscapes(printable: char -> bool)
    requires PrintsAscii(printable)
    ensures Quoted("\"", printable) == "\\\"" && Quoted("\\", printable) == "\\\\" && Quoted("\n", printable) == "\\n"
    ensures Quoted("\r", printable) == "\\r" && Quoted("\t", printable) == "\\t" && Quoted("\0", printable) == "\\x00"
    ensures Quoted([7 as char], printable) == "\\a" && Quoted([8 as char], printable) == "\\b"
    ensures Quoted([11 as char], printable) == "\\v" && Quoted([12 as char], printable) == "\\f"
  {
    assert Hex(0, 2) == Hex(0, 1) + ['0'] && Hex(0, 1) == "0";
  }

  lemma {:induction false} FoldedPointwise(s: string)
    ensures |Folded(s)| == |s|
    ensures forall i | 0 <= i < |s| :: Folded(s)[i] == ToLower([if s[i] as int == 0x17F then 's' else s[i]])[0]
  {
    if s != "" {
      FoldedPointwise(s[1..]);
    }
  }

  predicate FoldsTo(c: char, d: char) {
    && (d == 's' <==> c == 's' || c == 'S' || c as int == 0x17F) && (d == 'h' <==> c == 'h' || c == 'H')
    && (d == 'a' <==> c == 'a' || c == 'A') && (d == '2' <==> c == '2') && (d == '5' <==> c == '5') && (d == '6' <==> c == '6')
  }

  lemma LowerOf(c: char)
    ensures FoldsTo(c, ToLower([if c as int == 0x17F then 's' else c])[0])
  {
  }

  /** Which hash formats count as SHA-256: those that differ in case only, the long s included. */
  lemma FoldsToSha256(f: string)
    ensures Folded(f) == "sha256" <==>
            && |f| == 6 && (f[0] == 's' || f[0] == 'S' || f[0] as int == 0x17F) && (f[1] == 'h' || f[1] == 'H')
            && (f[2] == 'a' || f[2] == 'A') && f[3] == '2' && f[4] == '5' && f[5] == '6'
  {
    FoldedPointwise(f);
    hide Folded, ToLower, FoldsTo;
    SixLetters(Folded(f));
    if |f| == 6 {
      forall i | 0 <= i < 6
        ensures FoldsTo(f[i], Folded(f)[i])
      {
        LowerOf(f[i]);
      }
      SixFolds(f, Folded(f));
    }
  }

  lemma SixLetters(g: string)
    ensures g == "sha256" <==>
            |g| == 6 && g[0] == 's' && g[1] == 'h' && g[2] == 'a' && g[3] == '2' && g[4] == '5' && g[5] == '6'
  {
  }

  lemma SixFolds(f: string, g: string)
    requires |f| == |g| == 6 && forall i | 0 <= i < 6 :: FoldsTo(f[i], g[i])
    ensures g[0] == 's' <==> f[0] == 's' || f[0] == 'S' || f[0] as int == 0x17F
    ensures (g[1] == 'h' <==> f[1] == 'h' || f[1] == 'H') && (g[2] == 'a' <==> f[2] == 'a' || f[2] == 'A')
    ensures (g[3] == '2' <==> f[3] == '2') && (g[4] == '5' <==> f[4] == '5') && (g[5] == '6' <==> f[5] == '6')
  {
    assert FoldsTo(f[0], g[0]) && FoldsTo(f[1], g[1]) && FoldsTo(f[2], g[2]);
    assert FoldsTo(f[3], g[3]) && FoldsTo(f[4], g[4]) && FoldsTo(f[5], g[5]);
  }

  /** What a file that says nothing about it is called, which side it is on, and when it has a digest. */
  lemma ParsedDefaults(raw: string, rel: string, stem: string)
    requires Parsed(raw, rel).Ok? && Base(rel) == stem + ".pw.toml"
    ensures var m := Parsed(raw, rel).value;
            && m.path == rel
            && m.name == (if StringField(raw, "name") == "" then stem else StringField(raw, "name"))
            && m.filename == (if StringField(raw, "filename") == "" then stem else StringField(raw, "filename"))
            && m.side == (if StringField(raw, "side") == "client" || StringField(raw, "side") == "server" then StringField(raw, "side")
                          else "both")
            && (m.sha != "" ==> Section(raw, "download").Some?
                                && Folded(StringField(Section(raw, "download").value, "hash-format")) == "sha256"
                                && m.sha == StringField(Section(raw, "download").value, "hash"))
            && (Section(raw, "update.modrinth").None? && Section(raw, "update.curseforge").None? ==>
                m.provider == "local" && m.projectId == "" && m.versionId == "")
  {
    hide Section, StringField, BareField, Folded, Clean, Dir, Utf8Length;
    assert (stem + ".pw.toml")[..|stem + ".pw.toml"| - 8] == stem;
  }

  lemma {:induction false} AtMostFourBytes(s: string)
    ensures Utf8Length(s) <= 4 * |s|
  {
    if s != "" {
      AtMostFourBytes(s[1..]);
    }
  }

  /** What a text takes in UTF-8. */
  lemma {:induction false} Utf8Lengths(a: string, b: string, c: char)
    ensures Utf8Length(a + b) == Utf8Length(a) + Utf8Length(b)
    ensures Utf8Length([c]) ==
            if c as int <= 0x7f then 1 else if c as int <= 0x7ff then 2 else if c as int <= 0xffff then 3 else 4
  {
    if a == "" {
      assert a + b == b;
    } else {
      assert (a + b)[1..] == a[1..] + b;
      Utf8Lengths(a[1..], b, c);
    }
    assert [c][1..] == "";
  }

  /** A file is read up to a mebibyte. */
  lemma ParsedUpToOneMebibyte(raw: string, rel: string)
    ensures Parsed(raw, rel).Ok? <==> Utf8Length(raw) <= 1_048_576
  {
    hide Section, StringField, BareField, Folded, Clean, Dir, Utf8Length, Base, TrimSuffix, ValidSide;
  }

  /** Escapes that only a foreign file has. */
  lemma ForeignEscapes()
    ensures Decoded("\\x41") == "A" && Decoded("\\101") == "A" && Decoded("\\u00e9") == [0xe9 as char]
  {
    HexExamples();
    assert "\\x41"[1..] == "x41" && "x41"[1..3] == "41";
    assert "\\u00e9"[1..] == "u00e9" && "u00e9"[1..5] == "00e9";
    assert "\\101"[1..] == "101";
    hide HexValue;
    assert Escaped("x41") == Some(('A', 3)) && Escaped("101") == Some(('A', 3)) && Escaped("u00e9") == Some((0xe9 as char, 5));
    hide Escaped;
    OneEscape("\\x41", 'A', 3);
    OneEscape("\\101", 'A', 3);
    OneEscape("\\u00e9", 0xe9 as char, 5);
  }

  /** An escape that does not exist: the text is taken as it is. */
  lemma UnknownEscapeIsKept()
    ensures Decoded("\\q") == "\\q"
  {
    assert "\\q"[1..] == "q";
  }

  lemma OneEscape(s: string, c: char, n: nat)
    requires |s| == n + 1 && s[0] == '\\' && Escaped(s[1..]) == Some((c, n))
    ensures Decoded(s) == [c]
  {
    hide Escaped;
    assert s[1 + n..] == "" && [c] + "" == [c];
    assert Unquoted(s[1 + n..]) == Some("");
  }

  lemma HexExamples()
    ensures HexValue("41") == Some(0x41) && HexValue("00e9") == Some(0xe9)
  {
    assert "41"[..1] == "4" && "4"[..0] == "";
    assert "00e9"[..3] == "00e" && "00e"[..2] == "00" && "00"[..1] == "0" && "0"[..0] == "";
  }
}

/** The metadata that uploads write (service/internal/api/api.go, `uploadJAR`, and client_files.go). */
module Uploads {
  import opened Text
  import opened Paths
  import opened Quoting
  import opened Metadata
  import opened Folders

  /** The metadata file an upload writes, and the row it inserts. */
  datatype Upload = Upload(path: string, content: string, target: string, filename: string)

  // ---- where a metadata file says its file goes ----

  /** A file name beside a metadata file in a folder. */
  lemma DestinationInFolder(dir: string, x: string, file: string)
    requires PlainComponent(dir) && '/' !in x && PlainComponent(file)
    ensures Dir(dir + "/" + x) == dir && Base(dir + "/" + x) == x
    ensures Clean(dir + "/" + file) == dir + "/" + file
  {
    SplitAtSlash(dir, x);
    SplitAtSlash(dir, file);
    SplitOfPlain(dir);
    SplitOfPlain(x);
    SplitOfPlain(file);
    assert [dir] + [file] == [dir, file];
    CleanOfPlain([dir, file]);
    hide Split, PushAll;
    assert [dir, file][1..] == [file];
    assert Join([dir, file]) == dir + "/" + file;
  }

  // ---- jars ----

  predicate AcceptsJar(display: string, side: string, destination: string, header: string) {
    && ValidSide(side) && TrimSpace(display) != ""
    && SafeRelative(destination).Ok? && Dir(SafeRelative(destination).value) == "mods"
    && HasSuffix(ToLower(SafeRelative(destination).value), ".jar")
    && SafeFilename(header).Ok?
  }

  // ---- which forms are accepted, by their fields ----

  lemma NotBlank(display: string)
    ensures TrimSpace(display) != "" <==> exists i | 0 <= i < |display| :: !IsSpace(display[i])
  {
    var a, b := TrimSpaceTrims(display);
    var middle := TrimSpace(display);
    hide TrimSpace, IsSpace;
    if middle != "" {
      assert display[|a|] == middle[0];
    }
  }

  /** The location a safe path spells. */
  lemma SafeComponents(value: string)
    ensures SafeRelative(value).Ok? <==>
            && value != "" && '\0' !in value && value[0] != '/' && '\\' !in value
            && Walk([], Split(value)).Some? && Walk([], Split(value)).value != []
    ensures SafeRelative(value).Ok? ==>
              Split(SafeRelative(value).value) == Walk([], Split(value)).value && Plain(Walk([], Split(value)).value)
  {
    SafeRelativeIsTheWalk(value);
    if SafeRelative(value).Ok? {
      SafeRelativeIsCanonical(value, []);
      assert [] + Split(SafeRelative(value).value) == Split(SafeRelative(value).value);
    }
    hide SafeRelative;
  }

  lemma SingleName(header: string)
    ensures SafeFilename(header).Ok? <==> SafeRelative(header).Ok? && |Split(SafeRelative(header).value)| == 1
  {
    if SafeRelative(header).Ok? {
      var rel := SafeRelative(header).value;
      if '/' !in rel {
        SplitOfPlain(rel);
      }
      if |Split(rel)| == 1 {
        OnePart(rel);
      }
    }
  }

  lemma OnePart(s: string)
    requires |Split(s)| == 1
    ensures '/' !in s
  {
    JoinOfSplit(s);
    var parts := Split(s);
    assert parts[0] in parts;
    hide Split;
    assert parts == [parts[0]];
  }

  lemma DirectlyInMods(rel: string)
    ensures Dir(rel) == "mods" <==> |Split(rel)| == 2 && Split(rel)[0] == "mods"
  {
    var parts := Split(rel);
    if |parts| > 1 {
      var front := parts[..|parts| - 1];
      assert forall c | c in front :: c in parts;
      SplitOfJoin(front);
      SplitOfPlain("mods");
      hide Split;
      if Join(front) == "mods" {
        assert front == ["mods"] && |parts| == 2 && parts[0] == front[0];
      }
      if |parts| == 2 && parts[0] == "mods" {
        assert front == ["mods"];
      }
      assert Join(["mods"]) == "mods";
    }
  }

  /** The extension, in any case. */
  predicate IsJar(name: string) {
    && |name| >= 4 && name[|name| - 4] == '.' && (name[|name| - 3] == 'j' || name[|name| - 3] == 'J')
    && (name[|name| - 2] == 'a' || name[|name| - 2] == 'A') && (name[|name| - 1] == 'r' || name[|name| - 1] == 'R')
  }

  lemma JarByCharacters(name: string)
    ensures HasSuffix(ToLower(name), ".jar") <==> IsJar(name)
  {
    var lower := ToLower(name);
    if |name| >= 4 {
      var n := |name|;
      assert lower[n - 4..] == [lower[n - 4], lower[n - 3], lower[n - 2], lower[n - 1]];
      assert ".jar" == ['.', 'j', 'a', 'r'];
    }
  }

  lemma JarInMods(rel: string)
    requires |Split(rel)| == 2 && Split(rel)[0] == "mods"
    ensures IsJar(rel) <==> IsJar(Split(rel)[1])
  {
    JoinOfSplit(rel);
    var x := Split(rel)[1];
    assert Split(rel) == ["mods", x] && ["mods", x][1..] == [x];
    hide Split, IsJar;
    assert rel == "mods" + "/" + x;
    JarAfterSlash("mods", x);
  }

  lemma JarAfterSlash(dir: string, x: string)
    ensures IsJar(dir + "/" + x) <==> IsJar(x)
  {
    var whole := dir + "/" + x;
    var n, m := |whole|, |x|;
    assert n == |dir| + 1 + m && whole[|dir|] == '/';
    if m >= 4 {
      assert whole[n - 4] == x[m - 4] && whole[n - 3] == x[m - 3] && whole[n - 2] == x[m - 2] && whole[n - 1] == x[m - 1];
    } else if m == 3 {
      assert whole[n - 4] == '/';
    } else if m == 2 {
      assert whole[n - 3] == '/';
    } else if m == 1 {
      assert whole[n - 2] == '/';
    } else {
      assert whole[n - 1] == '/';
    }
  }

  /** A form is accepted exactly for a side, a name that is not blank, a destination that leads to a file
      directly under `mods` with the extension in any case, and an uploaded file name of one component. */
  lemma AcceptedForms(display: string, side: string, destination: string, header: string)
    ensures AcceptsJar(display, side, destination, header) <==>
            && (side == "client" || side == "server" || side == "both")
            && (exists i | 0 <= i < |display| :: !IsSpace(display[i]))
            && destination != "" && '\0' !in destination && destination[0] != '/' && '\\' !in destination
            && Walk([], Split(destination)).Some?
            && (var end := Walk([], Split(destination)).value; |end| == 2 && end[0] == "mods" && IsJar(end[1]))
            && header != "" && '\0' !in header && header[0] != '/' && '\\' !in header
            && Walk([], Split(header)).Some? && |Walk([], Split(header)).value| == 1
  {
    hide TrimSpace, SafeRelative, SafeFilename, Split, Walk, Dir, HasSuffix, ToLower, IsJar, IsSpace, Plain;
    NotBlank(display);
    SafeComponents(destination);
    SafeComponents(header);
    SingleName(header);
    if SafeRelative(destination).Ok? {
      var rel := SafeRelative(destination).value;
      DirectlyInMods(rel);
      JarByCharacters(rel);
      if Dir(rel) == "mods" {
        JarInMods(rel);
      }
    }
  }

  /** A path directly in a folder is the folder, a slash and one component. */
  lemma DirectlyIn(path: string, dir: string)
    requires SafeRelative(path) == Ok(path) && Dir(path) == dir && dir != "."
    ensures path == dir + "/" + Base(path) && PlainComponent(Base(path)) && SafeFilename(Base(path)).Ok?
  {
    var parts := Split(path);
    SafeRelativeIsCanonical(path, []);
    JoinOfSplit(path);
    var base := parts[|parts| - 1];
    assert base in parts;
    hide Split, SafeRelative;
    assert parts == parts[..|parts| - 1] + [base];
    JoinAppend(parts[..|parts| - 1], [base]);
    ComponentIsSafe(path, base);
  }

  lemma ComponentIsSafe(path: string, base: string)
    requires SafeRelative(path) == Ok(path) && HasSuffix(path, base) && PlainComponent(base)
    ensures SafeFilename(base).Ok?
  {
    assert '\\' !in path && '\0' !in path by { SafeRelativeIsCanonical(path, []); }
    hide SafeRelative, Clean;
    assert forall c | c in base :: c in path;
    PlainIsSafe(base);
  }

  /** The extension as it is written, cut off a path in a folder, leaves the folder. */
  lemma StemInFolder(dir: string, base: string)
    requires '/' !in base
    ensures TrimSuffix(dir + "/" + base, ".jar") == dir + "/" + TrimSuffix(base, ".jar")
    ensures '/' !in TrimSuffix(base, ".jar")
  {
    var path := dir + "/" + base;
    if |base| >= 4 {
      assert path[|path| - 4..] == base[|base| - 4..];
    } else if |path| >= 4 {
      assert path[|path| - 4..][3 - |base|] == '/';
    }
  }

  /** The part of `uploadJAR` that checks the form and prints the metadata file; `sha` is the digest of
      the stored blob. The file is read back as what was uploaded, and points at the uploaded
      destination exactly when `SafeFilename` leaves the name as it is. */
  method UploadJar(displayForm: string, side: string, destinationForm: string, header: string, sha: string,
                   publicBase: string, printable: char -> bool) returns (r: Result<Upload>)
    requires PrintsAscii(printable)
    ensures r.Ok? <==> AcceptsJar(displayForm, side, destinationForm, header)
    ensures r.Ok? ==>
              var url := publicBase + "/blobs/sha256/" + sha + "/" + r.value.filename;
              && r.value.content == FileText(TrimSpace(displayForm), r.value.filename, side, url, sha, printable)
              && Section(r.value.content, "download").Some?
              && StringField(Section(r.value.content, "download").value, "url") == url
    ensures r.Ok? ==>
              && Ok(r.value.target) == SafeRelative(destinationForm)
              && Ok(r.value.filename) == SafeFilename(Base(r.value.target))
              && r.value.path == "mods/" + TrimSuffix(Base(r.value.target), ".jar") + ".pw.toml"
              && Parsed(r.value.content, r.value.path) ==
                 (if Utf8Length(r.value.content) <= MAX_BYTES
                  then Ok(Meta(TrimSpace(displayForm), r.value.filename, side, sha, "local", "", "", r.value.path,
                               "mods/" + r.value.filename))
                  else Err)
              && ("mods/" + r.value.filename == r.value.target <==> r.value.filename == Base(r.value.target))
  {
    hide ValidSide, TrimSpace, SafeRelative, Dir, HasSuffix, ToLower, SafeFilename, Base, TrimSuffix, FileText, Parsed,
         Utf8Length, PrintsAscii, Clean, Section, StringField;
    if !ValidSide(side) {
      return Err;
    }
    var display := TrimSpace(displayForm);
    if display == "" {
      return Err;
    }
    var checked := SafeRelative(destinationForm);
    if checked.Err? || Dir(checked.value) != "mods" || !HasSuffix(ToLower(checked.value), ".jar") {
      return Err;
    }
    var destination := checked.value;
    var safe := SafeFilename(header);
    if safe.Err? {
      return Err;
    }
    var path := TrimSuffix(destination, ".jar") + ".pw.toml";
    var filename := SafeFilename(Base(destination));
    InMods(destinationForm);
    if filename.Err? {
      return Err;
    }
    var url := publicBase + "/blobs/sha256/" + sha + "/" + filename.value;
    var content := FileText(display, filename.value, side, url, sha, printable);
    PrintedIsReadBack(display, filename.value, side, url, sha, path, printable);
    PrintedUrlIsReadBack(display, filename.value, side, url, sha, printable);
    r := Ok(Upload(path, content, destination, filename.value));
  }

  lemma InMods(destinationForm: string)
    requires SafeRelative(destinationForm).Ok? && Dir(SafeRelative(destinationForm).value) == "mods"
    ensures var destination := SafeRelative(destinationForm).value;
            && SafeFilename(Base(destination)).Ok?
            && var filename, path := SafeFilename(Base(destination)).value, TrimSuffix(destination, ".jar") + ".pw.toml";
               && filename != ""
               && path == "mods/" + TrimSuffix(Base(destination), ".jar") + ".pw.toml"
               && Clean(Dir(path) + "/" + filename) == "mods/" + filename
               && ("mods/" + filename == destination <==> filename == Base(destination))
  {
    hide SafeRelative, SafeFilename, Clean, TrimSuffix, Dir, Base;
    var destination := SafeRelative(destinationForm).value;
    var base := Base(destination);
    SafeRelativeIsCanonical(destinationForm, []);
    DirectlyIn(destination, "mods");
    SafeFilenameIsOneComponent(base);
    var filename := SafeFilename(base).value;
    StemInFolder("mods", base);
    var x := TrimSuffix(base, ".jar") + ".pw.toml";
    assert "mods" + "/" + base == destination && "mods" + "/" + x == TrimSuffix(destination, ".jar") + ".pw.toml";
    ModsIsPlain(x, filename);
    if "mods/" + filename == destination {
      assert filename == ("mods/" + filename)[5..] && base == destination[5..];
    }
  }

  lemma ModsIsPlain(x: string, file: string)
    requires '/' !in x && PlainComponent(file)
    ensures Dir("mods" + "/" + x) == "mods" && Clean("mods" + "/" + file) == "mods" + "/" + file
  {
    hide Dir, Clean, Base;
    DestinationInFolder("mods", x, file);
  }

  // ---- client files ----

  predicate NameCharacter(c: char) {
    'A' <= c <= 'Z' || 'a' <= c <= 'z' || '0' <= c <= '9' || c == '.' || c == '_' || c == '+' || c == '-'
  }

  datatype ClientName = NotClient | BadName | Client(name: string)

  /** `clientFileName`. */
  function ClientFileName(target: string): ClientName {
    if target == CLIENT_FILES then BadName
    else if !(CLIENT_FILES + "/" <= target) then NotClient
    else
      var name := target[|CLIENT_FILES| + 1..];
      var lower := ToLower(name);
      if name == "" || '/' in name || (exists c | c in name :: !NameCharacter(c)) then BadName
      else if lower == "pack.toml" || lower == "index.toml" || lower == ".packwizignore" || HasSuffix(lower, ".pw.toml") then
        BadName
      else Client(name)
  }

  /** The metadata of a client file stands beside `pack.toml`, and is read back as a client-side file at the
      top of the modpack under the uploaded name. */
  method ClientMetadata(target: string, filename: string, publicBase: string, sha: string, printable: char -> bool)
    returns (r: Result<Upload>)
    requires PrintsAscii(printable)
    ensures r.Ok? <==>
              && target == "client-files/" + filename && filename != ""
              && (forall i | 0 <= i < |filename| ::
                    || 'A' <= filename[i] <= 'Z' || 'a' <= filename[i] <= 'z' || '0' <= filename[i] <= '9'
                    || filename[i] == '.' || filename[i] == '_' || filename[i] == '+' || filename[i] == '-')
              && ToLower(filename) != "pack.toml" && ToLower(filename) != "index.toml"
              && ToLower(filename) != ".packwizignore" && !HasSuffix(ToLower(filename), ".pw.toml")
    ensures r.Ok? ==>
              var url := TrimRight(publicBase) + "/blobs/sha256/" + sha + "/" + filename;
              && r.value.content == FileText(filename, filename, "client", url, sha, printable)
              && Section(r.value.content, "download").Some?
              && StringField(Section(r.value.content, "download").value, "url") == url
    ensures r.Ok? ==>
              && target == "client-files/" + filename && r.value.target == target && r.value.filename == filename
              && r.value.path == filename + ".pw.toml"
              && Parsed(r.value.content, r.value.path) ==
                 if Utf8Length(r.value.content) <= MAX_BYTES
                 then Ok(Meta(filename, filename, "client", sha, "local", "", "", r.value.path, filename))
                 else Err
  {
    ClientNames(target, filename);
    hide Parsed, FileText, PrintsAscii, Utf8Length, Clean, Section, StringField, TrimRight, ToLower, HasSuffix, ClientFileName;
    var validated := ClientFileName(target);
    if validated != Client(filename) {
      return Err;
    }
    var path := filename + ".pw.toml";
    // the name needs no escape in a path segment
    var url := TrimRight(publicBase) + "/blobs/sha256/" + sha + "/" + filename;
    var content := FileText(filename, filename, "client", url, sha, printable);
    PrintedIsReadBack(filename, filename, "client", url, sha, path, printable);
    PrintedUrlIsReadBack(filename, filename, "client", url, sha, printable);
    ClientDestination(filename);
    r := Ok(Upload(path, content, target, filename));
  }

  lemma ClientNames(target: string, filename: string)
    ensures ClientFileName(target) == Client(filename) <==>
            && target == "client-files/" + filename && filename != ""
            && (forall i | 0 <= i < |filename| ::
                  || 'A' <= filename[i] <= 'Z' || 'a' <= filename[i] <= 'z' || '0' <= filename[i] <= '9'
                  || filename[i] == '.' || filename[i] == '_' || filename[i] == '+' || filename[i] == '-')
            && ToLower(filename) != "pack.toml" && ToLower(filename) != "index.toml"
            && ToLower(filename) != ".packwizignore" && !HasSuffix(ToLower(filename), ".pw.toml")
    ensures ClientFileName(target) == Client(filename) ==> '/' !in filename
  {
    hide ToLower, HasSuffix;
    var prefix := "client-files/";
    assert CLIENT_FILES + "/" == prefix;
    if prefix <= target {
      assert target == prefix + target[|prefix|..];
    }
    if target == prefix + filename {
      assert prefix <= target && target[|prefix|..] == filename;
      assert forall c | c in filename :: exists i :: 0 <= i < |filename| && filename[i] == c;
      assert forall i | 0 <= i < |filename| :: filename[i] in filename;
    }
  }

  lemma ClientDestination(name: string)
    requires name != "" && '/' !in name
    ensures Clean(Dir(name + ".pw.toml") + "/" + name) == name
  {
    var x := name + ".pw.toml";
    SplitOfPlain(x);
    assert Dir(x) == ".";
    SplitOfPlain(".");
    SplitOfPlain(name);
    SplitAtSlash(".", name);
    assert (["."] + [name])[1..] == [name];
    OneComponentStays(name);
    hide Split;
  }

  lemma OneComponentStays(name: string)
    requires name != "" && '/' !in name
    ensures var kept := PushAll([], ["."] + [name]); (if kept == [] then "." else Join(kept)) == name
  {
    assert (["."] + [name])[1..] == [name] && [name][1..] == [];
    assert PushAll([], ["."] + [name]) == PushAll([], [name]) == PushAll(Push([], name), []);
  }
}

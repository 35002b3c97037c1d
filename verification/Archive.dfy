/** Archive extraction (service/internal/files/archive.go): a byte budget in 64-bit integers, and the
    tree that a list of entries builds. */
module Archive {
  import opened Text
  import opened Paths
  import opened Trees

  const TWO63 := 0x8000_0000_0000_0000
  const TWO64 := 0x1_0000_0000_0000_0000

  /** `uint64(x)` and `int64(u)`. */
  function Uint64(x: int): nat {
    x % TWO64
  }

  function Int64(u: int): int {
    var v := u % TWO64;
    if v < TWO63 then v else v - TWO64
  }

  /** A directory record of the archive; `folder` covers names that end in a slash. */
  datatype ZipEntry = ZipEntry(name: string, link: bool, folder: bool, special: bool, declared: nat, content: string)

  function Name(e: ZipEntry): string {
    TrimSuffix(e.name, "/")
  }

  /** An entry for the root itself is skipped. */
  predicate Live(e: ZipEntry) {
    Name(e) != ""
  }

  predicate Acceptable(e: ZipEntry) {
    SafeRelative(Name(e)).Ok? && !e.link && !(e.special && !e.folder)
  }

  /** Where an entry goes: the location that its name leads to. */
  function PathOf(e: ZipEntry): Path {
    match Walk([], Split(Name(e))) case Some(end) => end case None => []
  }

  /** `os.MkdirAll`. */
  function MkdirAll(t: Tree, p: Path): Option<Tree>
    decreases |p|
  {
    if p == [] then Some(t)
    else match MkdirAll(t, p[..|p| - 1])
      case None => None
      case Some(u) =>
        if p !in u then Some(u[p := Folder])
        else if u[p].Folder? then Some(u) else None
  }

  /** The bytes that pass `io.LimitReader(in, limit)`. */
  function Limited(content: string, limit: int): string {
    if limit <= 0 then "" else if limit < |content| then content[..limit] else content
  }

  function Total(entries: seq<ZipEntry>): nat {
    if entries == [] then 0
    else Total(entries[..|entries| - 1]) + (var e := entries[|entries| - 1]; if Live(e) then e.declared else 0)
  }

  /** No file lies on the path of another entry; in particular file paths are pairwise different. */
  ghost predicate NoConflict(entries: seq<ZipEntry>) {
    forall i, j | 0 <= i < |entries| && 0 <= j < |entries| && i != j && Live(entries[i]) && Live(entries[j])
                  && !entries[i].folder :: !OnWay(PathOf(entries[i]), PathOf(entries[j]))
  }

  ghost predicate AllAcceptable(entries: seq<ZipEntry>) {
    forall i | 0 <= i < |entries| && Live(entries[i]) :: Acceptable(entries[i])
  }

  /** `q` is `p` or one of the folders above it. */
  predicate OnWay(q: Path, p: Path) {
    q != [] && q <= p
  }

  /** Some entry has this path, or a path below it. */
  ghost predicate Named(entries: seq<ZipEntry>, q: Path) {
    exists i | 0 <= i < |entries| :: Live(entries[i]) && OnWay(q, PathOf(entries[i]))
  }

  ghost predicate FileAt(entries: seq<ZipEntry>, q: Path, data: string) {
    exists i | 0 <= i < |entries| ::
      Live(entries[i]) && !entries[i].folder && q == PathOf(entries[i]) && data == entries[i].content
  }

  /** The tree holds exactly the entries and their parents: the files with their content, the rest folders. */
  ghost predicate IsTreeOf(entries: seq<ZipEntry>, t: Tree) {
    && (forall q :: q in t <==> Named(entries, q))
    && (forall q, data | q in t :: t[q] == File(data) <==> FileAt(entries, q, data))
  }

  /** What extraction needs, apart from I/O errors. */
  ghost predicate Extractable(entries: seq<ZipEntry>, bytes: int) {
    AllAcceptable(entries) && NoConflict(entries) && Total(entries) <= bytes
  }

  /** The entries with the bytes that reach the disk: the reader is limited to `limits.Bytes + 1`. */
  function Written(e: ZipEntry, bytes: int): ZipEntry {
    if Live(e) then e.(content := Limited(e.content, Int64(bytes + 1))) else e
  }

  function AllWritten(entries: seq<ZipEntry>, bytes: int): seq<ZipEntry> {
    seq(|entries|, i requires 0 <= i < |entries| => Written(entries[i], bytes))
  }

  /** `ExtractZIP` into an empty directory. It succeeds exactly on extractable archives, and then the
      result is the tree of the entries; see `WrittenInFull` for what is written of each. */
  method ExtractZIP(entries: seq<ZipEntry>, files: int, bytes: int) returns (r: Result<Tree>)
    requires -TWO63 <= bytes < TWO63
    requires forall e | e in entries :: e.declared < TWO64 && |e.content| == e.declared
    ensures r.Ok? <==> files >= 1 && bytes >= 1 && |entries| <= files && Extractable(entries, bytes)
    ensures r.Ok? ==> IsTreeOf(AllWritten(entries, bytes), r.value)
    ensures r.Ok? && bytes < TWO63 - 1 ==> IsTreeOf(entries, r.value)
    ensures r.Ok? ==> forall e | e in entries && TrimSuffix(e.name, "/") != "" ::
              var end := Walk([], Split(TrimSuffix(e.name, "/")));
              && end.Some? && end.value in r.value
              && r.value[end.value] == if e.folder then Folder else File(if bytes < TWO63 - 1 then e.content else "")
    ensures r.Ok? ==> forall q | q in r.value ::
              exists e :: e in entries && TrimSuffix(e.name, "/") != "" && Walk([], Split(TrimSuffix(e.name, "/"))).Some?
                          && q <= Walk([], Split(TrimSuffix(e.name, "/"))).value
  {
    hide *;
    if files < 1 || bytes < 1 || |entries| > files {
      return Err;
    }
    ghost var written := AllWritten(entries, bytes);
    WrittenExtractable(entries, bytes);
    var t: Tree, expanded: int, i := map[], 0, 0;
    assert written[..0] == [];
    Nothing(bytes);
    while i < |entries|
      invariant 0 <= i <= |entries|
      invariant Extractable(written[..i], bytes) && IsTreeOf(written[..i], t)
      invariant expanded == Total(written[..i]) && 0 <= expanded <= bytes
    {
      var e := entries[i];
      assert e in entries;
      WrittenOne(entries, i, bytes);
      Prefixes(written, i, bytes);
      if Name(e) == "" {
        SkippedEntry(written, i, bytes, t);
        i := i + 1;
        continue;
      }
      if SafeRelative(Name(e)).Err? || e.link || (e.special && !e.folder) {
        Unacceptable(written, i);
        return Err;
      }
      CastsAreExact(e.declared, bytes - expanded);
      if e.declared > Uint64(bytes - expanded) {
        return Err;
      }
      expanded := expanded + Int64(e.declared);
      var made := Place(entries, i, bytes, t);
      if made.None? {
        return Err;
      }
      t := made.value;
      i := i + 1;
    }
    assert written[..i] == written;
    r := Ok(t);
    if bytes < TWO63 - 1 {
      WrittenInFull(entries, bytes);
    }
    EveryEntryIsThere(entries, bytes, t);
  }

  /** The part of the loop that writes: one entry that was accepted and fits the budget. */
  method Place(entries: seq<ZipEntry>, i: nat, bytes: int, t: Tree) returns (r: Option<Tree>)
    requires i < |entries|
    requires var written := AllWritten(entries, bytes);
             && |written| == |entries| && Extractable(written[..i], bytes) && IsTreeOf(written[..i], t)
             && Total(written[..i]) + entries[i].declared <= bytes
    requires var e := entries[i]; Name(e) != "" && SafeRelative(Name(e)).Ok? && !e.link && !(e.special && !e.folder)
    ensures var written := AllWritten(entries, bytes);
            && (r.Some? <==> Extractable(written[..i + 1], bytes))
            && (r.Some? ==> IsTreeOf(written[..i + 1], r.value))
  {
    hide *;
    var e := entries[i];
    SafePathIsTheWalk(e);
    var p := Split(SafeRelative(Name(e)).value);
    WrittenOne(entries, i, bytes);
    Prefixes(AllWritten(entries, bytes), i, bytes);
    AcceptedEntry(AllWritten(entries, bytes), i, bytes, t);
    if e.folder {
      r := MkdirAll(t, p);
    } else {
      var made := MkdirAll(t, p[..|p| - 1]);
      if made.None? || p in made.value {
        return None;
      }
      r := Some(made.value[p := File(Limited(e.content, Int64(bytes + 1)))]);
    }
  }

  lemma WrittenOne(entries: seq<ZipEntry>, i: nat, bytes: int)
    requires i < |entries|
    ensures |AllWritten(entries, bytes)| == |entries|
    ensures var e, w := entries[i], AllWritten(entries, bytes)[i];
            && Name(w) == Name(e) && PathOf(w) == PathOf(e) && w.link == e.link && w.special == e.special
            && w.folder == e.folder && w.declared == e.declared
            && (Name(e) != "" ==> w.content == Limited(e.content, Int64(bytes + 1)))
  {
    hide SafeRelative, Split, Limited, Int64, TrimSuffix;
  }

  lemma WrittenExtractable(entries: seq<ZipEntry>, bytes: int)
    ensures |AllWritten(entries, bytes)| == |entries|
    ensures Extractable(AllWritten(entries, bytes), bytes) <==> Extractable(entries, bytes)
  {
    hide Written, Total, PathOf, Name, Live, Acceptable, OnWay;
    var written := AllWritten(entries, bytes);
    WrittenTotal(entries, bytes);
    forall i | 0 <= i < |entries|
      ensures Live(written[i]) == Live(entries[i]) && Acceptable(written[i]) == Acceptable(entries[i])
      ensures PathOf(written[i]) == PathOf(entries[i]) && written[i].folder == entries[i].folder
    {
      WrittenOne(entries, i, bytes);
      ItIsLive(entries[i]);
      ItIsLive(written[i]);
    }
  }

  lemma {:induction false} WrittenTotal(entries: seq<ZipEntry>, bytes: int)
    ensures Total(AllWritten(entries, bytes)) == Total(entries)
  {
    if entries != [] {
      var before := entries[..|entries| - 1];
      WrittenTotal(before, bytes);
      assert AllWritten(entries, bytes)[..|before|] == AllWritten(before, bytes);
      WrittenOne(entries, |before|, bytes);
    }
  }

  /** Every file is written in full unless the limit is the largest 64-bit integer: then the added byte
      overflows and every file comes out empty. */
  lemma WrittenInFull(entries: seq<ZipEntry>, bytes: int)
    requires 1 <= bytes < TWO63 && Extractable(entries, bytes)
    requires forall e | e in entries :: |e.content| == e.declared
    ensures AllWritten(entries, bytes) == entries <==>
            bytes < TWO63 - 1 || forall e | e in entries && Live(e) :: e.content == ""
  {
    hide SafeRelative, Split, PathOf, Name, NoConflict, AllAcceptable, Total, Live, Limited, Int64;
    forall i | 0 <= i < |entries| && Live(entries[i])
      ensures AllWritten(entries, bytes)[i].content ==
              if bytes < TWO63 - 1 then entries[i].content else ""
    {
      OneOfTotal(entries, i);
      LimitedContent(entries[i].content, bytes);
    }
    if AllWritten(entries, bytes) == entries && bytes == TWO63 - 1 {
      forall e | e in entries && Live(e)
        ensures e.content == ""
      {
        var i :| 0 <= i < |entries| && entries[i] == e;
        assert AllWritten(entries, bytes)[i] == entries[i];
      }
    }
  }

  /** The limit the program configures is four times the upload size, in 64-bit arithmetic; even where
      that wraps it is never the largest integer, so every extracted file is written in full. */
  lemma ConfiguredLimitWritesInFull(entries: seq<ZipEntry>, maxUpload: int)
    requires forall e | e in entries :: |e.content| == e.declared
    ensures var bytes := Int64(maxUpload * 4);
            -TWO63 <= bytes < TWO63 - 1
            && (bytes >= 1 && Extractable(entries, bytes) ==> AllWritten(entries, bytes) == entries)
  {
    var bytes := Int64(maxUpload * 4);
    FourTimes(maxUpload);
    hide Extractable, AllWritten, Int64, Live;
    if bytes >= 1 && Extractable(entries, bytes) {
      WrittenInFull(entries, bytes);
    }
  }

  lemma FourTimes(n: int)
    ensures -TWO63 <= Int64(n * 4) < TWO63 - 1
  {
    var v := n * 4 % TWO64;
    assert v == n * 4 - TWO64 * (n * 4 / TWO64);
    assert v == 4 * (n - 0x4000_0000_0000_0000 * (n * 4 / TWO64));
  }

  // ---- the tree and the condition in terms of the names ----

  lemma EveryEntryIsThere(entries: seq<ZipEntry>, bytes: int, t: Tree)
    requires 1 <= bytes < TWO63 && Extractable(entries, bytes) && IsTreeOf(AllWritten(entries, bytes), t)
    requires forall e | e in entries :: |e.content| == e.declared
    ensures forall e | e in entries && TrimSuffix(e.name, "/") != "" ::
              var end := Walk([], Split(TrimSuffix(e.name, "/")));
              && end.Some? && end.value in t
              && t[end.value] == if e.folder then Folder else File(if bytes < TWO63 - 1 then e.content else "")
    ensures forall q | q in t ::
              exists e :: e in entries && TrimSuffix(e.name, "/") != "" && Walk([], Split(TrimSuffix(e.name, "/"))).Some?
                          && q <= Walk([], Split(TrimSuffix(e.name, "/"))).value
  {
    hide *;
    WrittenExtractable(entries, bytes);
    forall e | e in entries && TrimSuffix(e.name, "/") != ""
      ensures var end := Walk([], Split(TrimSuffix(e.name, "/")));
              && end.Some? && end.value in t
              && t[end.value] == if e.folder then Folder else File(if bytes < TWO63 - 1 then e.content else "")
    {
      var i :| 0 <= i < |entries| && entries[i] == e;
      EntryIsThere(entries, i, bytes, t);
    }
    forall q | q in t
      ensures exists e :: e in entries && TrimSuffix(e.name, "/") != "" && Walk([], Split(TrimSuffix(e.name, "/"))).Some?
                          && q <= Walk([], Split(TrimSuffix(e.name, "/"))).value
    {
      PathHasEntry(entries, bytes, t, q);
    }
  }

  lemma PathHasEntry(entries: seq<ZipEntry>, bytes: int, t: Tree, q: Path)
    requires Extractable(entries, bytes) && IsTreeOf(AllWritten(entries, bytes), t) && q in t
    ensures exists e :: e in entries && TrimSuffix(e.name, "/") != "" && Walk([], Split(TrimSuffix(e.name, "/"))).Some?
                        && q <= Walk([], Split(TrimSuffix(e.name, "/"))).value
  {
    hide Walk, TrimSuffix, Split, SafeRelative, NoConflict, FileAt, Written, PathOf, Live, Acceptable, Total;
    var written := AllWritten(entries, bytes);
    assert Named(written, q);
    var i :| 0 <= i < |written| && Live(written[i]) && OnWay(q, PathOf(written[i]));
    EntryHasName(entries, i, bytes);
    assert entries[i] in entries;
  }

  /** An entry that was accepted has a name, and a location. */
  lemma EntryHasName(entries: seq<ZipEntry>, i: nat, bytes: int)
    requires i < |entries| && AllAcceptable(entries)
    ensures |AllWritten(entries, bytes)| == |entries| && PathOf(AllWritten(entries, bytes)[i]) == PathOf(entries[i])
    ensures Live(AllWritten(entries, bytes)[i]) <==> TrimSuffix(entries[i].name, "/") != ""
    ensures TrimSuffix(entries[i].name, "/") != "" ==>
              && Walk([], Split(TrimSuffix(entries[i].name, "/"))) == Some(PathOf(entries[i])) && PathOf(entries[i]) != []
  {
    WrittenOne(entries, i, bytes);
    ItIsLive(entries[i]);
    ItIsLive(AllWritten(entries, bytes)[i]);
    if TrimSuffix(entries[i].name, "/") != "" {
      SafePathIsTheWalk(entries[i]);
      PathIsPlain(entries[i]);
    }
  }

  lemma EntryIsThere(entries: seq<ZipEntry>, i: nat, bytes: int, t: Tree)
    requires 1 <= bytes < TWO63 && i < |entries| && TrimSuffix(entries[i].name, "/") != ""
    requires Extractable(entries, bytes) && Extractable(AllWritten(entries, bytes), bytes) && IsTreeOf(AllWritten(entries, bytes), t)
    requires forall e | e in entries :: |e.content| == e.declared
    ensures var e, end := entries[i], Walk([], Split(TrimSuffix(entries[i].name, "/")));
            && end.Some? && end.value in t
            && t[end.value] == if e.folder then Folder else File(if bytes < TWO63 - 1 then e.content else "")
  {
    hide Walk, TrimSuffix, Split, SafeRelative, Limited, Int64, Written, Total, Acceptable, Name, PathOf, Live;
    var written, e := AllWritten(entries, bytes), entries[i];
    EntryHasName(entries, i, bytes);
    WrittenOne(entries, i, bytes);
    ItIsLive(e);
    OnOwnWay(PathOf(e));
    assert Named(written, PathOf(e));
    if e.folder {
      FoldersAreNoFiles(written, i);
    } else {
      OneOfTotal(entries, i);
      TotalWithin(entries, bytes);
      LimitedContent(e.content, bytes);
      assert FileAt(written, PathOf(e), written[i].content);
    }
  }

  lemma TotalWithin(entries: seq<ZipEntry>, bytes: int)
    requires Extractable(entries, bytes)
    ensures Total(entries) <= bytes
  {
    hide Total, NoConflict, AllAcceptable;
  }

  lemma FoldersAreNoFiles(entries: seq<ZipEntry>, i: nat)
    requires i < |entries| && NoConflict(entries) && Live(entries[i]) && entries[i].folder && PathOf(entries[i]) != []
    ensures forall data :: !FileAt(entries, PathOf(entries[i]), data)
  {
    hide PathOf, Live;
    OnOwnWay(PathOf(entries[i]));
    hide OnWay;
  }

  /** What extraction needs, in terms of the names: every one of them is safe and no link or special file,
      no file is on the way to another entry, and the declared sizes fit. */
  lemma ExtractableMeans(entries: seq<ZipEntry>, bytes: int)
    ensures Extractable(entries, bytes) <==>
            && (forall e | e in entries && TrimSuffix(e.name, "/") != "" ::
                  SafeRelative(TrimSuffix(e.name, "/")).Ok? && !e.link && (e.special ==> e.folder))
            && (forall i, j | 0 <= i < |entries| && 0 <= j < |entries| && i != j && !entries[i].folder
                              && TrimSuffix(entries[i].name, "/") != "" && TrimSuffix(entries[j].name, "/") != "" ::
                  var one, other := Walk([], Split(TrimSuffix(entries[i].name, "/"))), Walk([], Split(TrimSuffix(entries[j].name, "/")));
                  one.Some? && other.Some? && !(one.value <= other.value))
            && Total(entries) <= bytes
  {
    AcceptableMeans(entries);
    TotalWithinOnly(entries, bytes);
    if AllAcceptable(entries) {
      NoConflictMeans(entries, bytes);
    }
    hide *;
  }

  lemma TotalWithinOnly(entries: seq<ZipEntry>, bytes: int)
    ensures Extractable(entries, bytes) <==> AllAcceptable(entries) && NoConflict(entries) && Total(entries) <= bytes
  {
    hide Total, NoConflict, AllAcceptable;
  }

  lemma AcceptableMeans(entries: seq<ZipEntry>)
    ensures AllAcceptable(entries) <==>
            forall e | e in entries && TrimSuffix(e.name, "/") != "" ::
              SafeRelative(TrimSuffix(e.name, "/")).Ok? && !e.link && (e.special ==> e.folder)
  {
    hide TrimSuffix, SafeRelative;
    if AllAcceptable(entries) {
      forall e | e in entries && TrimSuffix(e.name, "/") != ""
        ensures SafeRelative(TrimSuffix(e.name, "/")).Ok? && !e.link && (e.special ==> e.folder)
      {
        var i :| 0 <= i < |entries| && entries[i] == e;
        assert Live(entries[i]);
      }
    }
  }

  lemma NoConflictMeans(entries: seq<ZipEntry>, bytes: int)
    requires AllAcceptable(entries)
    ensures NoConflict(entries) <==>
            forall i, j | 0 <= i < |entries| && 0 <= j < |entries| && i != j && !entries[i].folder
                          && TrimSuffix(entries[i].name, "/") != "" && TrimSuffix(entries[j].name, "/") != "" ::
              var one, other := Walk([], Split(TrimSuffix(entries[i].name, "/"))), Walk([], Split(TrimSuffix(entries[j].name, "/")));
              one.Some? && other.Some? && !(one.value <= other.value)
  {
    hide Walk, TrimSuffix, Split, SafeRelative, Name, PathOf, Live, Acceptable;
    forall i | 0 <= i < |entries|
      ensures Live(entries[i]) <==> TrimSuffix(entries[i].name, "/") != ""
      ensures Live(entries[i]) ==>
                Walk([], Split(TrimSuffix(entries[i].name, "/"))) == Some(PathOf(entries[i])) && PathOf(entries[i]) != []
    {
      ItIsLive(entries[i]);
      EntryHasName(entries, i, bytes);
    }
    hide AllAcceptable;
  }

  /** The total is the sum of the declared sizes of the entries with a name. */
  lemma {:induction false} TotalIsTheSum(entries: seq<ZipEntry>, e: ZipEntry)
    ensures Total([]) == 0
    ensures Total(entries + [e]) == Total(entries) + if TrimSuffix(e.name, "/") != "" then e.declared else 0
  {
    assert (entries + [e])[..|entries|] == entries;
  }

  lemma LimitedContent(content: string, bytes: int)
    requires 1 <= bytes < TWO63 && |content| <= bytes
    ensures Limited(content, Int64(bytes + 1)) == if bytes < TWO63 - 1 then content else ""
  {
  }

  lemma OneOfTotal(entries: seq<ZipEntry>, i: nat)
    requires i < |entries| && Live(entries[i])
    ensures entries[i].declared <= Total(entries)
  {
    hide Live;
    assert entries[..i + 1][..i] == entries[..i];
    TotalGrows(entries, i + 1);
  }

  lemma Nothing(bytes: int)
    ensures Total([]) == 0 && IsTreeOf([], map[])
    ensures bytes >= 0 ==> Extractable([], bytes)
  {
  }

  /** The components of the cleaned name are the way to that location. */
  lemma SafePathIsTheWalk(e: ZipEntry)
    requires SafeRelative(Name(e)).Ok?
    ensures Split(SafeRelative(Name(e)).value) == PathOf(e) && Walk([], Split(Name(e))) == Some(PathOf(e))
  {
    SafeRelativeIsCanonical(Name(e), []);
    assert [] + Split(SafeRelative(Name(e)).value) == Split(SafeRelative(Name(e)).value);
  }

  lemma PathIsPlain(e: ZipEntry)
    requires SafeRelative(Name(e)).Ok?
    ensures PathOf(e) != [] && ValidTreePath(PathOf(e))
  {
    SafePathIsTheWalk(e);
    SafeRelativeIsCanonical(Name(e), []);
  }

  ghost predicate ValidTreePath(p: Path) {
    p != [] && Plain(p)
  }

  /** What holds of all entries holds of those before `i`, and of entry `i`. */
  lemma Prefixes(entries: seq<ZipEntry>, i: nat, bytes: int)
    requires i < |entries|
    ensures Live(entries[i]) <==> Name(entries[i]) != ""
    ensures Total(entries[..i + 1]) == Total(entries[..i]) + (if Live(entries[i]) then entries[i].declared else 0)
    ensures Extractable(entries, bytes) ==> Extractable(entries[..i + 1], bytes)
    ensures Extractable(entries[..i + 1], bytes) ==> Total(entries[..i + 1]) <= bytes
  {
    assert entries[..i + 1][..i] == entries[..i];
    TotalGrows(entries, i + 1);
    var shorter := entries[..i + 1];
    assert forall k | 0 <= k <= i :: shorter[k] == entries[k];
  }

  lemma Unacceptable(entries: seq<ZipEntry>, i: nat)
    requires i < |entries| && Name(entries[i]) != ""
    requires var e := entries[i]; SafeRelative(Name(e)).Err? || e.link || (e.special && !e.folder)
    ensures forall bytes :: !Extractable(entries, bytes)
  {
    assert Live(entries[i]) && !Acceptable(entries[i]);
  }

  /** Inside the budget both conversions are exact. */
  lemma CastsAreExact(declared: nat, left: int)
    requires 0 <= left < TWO63
    ensures Uint64(left) == left
    ensures declared <= left ==> Int64(declared) == declared
  {
  }

  /** One accepted entry that fits the budget. */
  lemma AcceptedEntry(entries: seq<ZipEntry>, i: nat, bytes: int, t: Tree)
    requires i < |entries| && Extractable(entries[..i], bytes) && IsTreeOf(entries[..i], t)
    requires var e := entries[i]; Name(e) != "" && SafeRelative(Name(e)).Ok? && !e.link && !(e.special && !e.folder)
    requires Total(entries[..i + 1]) <= bytes
    ensures PathOf(entries[i]) != []
    ensures entries[i].folder ==>
              var made := MkdirAll(t, PathOf(entries[i]));
              && (Extractable(entries[..i + 1], bytes) <==> made.Some?)
              && (made.Some? ==> IsTreeOf(entries[..i + 1], made.value))
    ensures !entries[i].folder ==>
              var p, made := PathOf(entries[i]), MkdirAll(t, PathOf(entries[i])[..|PathOf(entries[i])| - 1]);
              && (Extractable(entries[..i + 1], bytes) <==> made.Some? && p !in made.value)
              && (made.Some? && p !in made.value ==> IsTreeOf(entries[..i + 1], made.value[p := File(entries[i].content)]))
  {
    hide *;
    ItIsLive(entries[i]);
    PathIsPlain(entries[i]);
    OneMore(entries, i, bytes);
    if entries[i].folder {
      MadeFolder(entries, i, t);
    } else {
      MadeFile(entries, i, t);
    }
  }

  lemma ItIsLive(e: ZipEntry)
    ensures Live(e) <==> Name(e) != ""
    ensures Live(e) <==> TrimSuffix(e.name, "/") != ""
    ensures Acceptable(e) <==> SafeRelative(Name(e)).Ok? && !e.link && !(e.special && !e.folder)
  {
  }

  lemma OneMore(entries: seq<ZipEntry>, i: nat, bytes: int)
    requires i < |entries| && Acceptable(entries[i]) && Total(entries[..i + 1]) <= bytes
    ensures Extractable(entries[..i + 1], bytes) <==> AllAcceptable(entries[..i]) && NoConflict(entries[..i + 1])
    ensures Extractable(entries[..i], bytes) ==> AllAcceptable(entries[..i]) && NoConflict(entries[..i])
  {
    hide NoConflict, Live, Acceptable, Total;
    var shorter, longer := entries[..i], entries[..i + 1];
    assert forall k | 0 <= k < i :: longer[k] == shorter[k];
  }

  lemma {:induction false} TotalGrows(entries: seq<ZipEntry>, i: nat)
    requires i <= |entries|
    ensures Total(entries[..i]) <= Total(entries)
    decreases |entries|
  {
    if i < |entries| {
      TotalGrows(entries[..|entries| - 1], i);
      assert entries[..|entries| - 1][..i] == entries[..i];
    } else {
      assert entries[..i] == entries;
    }
  }

  lemma SkippedEntry(entries: seq<ZipEntry>, i: nat, bytes: int, t: Tree)
    requires i < |entries| && !Live(entries[i]) && Extractable(entries[..i], bytes) && IsTreeOf(entries[..i], t)
    ensures Extractable(entries[..i + 1], bytes) && IsTreeOf(entries[..i + 1], t)
  {
    hide Live, Acceptable, PathOf;
    var shorter, longer := entries[..i], entries[..i + 1];
    assert longer[..i] == shorter;
    assert forall k | 0 <= k < i :: longer[k] == shorter[k];
    forall q
      ensures Named(longer, q) <==> Named(shorter, q)
    {
    }
    forall q, data
      ensures FileAt(longer, q, data) <==> FileAt(shorter, q, data)
    {
    }
  }

  lemma WayToParent(p: Path)
    requires p != []
    ensures forall q :: OnWay(q, p) <==> OnWay(q, p[..|p| - 1]) || q == p
  {
    forall q
      ensures OnWay(q, p) <==> OnWay(q, p[..|p| - 1]) || q == p
    {
    }
  }

  /** `MkdirAll` fails exactly when a file is on the way, and adds exactly the missing folders. */
  lemma {:induction false} MkdirAllAdds(t: Tree, p: Path)
    ensures MkdirAll(t, p).None? <==> exists q :: OnWay(q, p) && q in t && t[q].File?
    ensures MkdirAll(t, p).Some? ==>
              var u := MkdirAll(t, p).value;
              && (forall q :: q in u <==> q in t || OnWay(q, p))
              && (forall q | q in u :: u[q] == if q in t then t[q] else Folder)
    decreases |p|
  {
    if p != [] {
      MkdirAllAdds(t, p[..|p| - 1]);
      WayToParent(p);
      hide OnWay;
    }
  }

  lemma NamedGrows(entries: seq<ZipEntry>, i: nat, q: Path)
    requires i < |entries| && Live(entries[i])
    ensures Named(entries[..i + 1], q) <==> Named(entries[..i], q) || OnWay(q, PathOf(entries[i]))
  {
    hide Live, PathOf;
    var shorter, longer := entries[..i], entries[..i + 1];
    assert forall k | 0 <= k < i :: longer[k] == shorter[k];
    assert longer[i] == entries[i];
  }

  lemma FileAtGrows(entries: seq<ZipEntry>, i: nat, q: Path, data: string)
    requires i < |entries| && Live(entries[i])
    ensures FileAt(entries[..i + 1], q, data) <==>
            FileAt(entries[..i], q, data) ||
            (!entries[i].folder && q == PathOf(entries[i]) && data == entries[i].content)
  {
    hide Live, PathOf;
    var shorter, longer := entries[..i], entries[..i + 1];
    assert forall k | 0 <= k < i :: longer[k] == shorter[k];
    assert longer[i] == entries[i];
  }

  /** Entry `i` conflicts with an earlier one exactly when a file is on its way, or, for a file,
      something is already there. */
  lemma ConflictsAreInTheTree(entries: seq<ZipEntry>, i: nat, t: Tree)
    requires i < |entries| && Live(entries[i]) && PathOf(entries[i]) != []
    requires NoConflict(entries[..i]) && IsTreeOf(entries[..i], t) && AllHavePaths(entries[..i])
    ensures var p := PathOf(entries[i]);
            NoConflict(entries[..i + 1]) <==>
            (forall q | OnWay(q, p) && q in t :: t[q].Folder?) && (!entries[i].folder ==> p !in t)
  {
    hide Live, PathOf, OnWay;
    var shorter, longer, p := entries[..i], entries[..i + 1], PathOf(entries[i]);
    assert forall k | 0 <= k < i :: longer[k] == shorter[k];
    assert longer[i] == entries[i];
    OnOwnWay(p);
    if (forall q | OnWay(q, p) && q in t :: t[q].Folder?) && (!entries[i].folder ==> p !in t) {
      forall k | 0 <= k < i && Live(longer[k])
        ensures !longer[k].folder ==> !OnWay(PathOf(longer[k]), p)
        ensures !longer[i].folder ==> !OnWay(p, PathOf(longer[k]))
      {
        var q := PathOf(shorter[k]);
        OnOwnWay(q);
        assert Named(shorter, q);
        assert OnWay(p, q) ==> Named(shorter, p);
        if !shorter[k].folder {
          assert FileAt(shorter, q, shorter[k].content);
        }
      }
    }
  }

  lemma OnOwnWay(p: Path)
    ensures p != [] ==> OnWay(p, p)
  {
  }

  ghost predicate AllHavePaths(entries: seq<ZipEntry>) {
    forall i | 0 <= i < |entries| && Live(entries[i]) :: PathOf(entries[i]) != []
  }

  lemma AcceptableHavePaths(entries: seq<ZipEntry>)
    requires AllAcceptable(entries)
    ensures AllHavePaths(entries)
  {
    forall i | 0 <= i < |entries| && Live(entries[i])
      ensures PathOf(entries[i]) != []
    {
      PathIsPlain(entries[i]);
    }
  }

  /** The tree of the entries, when folders are added that are not files. */
  lemma FoldersAdded(entries: seq<ZipEntry>, i: nat, t: Tree, p: Path)
    requires i < |entries| && Live(entries[i]) && AllHavePaths(entries[..i]) && IsTreeOf(entries[..i], t)
    requires MkdirAll(t, p).Some?
    ensures forall q :: q in MkdirAll(t, p).value <==> Named(entries[..i], q) || OnWay(q, p)
    ensures forall q, data | q in MkdirAll(t, p).value ::
              MkdirAll(t, p).value[q] == File(data) <==> FileAt(entries[..i], q, data)
  {
    hide Live, PathOf, FileAt, MkdirAll, OnWay, Named, AllHavePaths;
    MkdirAllAdds(t, p);
    var u := MkdirAll(t, p).value;
    forall q, data | q in u
      ensures u[q] == File(data) <==> FileAt(entries[..i], q, data)
    {
      FilesAreNamed(entries[..i], q, data);
    }
  }

  /** A folder entry: the directories are made, and the tree is that of one entry more, exactly when
      it conflicts with none before. */
  lemma MadeFolder(entries: seq<ZipEntry>, i: nat, t: Tree)
    requires i < |entries| && Live(entries[i]) && entries[i].folder && PathOf(entries[i]) != []
    requires AllAcceptable(entries[..i]) && NoConflict(entries[..i]) && IsTreeOf(entries[..i], t)
    ensures var made := MkdirAll(t, PathOf(entries[i]));
            && (NoConflict(entries[..i + 1]) <==> made.Some?)
            && (made.Some? ==> IsTreeOf(entries[..i + 1], made.value))
  {
    hide Live, PathOf, NoConflict, FileAt, MkdirAll, OnWay, Named, AllAcceptable, AllHavePaths;
    var p := PathOf(entries[i]);
    AcceptableHavePaths(entries[..i]);
    assert NoConflict(entries[..i + 1]) <==> MkdirAll(t, p).Some? by {
      ConflictsAreInTheTree(entries, i, t);
      MkdirAllAdds(t, p);
    }
    if MkdirAll(t, p).Some? {
      FoldersAdded(entries, i, t, p);
      EntriesGrow(entries, i);
    }
  }

  lemma EntriesGrow(entries: seq<ZipEntry>, i: nat)
    requires i < |entries| && Live(entries[i])
    ensures forall q :: Named(entries[..i + 1], q) <==> Named(entries[..i], q) || OnWay(q, PathOf(entries[i]))
    ensures forall q, data :: FileAt(entries[..i + 1], q, data) <==>
              FileAt(entries[..i], q, data) ||
              (!entries[i].folder && q == PathOf(entries[i]) && data == entries[i].content)
  {
    hide *;
    forall q
      ensures Named(entries[..i + 1], q) <==> Named(entries[..i], q) || OnWay(q, PathOf(entries[i]))
    {
      NamedGrows(entries, i, q);
    }
    forall q, data
      ensures FileAt(entries[..i + 1], q, data) <==>
              FileAt(entries[..i], q, data) ||
              (!entries[i].folder && q == PathOf(entries[i]) && data == entries[i].content)
    {
      FileAtGrows(entries, i, q, data);
    }
  }

  lemma FilesAreNamed(entries: seq<ZipEntry>, q: Path, data: string)
    requires AllHavePaths(entries)
    ensures FileAt(entries, q, data) ==> Named(entries, q)
  {
    if FileAt(entries, q, data) {
      OnOwnWay(q);
    }
  }

  lemma MadeFile(entries: seq<ZipEntry>, i: nat, t: Tree)
    requires i < |entries| && Live(entries[i]) && !entries[i].folder && PathOf(entries[i]) != []
    requires AllAcceptable(entries[..i]) && NoConflict(entries[..i]) && IsTreeOf(entries[..i], t)
    ensures var p, made := PathOf(entries[i]), MkdirAll(t, PathOf(entries[i])[..|PathOf(entries[i])| - 1]);
            && (NoConflict(entries[..i + 1]) <==> made.Some? && p !in made.value)
            && (made.Some? && p !in made.value ==> IsTreeOf(entries[..i + 1], made.value[p := File(entries[i].content)]))
  {
    hide Live, PathOf, NoConflict, FileAt, MkdirAll, OnWay, Named, AllAcceptable, AllHavePaths, IsTreeOf;
    var p := PathOf(entries[i]);
    AcceptableHavePaths(entries[..i]);
    var made := MkdirAll(t, p[..|p| - 1]);
    assert NoConflict(entries[..i + 1]) <==> made.Some? && p !in made.value by {
      FileConflicts(entries, i, t);
    }
    if made.Some? && p !in made.value {
      FileAdded(entries, i, t);
    }
  }

  lemma FileConflicts(entries: seq<ZipEntry>, i: nat, t: Tree)
    requires i < |entries| && Live(entries[i]) && !entries[i].folder && PathOf(entries[i]) != []
    requires AllHavePaths(entries[..i]) && NoConflict(entries[..i]) && IsTreeOf(entries[..i], t)
    ensures var p, made := PathOf(entries[i]), MkdirAll(t, PathOf(entries[i])[..|PathOf(entries[i])| - 1]);
            NoConflict(entries[..i + 1]) <==> made.Some? && p !in made.value
  {
    hide Live, PathOf, NoConflict, FileAt, MkdirAll, OnWay, Named, AllHavePaths, IsTreeOf;
    var p := PathOf(entries[i]);
    ConflictsAreInTheTree(entries, i, t);
    WayToParent(p);
    MkdirAllAdds(t, p[..|p| - 1]);
    OnOwnWay(p);
    BeyondTheParent(p);
  }

  lemma FileAdded(entries: seq<ZipEntry>, i: nat, t: Tree)
    requires i < |entries| && Live(entries[i]) && !entries[i].folder && PathOf(entries[i]) != []
    requires AllHavePaths(entries[..i]) && IsTreeOf(entries[..i], t)
    requires var p, made := PathOf(entries[i]), MkdirAll(t, PathOf(entries[i])[..|PathOf(entries[i])| - 1]);
             made.Some? && p !in made.value
    ensures var p, made := PathOf(entries[i]), MkdirAll(t, PathOf(entries[i])[..|PathOf(entries[i])| - 1]);
            IsTreeOf(entries[..i + 1], made.value[p := File(entries[i].content)])
  {
    hide Live, PathOf, FileAt, MkdirAll, OnWay, Named, AllHavePaths;
    var p := PathOf(entries[i]);
    var u := MkdirAll(t, p[..|p| - 1]).value;
    var v := u[p := File(entries[i].content)];
    FoldersAdded(entries, i, t, p[..|p| - 1]);
    WayToParent(p);
    EntriesGrow(entries, i);
    forall data
      ensures !FileAt(entries[..i], p, data)
    {
      FilesAreNamed(entries[..i], p, data);
    }
    forall q, data | q in v
      ensures v[q] == File(data) <==> FileAt(entries[..i + 1], q, data)
    {
      if q == p {
        assert !FileAt(entries[..i], q, data);
        assert FileAt(entries[..i + 1], q, data) <==> data == entries[i].content;
      } else {
        assert q in u && v[q] == u[q];
        assert u[q] == File(data) <==> FileAt(entries[..i], q, data);
      }
    }
  }

  lemma BeyondTheParent(p: Path)
    requires p != []
    ensures !OnWay(p, p[..|p| - 1])
  {
  }
}

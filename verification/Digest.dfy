/** The content digest of a release (service/internal/publishing/publisher.go): the manifest entries
    sorted by path, printed one per line, and hashed. */
module Digest {
  import opened Text

  datatype FileEntry = FileEntry(path: string, sha: string, size: nat)

  /** Go's `<` on strings. */
  predicate Less(a: string, b: string) {
    b != "" && (a == "" || a[0] < b[0] || (a[0] == b[0] && Less(a[1..], b[1..])))
  }

  lemma {:induction false} LessIsTotal(a: string, b: string)
    ensures Less(a, b) || a == b || Less(b, a)
    ensures Less(a, b) ==> a != b && !Less(b, a)
  {
    if a != "" && b != "" {
      LessIsTotal(a[1..], b[1..]);
      assert a == [a[0]] + a[1..] && b == [b[0]] + b[1..];
    }
  }

  lemma {:induction false} LessIsTransitive(a: string, b: string, c: string)
    requires Less(a, b) && Less(b, c)
    ensures Less(a, c)
  {
    if a != "" && a[0] == b[0] && b[0] == c[0] {
      LessIsTransitive(a[1..], b[1..], c[1..]);
    }
  }

  /** The order of the paths: at the first difference the smaller byte, or the shorter path. */
  lemma {:induction false} LessIsLexicographic(a: string, b: string)
    ensures Less(a, b) <==>
            exists k | 0 <= k <= |a| && k < |b| :: a[..k] == b[..k] && (k == |a| || a[k] < b[k])
  {
    if a == "" || b == "" || a[0] != b[0] {
      if Less(a, b) {
        assert a[..0] == b[..0];
      }
      forall k | 0 <= k <= |a| && k < |b| && a[..k] == b[..k] && (k == |a| || a[k] < b[k])
        ensures Less(a, b)
      {
        if k > 0 {
          assert a[..k][0] == b[..k][0];
        }
      }
    } else {
      LessIsLexicographic(a[1..], b[1..]);
      if Less(a, b) {
        var k :| 0 <= k <= |a[1..]| && k < |b[1..]| && a[1..][..k] == b[1..][..k] && (k == |a[1..]| || a[1..][k] < b[1..][k]);
        assert a[..k + 1] == [a[0]] + a[1..][..k] && b[..k + 1] == [b[0]] + b[1..][..k];
      }
      forall k | 0 <= k <= |a| && k < |b| && a[..k] == b[..k] && (k == |a| || a[k] < b[k])
        ensures Less(a, b)
      {
        assert k > 0;
        assert a[1..][..k - 1] == a[..k][1..] && b[1..][..k - 1] == b[..k][1..];
      }
    }
  }

  ghost predicate Sorted(s: seq<FileEntry>) {
    forall i, j | 0 <= i < j < |s| :: Less(s[i].path, s[j].path)
  }

  ghost predicate UniquePaths(s: seq<FileEntry>) {
    forall i, j | 0 <= i < j < |s| :: s[i].path != s[j].path
  }

  function Insert(e: FileEntry, s: seq<FileEntry>): seq<FileEntry> {
    if s == [] || Less(e.path, s[0].path) then [e] + s else [s[0]] + Insert(e, s[1..])
  }

  /** The entries in path order (`sort.Slice`). */
  function Sort(s: seq<FileEntry>): seq<FileEntry> {
    if s == [] then [] else Insert(s[0], Sort(s[1..]))
  }

  ghost function Elements(s: seq<FileEntry>): set<FileEntry> {
    set e | e in s
  }

  lemma {:induction false} InsertKeeps(e: FileEntry, s: seq<FileEntry>)
    ensures |Insert(e, s)| == |s| + 1
    ensures forall x :: x in Insert(e, s) <==> x == e || x in s
  {
    if s != [] && !Less(e.path, s[0].path) {
      InsertKeeps(e, s[1..]);
      assert s == [s[0]] + s[1..];
    }
  }

  lemma {:induction false} InsertSorts(e: FileEntry, s: seq<FileEntry>)
    requires Sorted(s) && forall x | x in s :: x.path != e.path
    ensures Sorted(Insert(e, s))
  {
    if s == [] {
    } else if Less(e.path, s[0].path) {
      forall k | 0 <= k < |s|
        ensures Less(e.path, s[k].path)
      {
        if k > 0 {
          LessIsTransitive(e.path, s[0].path, s[k].path);
        }
      }
    } else {
      InsertSorts(e, s[1..]);
      InsertKeeps(e, s[1..]);
      LessIsTotal(e.path, s[0].path);
      var r := Insert(e, s[1..]);
      assert s[0] in s;
      forall k | 0 <= k < |r|
        ensures Less(s[0].path, r[k].path)
      {
        assert r[k] in r;
      }
    }
  }

  lemma {:induction false} SortSorts(s: seq<FileEntry>)
    requires UniquePaths(s)
    ensures Sorted(Sort(s)) && |Sort(s)| == |s| && Elements(Sort(s)) == Elements(s)
  {
    if s != [] {
      var rest := s[1..];
      SortSorts(rest);
      InsertKeeps(s[0], Sort(rest));
      forall x | x in Sort(rest)
        ensures x.path != s[0].path
      {
        assert x in Elements(rest);
        var k :| 0 <= k < |rest| && rest[k] == x;
        assert s[k + 1] == x;
      }
      InsertSorts(s[0], Sort(rest));
      forall x
        ensures x in Elements(Sort(s)) <==> x in Elements(s)
      {
        assert x in Elements(Sort(rest)) <==> x in Elements(rest);
        assert x in s <==> x == s[0] || x in rest;
      }
    }
  }

  lemma SortedHeads(a: seq<FileEntry>, b: seq<FileEntry>)
    requires a != [] && b != [] && Sorted(a) && Sorted(b) && Elements(a) == Elements(b)
    ensures a[0] == b[0]
  {
    assert a[0] in Elements(a) && b[0] in Elements(b);
    var i :| 0 <= i < |b| && b[i] == a[0];
    var j :| 0 <= j < |a| && a[j] == b[0];
    assert i == 0 || j == 0 by {
      LessIsTotal(a[0].path, b[0].path);
    }
  }

  lemma TailElements(a: seq<FileEntry>)
    requires a != [] && Sorted(a)
    ensures Elements(a[1..]) == Elements(a) - {a[0]}
  {
    forall x | x in a[1..]
      ensures x != a[0]
    {
      var k :| 0 <= k < |a[1..]| && a[1..][k] == x;
      LessIsTotal(a[0].path, a[k + 1].path);
    }
    assert a == [a[0]] + a[1..];
  }

  lemma HeadIsElement(s: seq<FileEntry>)
    ensures s != [] ==> s[0] in Elements(s)
  {
  }

  /** There is one sorted list of a given set of entries. */
  lemma {:induction false} SortedIsUnique(a: seq<FileEntry>, b: seq<FileEntry>)
    requires Sorted(a) && Sorted(b) && Elements(a) == Elements(b)
    ensures a == b
  {
    if a == [] {
      HeadIsElement(b);
    } else {
      HeadIsElement(a);
      SortedHeads(a, b);
      TailElements(a);
      TailElements(b);
      SortedIsUnique(a[1..], b[1..]);
      assert a == [a[0]] + a[1..] && b == [b[0]] + b[1..];
    }
  }

  function Line(e: FileEntry): string {
    e.path + "\0" + (e.sha + "\0" + (Decimal(e.size) + "\n"))
  }

  function Print(files: seq<FileEntry>): string {
    if files == [] then "" else Line(files[0]) + Print(files[1..])
  }

  /** What `Publish` hashes. */
  function DigestInput(files: seq<FileEntry>): string {
    Print(Sort(files))
  }

  /** The order in which the walk met the files does not matter. */
  lemma DigestIgnoresWalkOrder(a: seq<FileEntry>, b: seq<FileEntry>)
    requires UniquePaths(a) && UniquePaths(b)
    requires Elements(a) == Elements(b)
    ensures DigestInput(a) == DigestInput(b)
  {
    SortSorts(a);
    SortSorts(b);
    SortedIsUnique(Sort(a), Sort(b));
  }

  /** The text before and after the first `c`. */
  function Cut(s: string, c: char): (r: Option<(string, string)>)
    ensures r.Some? ==> |r.value.1| < |s|
  {
    if s == "" then None
    else if s[0] == c then Some(("", s[1..]))
    else match Cut(s[1..], c)
      case None => None
      case Some(r) => Some(([s[0]] + r.0, r.1))
  }

  lemma {:induction false} CutFirst(a: string, c: char, rest: string)
    requires c !in a
    ensures Cut(a + [c] + rest, c) == Some((a, rest))
  {
    var s := a + [c] + rest;
    if a == "" {
      assert s[0] == c && s[1..] == rest;
    } else {
      CutFirst(a[1..], c, rest);
      assert s[0] == a[0] && s[1..] == a[1..] + [c] + rest;
      assert a == [a[0]] + a[1..] && a[0] in a;
    }
  }

  /** A reader of one line: the entry, and what follows. */
  function ParseLine(s: string): (r: Option<(FileEntry, string)>)
    ensures r.Some? ==> |r.value.1| < |s|
  {
    match Cut(s, '\0')
    case None => None
    case Some(p) => match Cut(p.1, '\0')
      case None => None
      case Some(h) => match Cut(h.1, '\n')
        case None => None
        case Some(n) =>
          if AllDigits(n.0) then Some((FileEntry(p.0, h.0, DecimalValue(n.0)), n.1)) else None
  }

  /** A reader of the digest input. */
  function Parse(s: string): Option<seq<FileEntry>>
    decreases |s|
  {
    if s == "" then Some([])
    else match ParseLine(s)
      case None => None
      case Some(line) => match Parse(line.1)
        case None => None
        case Some(rest) => Some([line.0] + rest)
  }

  predicate NulFree(files: seq<FileEntry>) {
    forall e | e in files :: '\0' !in e.path && '\0' !in e.sha
  }

  lemma LineReadBack(e: FileEntry, rest: string)
    requires '\0' !in e.path && '\0' !in e.sha
    ensures ParseLine(Line(e) + rest) == Some((e, rest))
  {
    var size := Decimal(e.size) + "\n" + rest;
    var sha := e.sha + "\0" + size;
    assert Line(e) + rest == e.path + "\0" + sha;
    CutFirst(e.path, '\0', sha);
    CutFirst(e.sha, '\0', size);
    CutFirst(Decimal(e.size), '\n', rest);
    ValueOfDecimal(e.size);
  }

  lemma {:induction false} ParsePrinted(files: seq<FileEntry>)
    requires NulFree(files)
    ensures Parse(Print(files)) == Some(files)
  {
    if files != [] {
      var e := files[0];
      assert e in files;
      LineReadBack(e, Print(files[1..]));
      ParsePrinted(files[1..]);
      assert [e] + files[1..] == files;
    }
  }

  /** Two digest inputs are equal exactly when the sets of entries are. */
  lemma DigestInputDecidesContent(a: seq<FileEntry>, b: seq<FileEntry>)
    requires UniquePaths(a) && UniquePaths(b) && NulFree(a) && NulFree(b)
    ensures DigestInput(a) == DigestInput(b) <==> Elements(a) == Elements(b)
  {
    if Elements(a) == Elements(b) {
      DigestIgnoresWalkOrder(a, b);
    }
    SortSorts(a);
    SortSorts(b);
    if DigestInput(a) == DigestInput(b) {
      assert forall e | e in Sort(a) :: e in Elements(a);
      assert forall e | e in Sort(b) :: e in Elements(b);
      ParsePrinted(Sort(a));
      ParsePrinted(Sort(b));
    }
  }

  /** Under a hash without collisions, equal digests mean equal file lists. */
  lemma EqualDigestsEqualFiles(a: seq<FileEntry>, b: seq<FileEntry>, sha: string -> string)
    requires forall x, y :: sha(x) == sha(y) ==> x == y
    requires forall i, j | 0 <= i < j < |a| :: a[i].path != a[j].path
    requires forall i, j | 0 <= i < j < |b| :: b[i].path != b[j].path
    requires forall e | e in a + b :: '\0' !in e.path && '\0' !in e.sha
    ensures sha(DigestInput(a)) == sha(DigestInput(b)) <==> Elements(a) == Elements(b)
  {
    assert NulFree(a) && NulFree(b);
    DigestInputDecidesContent(a, b);
  }

  lemma SortOfTwo(a: FileEntry, b: FileEntry)
    requires Less(a.path, b.path)
    ensures Sort([b, a]) == [a, b]
  {
    LessIsTotal(a.path, b.path);
    hide Less;
    assert [b, a][1..] == [a] && [a][1..] == [] && Sort([a]) == [a];
    assert Insert(b, [a]) == [a] + Insert(b, [a][1..]) == [a, b];
  }

  /** The hashed text of two files, given in the wrong order. */
  lemma DigestInputOfTwo()
    ensures DigestInput([FileEntry("b", "y", 12), FileEntry("a", "x", 0)]) == "a\0x\00\nb\0y\012\n"
  {
    var a, b := FileEntry("a", "x", 0), FileEntry("b", "y", 12);
    SortOfTwo(a, b);
    hide Sort, Less;
    assert [a, b][1..] == [b] && [b][1..] == [];
    DecimalDigits(12);
    assert Decimal(12) == "12" && Decimal(0) == "0";
  }
}

/** The stored-entry ZIP writer (extension/app/PackwizClientExportController.php, `buildZip`) against
    a reader written from PKWARE APPNOTE.TXT sections 4.3.7, 4.3.12 and 4.3.16. */
module Zip {
  import opened Text

  type byte = x: int | 0 <= x < 256

  type bytes = seq<byte>

  datatype Entry = Entry(name: bytes, data: bytes)

  const TWO16 := 0x1_0000
  const TWO32 := 0x1_0000_0000

  const LOCAL := 0x04034b50
  const CENTRAL := 0x02014b50
  const END := 0x06054b50

  /** The `width` low bytes of `n`, little-endian; high bits are dropped. */
  function Pack(n: nat, width: nat): (b: bytes)
    ensures |b| == width
  {
    if width == 0 then [] else [n % 256] + Pack(n / 256, width - 1)
  }

  /** `pack('v', n)` and `pack('V', n)`, followed by what comes next. */
  function Put16(n: nat, rest: bytes): (b: bytes)
    ensures |b| == 2 + |rest|
  {
    Pack(n, 2) + rest
  }

  function Put32(n: nat, rest: bytes): (b: bytes)
    ensures |b| == 4 + |rest|
  {
    Pack(n, 4) + rest
  }

  function Slashed(name: bytes): (r: bytes)
    ensures |r| == |name|
  {
    seq(|name|, i requires 0 <= i < |name| => if name[i] == 0x5c then 0x2f else name[i])
  }

  function Normalised(files: seq<Entry>): (r: seq<Entry>)
    ensures |r| == |files|
    ensures forall i | 0 <= i < |files| :: r[i] == Entry(Slashed(files[i].name), files[i].data)
  {
    if files == [] then [] else [Entry(Slashed(files[0].name), files[0].data)] + Normalised(files[1..])
  }

  /** Checksum, both sizes and the name length, which the two headers share. */
  function Sizes(e: Entry, crc: bytes -> nat, rest: bytes): (b: bytes)
    ensures |b| == 14 + |rest|
  {
    Put32(crc(e.data), Put32(|e.data|, Put32(|e.data|, Put16(|e.name|, rest))))
  }

  function Local(e: Entry, crc: bytes -> nat): (b: bytes)
    ensures |b| == 30 + |e.name| + |e.data|
  {
    Put32(LOCAL, Put16(20, Put16(0, Put16(0, Put16(0, Put16(0,
      Sizes(e, crc, Put16(0, Slashed(e.name) + e.data))))))))
  }

  function Central(e: Entry, offset: nat, crc: bytes -> nat): (b: bytes)
    ensures |b| == 46 + |e.name|
  {
    Put32(CENTRAL, Put16(20, Put16(20, Put16(0, Put16(0, Put16(0, Put16(0,
      Sizes(e, crc, Put16(0, Put16(0, Put16(0, Put16(0, Put32(0, Put32(offset, Slashed(e.name)))))))))))))))
  }

  function End(count: nat, size: nat, offset: nat): (b: bytes)
    ensures |b| == 22
  {
    Put32(END, Put16(0, Put16(0, Put16(count, Put16(count, Put32(size, Put32(offset, Put16(0, []))))))))
  }

  function Body(files: seq<Entry>, crc: bytes -> nat): bytes {
    if files == [] then [] else Local(files[0], crc) + Body(files[1..], crc)
  }

  function Directory(files: seq<Entry>, offset: nat, crc: bytes -> nat): bytes {
    if files == [] then []
    else Central(files[0], offset, crc) + Directory(files[1..], offset + |Local(files[0], crc)|, crc)
  }

  function Archive(files: seq<Entry>, crc: bytes -> nat): bytes {
    var body, directory := Body(files, crc), Directory(files, 0, crc);
    body + directory + End(|files|, |directory|, |body|)
  }

  /** `buildZip`. */
  method BuildZip(files: seq<Entry>, crc: bytes -> nat) returns (zip: bytes)
    ensures zip == Archive(files, crc)
  {
    hide Local, Central, End;
    var body: bytes, directory: bytes, offset, count := [], [], 0, 0;
    assert files[0..] == files;
    while count < |files|
      invariant 0 <= count <= |files| && offset == |body|
      invariant body + Body(files[count..], crc) == Body(files, crc)
      invariant directory + Directory(files[count..], offset, crc) == Directory(files, 0, crc)
    {
      var local := Local(files[count], crc);
      var central := Central(files[count], offset, crc);
      assert files[count..][1..] == files[count + 1..];
      Regroup(body, local, Body(files[count + 1..], crc));
      Regroup(directory, central, Directory(files[count + 1..], offset + |local|, crc));
      directory := directory + central;
      body := body + local;
      offset := offset + |local|;
      count := count + 1;
    }
    zip := body + directory + End(count, |directory|, offset);
  }

  lemma Regroup(a: bytes, b: bytes, c: bytes)
    ensures a + (b + c) == a + b + c
  {
  }

  // ---- the reader ----

  /** The number a run of little-endian bytes stands for. */
  function Value(b: bytes): nat {
    if b == [] then 0 else b[0] as int + 256 * Value(b[1..])
  }

  function Get16(z: bytes, i: nat): nat
    requires i + 2 <= |z|
  {
    Value(z[i..i + 2])
  }

  function Get32(z: bytes, i: nat): nat
    requires i + 4 <= |z|
  {
    Value(z[i..i + 4])
  }

  /** A stored entry whose local header is at `at`, and where its data ends. */
  function ReadLocal(z: bytes, at: nat, crc: bytes -> nat): Option<(Entry, nat)> {
    if at + 30 > |z| || Get32(z, at) != LOCAL then None
    else if Get16(z, at + 6) != 0 || Get16(z, at + 8) != 0 then None
    else
      var size := Get32(z, at + 18);
      var name := at + 30;
      var data := name + Get16(z, at + 26) + Get16(z, at + 28);
      if Get32(z, at + 22) != size || data + size > |z| then None
      else
        var e := Entry(z[name..name + Get16(z, at + 26)], z[data..data + size]);
        if Get32(z, at + 14) != crc(e.data) % TWO32 then None else Some((e, data + size))
  }

  /** `n` directory records at `at`, which must end at `end`; every one is checked against the local
      header it points to. */
  function ReadDirectory(z: bytes, at: nat, n: nat, end: nat, crc: bytes -> nat): Option<seq<Entry>>
    requires end <= |z|
    decreases n
  {
    if n == 0 then (if at == end then Some([]) else None)
    else if at + 46 > end || Get32(z, at) != CENTRAL then None
    else
      var name := at + 46;
      var next := name + Get16(z, at + 28) + Get16(z, at + 30) + Get16(z, at + 32);
      if next > end then None
      else match ReadLocal(z, Get32(z, at + 42), crc)
        case None => None
        case Some(found) =>
          if z[name..name + Get16(z, at + 28)] != found.0.name || Get32(z, at + 24) != |found.0.data| then None
          else match ReadDirectory(z, next, n - 1, end, crc)
            case None => None
            case Some(rest) => Some([found.0] + rest)
  }

  /** The last end record at or before `p` whose comment reaches the end of the file. */
  function FindEnd(z: bytes, p: nat): Option<nat> {
    if p + 22 <= |z| && Get32(z, p) == END && Get16(z, p + 20) == |z| - p - 22 then Some(p)
    else if p == 0 then None
    else FindEnd(z, p - 1)
  }

  function ReadZip(z: bytes, crc: bytes -> nat): Option<seq<Entry>> {
    match FindEnd(z, |z|)
    case None => None
    case Some(e) =>
      if e + 22 > |z| || Get16(z, e + 8) != Get16(z, e + 10) then None
      else if Get32(z, e + 16) + Get32(z, e + 12) != e then None
      else ReadDirectory(z, Get32(z, e + 16), Get16(z, e + 10), e, crc)
  }

  /** Local headers one after the other, without the directory. */
  function Scan(z: bytes, at: nat, crc: bytes -> nat): (seq<Entry>, nat)
    decreases |z| - at
  {
    match ReadLocal(z, at, crc)
    case None => ([], at)
    case Some(found) => var rest := Scan(z, found.1, crc); ([found.0] + rest.0, rest.1)
  }

  // ---- the round trip ----

  predicate At(z: bytes, i: nat, b: bytes) {
    i + |b| <= |z| && z[i..i + |b|] == b
  }

  lemma AtSplit(z: bytes, i: nat, a: bytes, b: bytes)
    requires At(z, i, a + b)
    ensures At(z, i, a) && At(z, i + |a|, b)
  {
    assert z[i..i + |a|] == (a + b)[..|a|] == a;
    assert z[i + |a|..i + |a| + |b|] == (a + b)[|a|..] == b;
  }

  lemma ValueOfPack16(n: nat)
    ensures Value(Pack(n, 2)) == n % TWO16
  {
    assert Pack(n / 256, 1) == [n / 256 % 256];
    assert Value([n / 256 % 256]) == n / 256 % 256;
    assert Pack(n, 2)[1..] == Pack(n / 256, 1);
  }

  lemma ValueOfPack32(n: nat)
    ensures Value(Pack(n, 4)) == n % TWO32
  {
    var b1, b2 := n / 256, n / 256 / 256;
    assert Value(Pack(b1, 3)) == b1 % 256 + 256 * (b2 % TWO16) by {
      assert Pack(b1, 3)[1..] == Pack(b2, 2);
      ValueOfPack16(b2);
    }
    assert Pack(n, 4)[1..] == Pack(b1, 3);
    LowBytes(n);
  }

  lemma LowBytes(n: nat)
    ensures n % 256 + 256 * (n / 256 % 256 + 256 * (n / 256 / 256 % TWO16)) == n % TWO32
  {
  }

  /** A packed field is read back modulo its width, and the cursor moves behind it. */
  lemma Take16(z: bytes, i: nat, n: nat, rest: bytes)
    requires At(z, i, Put16(n, rest))
    ensures At(z, i + 2, rest) && Get16(z, i) == n % TWO16
  {
    AtSplit(z, i, Pack(n, 2), rest);
    ValueOfPack16(n);
  }

  lemma Take32(z: bytes, i: nat, n: nat, rest: bytes)
    requires At(z, i, Put32(n, rest))
    ensures At(z, i + 4, rest) && Get32(z, i) == n % TWO32
  {
    AtSplit(z, i, Pack(n, 4), rest);
    ValueOfPack32(n);
  }

  lemma TakeSizes(z: bytes, i: nat, e: Entry, crc: bytes -> nat, rest: bytes)
    requires At(z, i, Sizes(e, crc, rest))
    ensures Get32(z, i) == crc(e.data) % TWO32 && Get32(z, i + 4) == Get32(z, i + 8) == |e.data| % TWO32
    ensures Get16(z, i + 12) == |e.name| % TWO16 && At(z, i + 14, rest)
  {
    hide At, Put16, Put32, Get16, Get32;
    var c := Put16(|e.name|, rest);
    var b := Put32(|e.data|, c);
    Take32(z, i, crc(e.data), Put32(|e.data|, b));
    Take32(z, i + 4, |e.data|, b);
    Take32(z, i + 8, |e.data|, c);
    Take16(z, i + 12, |e.name|, rest);
  }

  lemma LocalFields(z: bytes, at: nat, e: Entry, crc: bytes -> nat)
    requires At(z, at, Local(e, crc))
    ensures Get32(z, at) == LOCAL && Get16(z, at + 6) == Get16(z, at + 8) == Get16(z, at + 28) == 0
    ensures Get32(z, at + 14) == crc(e.data) % TWO32
    ensures Get32(z, at + 18) == Get32(z, at + 22) == |e.data| % TWO32
    ensures Get16(z, at + 26) == |e.name| % TWO16 && At(z, at + 30, Slashed(e.name) + e.data)
  {
    hide At, Put16, Put32, Sizes, Get16, Get32;
    var tail := Put16(0, Slashed(e.name) + e.data);
    var f := Sizes(e, crc, tail);
    var d := Put16(0, Put16(0, f));
    var c := Put16(0, Put16(0, d));
    Take32(z, at, LOCAL, Put16(20, c));
    Take16(z, at + 4, 20, c);
    Take16(z, at + 6, 0, Put16(0, d));
    Take16(z, at + 8, 0, d);
    Take16(z, at + 10, 0, Put16(0, f));
    Take16(z, at + 12, 0, f);
    TakeSizes(z, at + 14, e, crc, tail);
    Take16(z, at + 28, 0, Slashed(e.name) + e.data);
  }

  lemma CentralFields(z: bytes, at: nat, e: Entry, offset: nat, crc: bytes -> nat)
    requires At(z, at, Central(e, offset, crc))
    ensures Get32(z, at) == CENTRAL && Get32(z, at + 24) == |e.data| % TWO32
    ensures Get16(z, at + 28) == |e.name| % TWO16 && Get16(z, at + 30) == Get16(z, at + 32) == 0
    ensures Get32(z, at + 42) == offset % TWO32 && At(z, at + 46, Slashed(e.name))
  {
    hide At, Put16, Put32, Sizes, Get16, Get32;
    var h := Put32(0, Put32(offset, Slashed(e.name)));
    var g := Put16(0, Put16(0, h));
    var tail := Put16(0, Put16(0, g));
    var f := Sizes(e, crc, tail);
    var d := Put16(0, Put16(0, f));
    var c := Put16(0, Put16(0, d));
    Take32(z, at, CENTRAL, Put16(20, Put16(20, c)));
    Take16(z, at + 4, 20, Put16(20, c));
    Take16(z, at + 6, 20, c);
    Take16(z, at + 8, 0, Put16(0, d));
    Take16(z, at + 10, 0, d);
    Take16(z, at + 12, 0, Put16(0, f));
    Take16(z, at + 14, 0, f);
    TakeSizes(z, at + 16, e, crc, tail);
    Take16(z, at + 30, 0, Put16(0, g));
    Take16(z, at + 32, 0, g);
    Take16(z, at + 34, 0, Put16(0, h));
    Take16(z, at + 36, 0, h);
    Take32(z, at + 38, 0, Put32(offset, Slashed(e.name)));
    Take32(z, at + 42, offset, Slashed(e.name));
  }

  lemma EndFields(z: bytes, p: nat, count: nat, size: nat, offset: nat)
    requires At(z, p, End(count, size, offset))
    ensures Get32(z, p) == END && Get16(z, p + 8) == Get16(z, p + 10) == count % TWO16
    ensures Get32(z, p + 12) == size % TWO32 && Get32(z, p + 16) == offset % TWO32 && Get16(z, p + 20) == 0
  {
    hide At, Put16, Put32, Get16, Get32;
    var d := Put32(offset, Put16(0, []));
    var c := Put32(size, d);
    var b := Put16(count, Put16(count, c));
    Take32(z, p, END, Put16(0, Put16(0, b)));
    Take16(z, p + 4, 0, Put16(0, b));
    Take16(z, p + 6, 0, b);
    Take16(z, p + 8, count, Put16(count, c));
    Take16(z, p + 10, count, c);
    Take32(z, p + 12, size, d);
    Take32(z, p + 16, offset, Put16(0, []));
    Take16(z, p + 20, 0, []);
  }

  /** A local record is read back when its lengths fit their fields. */
  lemma LocalReadBack(z: bytes, at: nat, e: Entry, crc: bytes -> nat)
    requires At(z, at, Local(e, crc)) && |e.name| < TWO16 && |e.data| < TWO32
    ensures ReadLocal(z, at, crc) == Some((Entry(Slashed(e.name), e.data), at + |Local(e, crc)|))
  {
    hide Local, Get16, Get32, At;
    LocalFields(z, at, e, crc);
    NameIsThere(z, at + 30, Slashed(e.name) + e.data);
    AtSplit(z, at + 30, Slashed(e.name), e.data);
    NameIsThere(z, at + 30, Slashed(e.name));
    NameIsThere(z, at + 30 + |e.name|, e.data);
  }

  ghost predicate EntryFits(e: Entry) {
    |e.name| < TWO16 && |e.data| < TWO32
  }

  /** The limits of the classic format. */
  ghost predicate Fits(files: seq<Entry>, crc: bytes -> nat) {
    && |files| < TWO16 && (forall e | e in files :: EntryFits(e))
    && |Body(files, crc)| < TWO32 && |Directory(files, 0, crc)| < TWO32
  }

  lemma {:induction false} DirectoryReadBack(z: bytes, at: nat, files: seq<Entry>, offset: nat, end: nat, crc: bytes -> nat)
    requires At(z, at, Directory(files, offset, crc)) && At(z, offset, Body(files, crc))
    requires end == at + |Directory(files, offset, crc)| && offset + |Body(files, crc)| < TWO32
    requires forall e | e in files :: EntryFits(e)
    ensures ReadDirectory(z, at, |files|, end, crc) == Some(Normalised(files))
    decreases |files|
  {
    hide At, Local, Central, ReadLocal, Get16, Get32;
    if files != [] {
      var e, rest := files[0], files[1..];
      assert EntryFits(e);
      var local, central := Local(e, crc), Central(e, offset, crc);
      AtSplit(z, at, central, Directory(rest, offset + |local|, crc));
      AtSplit(z, offset, local, Body(rest, crc));
      CentralFields(z, at, e, offset, crc);
      LocalReadBack(z, offset, e, crc);
      DirectoryReadBack(z, at + |central|, rest, offset + |local|, end, crc);
      NameIsThere(z, at + 46, Slashed(e.name));
    }
  }

  lemma NameIsThere(z: bytes, i: nat, name: bytes)
    requires At(z, i, name)
    ensures i + |name| <= |z| && z[i..i + |name|] == name
  {
  }

  lemma EndFound(z: bytes, before: bytes, count: nat, size: nat, offset: nat)
    requires z == before + End(count, size, offset)
    ensures FindEnd(z, |z|) == Some(|before|)
    ensures Get16(z, |before| + 8) == Get16(z, |before| + 10) == count % TWO16
    ensures Get32(z, |before| + 12) == size % TWO32 && Get32(z, |before| + 16) == offset % TWO32
  {
    hide End, Get16, Get32;
    assert At(z, |before|, End(count, size, offset));
    EndFields(z, |before|, count, size, offset);
    SkipTail(z, |z|, |before|);
  }

  /** No end record can start in the last 21 bytes. */
  lemma {:induction false} SkipTail(z: bytes, from: nat, p: nat)
    requires p + 22 == |z| && p <= from
    ensures FindEnd(z, from) == FindEnd(z, p)
    decreases from
  {
    if from > p {
      SkipTail(z, from - 1, p);
    }
  }

  lemma LocalIsBounded(z: bytes, at: nat, crc: bytes -> nat)
    requires ReadLocal(z, at, crc).Some?
    ensures EntryFits(ReadLocal(z, at, crc).value.0)
  {
    var size := z[at + 18..at + 22];
    assert Value(size) < TWO32 by {
      assert Value(size[1..]) < 0x100_0000 by {
        assert Value(size[1..][1..]) < TWO16 by {
          assert Value(size[1..][1..][1..]) < 256;
        }
      }
    }
    assert Value(z[at + 26..at + 28][1..]) < 256;
  }

  lemma {:induction false} ReadEntriesAreBounded(z: bytes, at: nat, n: nat, end: nat, crc: bytes -> nat)
    requires end <= |z| && ReadDirectory(z, at, n, end, crc).Some?
    ensures |ReadDirectory(z, at, n, end, crc).value| == n
    ensures forall e | e in ReadDirectory(z, at, n, end, crc).value :: EntryFits(e)
    decreases n
  {
    hide ReadLocal, Get16, Get32, EntryFits;
    if n != 0 {
      LocalIsBounded(z, Get32(z, at + 42), crc);
      var next := at + 46 + Get16(z, at + 28) + Get16(z, at + 30) + Get16(z, at + 32);
      ReadEntriesAreBounded(z, next, n - 1, end, crc);
    }
  }

  /** What is read are the given files in order, with backslashes in their names turned into slashes. */
  predicate SameFiles(read: seq<Entry>, files: seq<Entry>) {
    && |read| == |files|
    && forall i | 0 <= i < |files| ::
         && read[i].data == files[i].data && |read[i].name| == |files[i].name|
         && forall k | 0 <= k < |files[i].name| ::
              read[i].name[k] == if files[i].name[k] == 0x5c then 0x2f else files[i].name[k]
  }

  lemma NormalisedIsSame(read: seq<Entry>, files: seq<Entry>)
    ensures SameFiles(read, files) <==> read == Normalised(files)
  {
    if SameFiles(read, files) {
      forall i | 0 <= i < |files|
        ensures read[i] == Normalised(files)[i]
      {
        assert read[i].name == Slashed(files[i].name);
      }
    }
  }

  /** The reader recovers the files, in order, exactly when every count, size and offset fits. */
  lemma ZipRoundTrip(files: seq<Entry>, crc: bytes -> nat)
    ensures ReadZip(Archive(files, crc), crc).Some? && SameFiles(ReadZip(Archive(files, crc), crc).value, files) <==>
            Fits(files, crc)
  {
    NormalisedRoundTrip(files, crc);
    hide ReadZip, Archive, Fits, SameFiles, Normalised;
    if ReadZip(Archive(files, crc), crc).Some? {
      NormalisedIsSame(ReadZip(Archive(files, crc), crc).value, files);
    }
  }

  lemma NormalisedRoundTrip(files: seq<Entry>, crc: bytes -> nat)
    ensures ReadZip(Archive(files, crc), crc) == Some(Normalised(files)) <==> Fits(files, crc)
  {
    hide Body, Directory, End, FindEnd, ReadDirectory, Get16, Get32;
    var body, directory := Body(files, crc), Directory(files, 0, crc);
    var z, before := Archive(files, crc), body + directory;
    EndFound(z, before, |files|, |directory|, |body|);
    assert At(z, 0, body) && At(z, |body|, directory);
    if Fits(files, crc) {
      DirectoryReadBack(z, |body|, files, 0, |before|, crc);
    }
    if ReadZip(z, crc) == Some(Normalised(files)) {
      var at, n := Get32(z, |before| + 16), Get16(z, |before| + 10);
      ReadEntriesAreBounded(z, at, n, |before|, crc);
      var read := ReadDirectory(z, at, n, |before|, crc).value;
      forall e | e in files
        ensures EntryFits(e)
      {
        var i :| 0 <= i < |files| && files[i] == e;
        assert read[i] == Entry(Slashed(e.name), e.data) && read[i] in read;
      }
    }
  }

  /** Without the directory, the local records alone give the same list and end where it begins. */
  lemma {:induction false} ScanReadsBack(z: bytes, at: nat, files: seq<Entry>, crc: bytes -> nat)
    requires At(z, at, Body(files, crc)) && forall e | e in files :: EntryFits(e)
    requires ReadLocal(z, at + |Body(files, crc)|, crc) == None
    ensures Scan(z, at, crc) == (Normalised(files), at + |Body(files, crc)|)
    decreases |files|
  {
    hide At, Local, ReadLocal;
    if files != [] {
      assert EntryFits(files[0]);
      AtSplit(z, at, Local(files[0], crc), Body(files[1..], crc));
      LocalReadBack(z, at, files[0], crc);
      ScanReadsBack(z, at + |Local(files[0], crc)|, files[1..], crc);
    }
  }

  lemma SequentialScan(files: seq<Entry>, crc: bytes -> nat)
    requires forall e | e in files :: EntryFits(e)
    ensures SameFiles(Scan(Archive(files, crc), 0, crc).0, files)
    ensures Scan(Archive(files, crc), 0, crc).1 == |Body(files, crc)|
  {
    NormalisedScan(files, crc);
    hide Scan, Archive, Body, SameFiles, Normalised;
    NormalisedIsSame(Scan(Archive(files, crc), 0, crc).0, files);
  }

  lemma NormalisedScan(files: seq<Entry>, crc: bytes -> nat)
    requires forall e | e in files :: EntryFits(e)
    ensures Scan(Archive(files, crc), 0, crc) == (Normalised(files), |Body(files, crc)|)
  {
    hide Local, Central, End, Get16, Get32;
    var body, directory := Body(files, crc), Directory(files, 0, crc);
    var z := Archive(files, crc);
    assert At(z, 0, body);
    if files == [] {
      EndFound(z, body + directory, 0, 0, 0);
    } else {
      var central := Central(files[0], 0, crc);
      assert At(z, |body|, directory);
      AtSplit(z, |body|, central, Directory(files[1..], |Local(files[0], crc)|, crc));
      CentralFields(z, |body|, files[0], 0, crc);
    }
    ScanReadsBack(z, 0, files, crc);
  }

  /** The local record of one file, byte by byte: signature, version, flags, method, time, date; checksum,
      both sizes and the length of the name; no extra field, name and data. */
  lemma LocalBytes(name: byte, data: byte)
    requires name != 0x5c
    ensures Local(Entry([name], [data]), b => 0x01020304) ==
            [0x50, 0x4b, 3, 4] + ([20, 0] + ([0, 0] + ([0, 0] + ([0, 0] + ([0, 0] +
              ([4, 3, 2, 1] + ([1, 0, 0, 0] + ([1, 0, 0, 0] + ([1, 0] + ([0, 0] + ([name] + [data])))))))))))
  {
    SmallPacks();
    assert Slashed([name]) == [name];
    hide Pack, Slashed;
  }

  lemma SmallPacks()
    ensures Pack(LOCAL, 4) == [0x50, 0x4b, 3, 4] && Pack(CENTRAL, 4) == [0x50, 0x4b, 1, 2] && Pack(END, 4) == [0x50, 0x4b, 5, 6]
    ensures Pack(0, 2) == [0, 0] && Pack(1, 2) == [1, 0] && Pack(20, 2) == [20, 0]
    ensures Pack(0, 4) == [0, 0, 0, 0] && Pack(1, 4) == [1, 0, 0, 0] && Pack(7, 4) == [7, 0, 0, 0] && Pack(0x01020304, 4) == [4, 3, 2, 1]
  {
    PackFour(LOCAL, 0x50, 0x4b, 3, 4);
    PackFour(CENTRAL, 0x50, 0x4b, 1, 2);
    PackFour(END, 0x50, 0x4b, 5, 6);
    PackFour(0, 0, 0, 0, 0);
    PackFour(1, 1, 0, 0, 0);
    PackFour(7, 7, 0, 0, 0);
    PackFour(0x01020304, 4, 3, 2, 1);
    PackTwo(0, 0, 0);
    PackTwo(1, 1, 0);
    PackTwo(20, 20, 0);
  }

  /** Numbers are written with the low byte first. */
  lemma PackTwo(n: nat, a: byte, b: byte)
    requires n == a + 0x100 * b
    ensures Pack(n, 2) == [a, b]
  {
    assert n % 256 == a && n / 256 == b;
    assert Pack(b, 1) == [b] + Pack(0, 0) == [b];
  }

  lemma PackFour(n: nat, a: byte, b: byte, c: byte, d: byte)
    requires n == a + 0x100 * b + 0x1_0000 * c + 0x100_0000 * d
    ensures Pack(n, 4) == [a, b, c, d]
  {
    var three, two, one := b + 0x100 * c + 0x1_0000 * d, c + 0x100 * d, d;
    assert n % 256 == a && n / 256 == three;
    assert three % 256 == b && three / 256 == two;
    assert two % 256 == c && two / 256 == one;
    assert Pack(one, 1) == [d] + Pack(0, 0) == [d];
    assert Pack(two, 2) == [c] + Pack(one, 1) && Pack(three, 3) == [b] + Pack(two, 2);
  }

  /** Its directory entry for offset 7, and the end record of one entry. */
  lemma CentralBytes(name: byte)
    requires name != 0x5c
    ensures Central(Entry([name], [0]), 7, b => 0x01020304) ==
            [0x50, 0x4b, 1, 2] + ([20, 0] + ([20, 0] + ([0, 0] + ([0, 0] + ([0, 0] + ([0, 0] +
              ([4, 3, 2, 1] + ([1, 0, 0, 0] + ([1, 0, 0, 0] + ([1, 0] +
                ([0, 0] + ([0, 0] + ([0, 0] + ([0, 0] + ([0, 0, 0, 0] + ([7, 0, 0, 0] + [name]))))))))))))))))
  {
    SmallPacks();
    assert Slashed([name]) == [name];
    hide Pack, Slashed;
  }

  lemma EndBytes()
    ensures End(1, 7, 0x01020304) == [0x50, 0x4b, 5, 6,  0, 0,  0, 0,  1, 0,  1, 0,  7, 0, 0, 0,  4, 3, 2, 1,  0, 0]
  {
    SmallPacks();
    hide Pack;
  }
}

/** Relative-path checking (service/internal/security/path.go): the cleaning algorithm, the
    canonical form it computes, and joining below a root on a filesystem with symbolic links. */
module Paths {
  import opened Text

  /** One component applied to the components kept so far. */
  function Push(stack: seq<string>, c: string): seq<string> {
    if c == "" || c == "." then stack
    else if c == ".." && stack != [] && stack[|stack| - 1] != ".." then stack[..|stack| - 1]
    else stack + [c]
  }

  function PushAll(stack: seq<string>, parts: seq<string>): seq<string>
    decreases |parts|
  {
    if parts == [] then stack else PushAll(Push(stack, parts[0]), parts[1..])
  }

  /** `path.Clean` of a path that is not rooted, by components. */
  function Clean(value: string): string {
    var kept := PushAll([], Split(value));
    if kept == [] then "." else Join(kept)
  }

  predicate PlainComponent(c: string) {
    c != "" && c != "." && c != ".." && '/' !in c
  }

  predicate Plain(parts: seq<string>) {
    forall c | c in parts :: PlainComponent(c)
  }

  /** What a relative path means: the location reached from `at`, or nothing if it climbs out. */
  function Walk(at: seq<string>, parts: seq<string>): Option<seq<string>>
    decreases |parts|
  {
    if parts == [] then Some(at)
    else
      var c := parts[0];
      if c == "" || c == "." then Walk(at, parts[1..])
      else if c != ".." then Walk(at + [c], parts[1..])
      else if at == [] then None
      else Walk(at[..|at| - 1], parts[1..])
  }

  predicate Forbidden(value: string) {
    value == "" || '\0' in value || "/" <= value || '\\' in value
  }

  function SafeRelative(value: string): (r: Result<string>) {
    if Forbidden(value) then Err
    else
      var clean := Clean(value);
      if clean == "." || clean == ".." || "../" <= clean then Err else Ok(clean)
  }

  function DashFor(c: char): char {
    if c as int < 32 || c in "<>:\"|?*" then '-' else c
  }

  function Dashed(name: string): string {
    seq(|name|, i requires 0 <= i < |name| => DashFor(name[i]))
  }

  function SafeFilename(value: string): Result<string> {
    match SafeRelative(value)
    case Err => Err
    case Ok(name) =>
      if '/' in name then Err
      else Ok(Dashed(name))
  }

  // ---- the canonical form ----

  lemma {:induction false} ClimbingStaysVisible(stack: seq<string>, parts: seq<string>)
    requires stack != [] && stack[0] == ".."
    ensures PushAll(stack, parts) != [] && PushAll(stack, parts)[0] == ".."
    decreases |parts|
  {
    if parts != [] {
      ClimbingStaysVisible(Push(stack, parts[0]), parts[1..]);
    }
  }

  lemma {:induction false} KeptIsWhereTheWalkEnds(at: seq<string>, parts: seq<string>)
    requires Plain(at)
    requires forall c | c in parts :: '/' !in c
    ensures match Walk(at, parts)
            case Some(end) => PushAll(at, parts) == end && Plain(end)
            case None => PushAll(at, parts) != [] && PushAll(at, parts)[0] == ".."
    decreases |parts|
  {
    if parts != [] {
      var c := parts[0];
      assert c in parts;
      if c == ".." && at == [] {
        assert Push(at, c) == [".."];
        ClimbingStaysVisible([".."], parts[1..]);
      } else {
        if c != "" && c != "." && c == ".." {
          assert at[|at| - 1] in at;
        }
        KeptIsWhereTheWalkEnds(Push(at, c), parts[1..]);
      }
    }
  }

  lemma SplitOfUp()
    ensures Split("..") == [".."]
  {
    SplitOfPlain("..");
  }

  lemma CleanedTraversal(kept: seq<string>)
    requires kept != [] && forall c | c in kept :: '/' !in c
    ensures (Join(kept) == ".." || "../" <= Join(kept)) <==> kept[0] == ".."
  {
    SplitOfJoin(kept);
    SplitOfUp();
    PrefixIsComponentPrefix("..", Join(kept));
    if kept[0] == ".." && |kept| > 1 {
      assert [".."] < kept;
    }
  }

  lemma {:induction false} KeptHasNoSlash(stack: seq<string>, parts: seq<string>)
    requires forall c | c in stack + parts :: '/' !in c
    ensures forall c | c in PushAll(stack, parts) :: '/' !in c
    decreases |parts|
  {
    if parts != [] {
      var next := Push(stack, parts[0]);
      assert forall c | c in next + parts[1..] :: c in stack + parts;
      KeptHasNoSlash(next, parts[1..]);
    } else {
      assert stack + parts == stack;
    }
  }

  /** Exactly the clean paths that stay inside and do not end where they started are accepted, and
      the result spells the location reached. */
  lemma SafeRelativeIsTheWalk(value: string)
    ensures SafeRelative(value) ==
            if value == "" || '\0' in value || value[0] == '/' || '\\' in value then Err
            else match Walk([], Split(value))
              case None => Err
              case Some(end) => if end == [] then Err else Ok(Join(end))
  {
    var parts := Split(value);
    KeptIsWhereTheWalkEnds([], parts);
    KeptHasNoSlash([], parts);
    var kept := PushAll([], parts);
    if kept != [] {
      CleanedTraversal(kept);
      SplitOfJoin(kept);
      assert kept[0] in kept;
      assert Join(kept) != "." by {
        SplitOfPlain(".");
      }
    }
  }

  lemma {:induction false} PlainWalk(at: seq<string>, parts: seq<string>)
    requires Plain(parts)
    ensures Walk(at, parts) == Some(at + parts)
    decreases |parts|
  {
    if parts == [] {
      assert at + parts == at;
    } else {
      assert parts[0] in parts;
      PlainWalk(at + [parts[0]], parts[1..]);
      assert at + [parts[0]] + parts[1..] == at + parts;
    }
  }

  lemma CleanOfPlain(parts: seq<string>)
    requires parts != [] && Plain(parts)
    ensures PushAll([], parts) == parts
  {
    PlainWalk([], parts);
    KeptIsWhereTheWalkEnds([], parts);
    assert [] + parts == parts;
    assert forall c | c in parts :: PlainComponent(c);
  }

  lemma {:induction false} WalkShifts(base: seq<string>, at: seq<string>, parts: seq<string>)
    requires Walk(at, parts).Some?
    ensures Walk(base + at, parts) == Some(base + Walk(at, parts).value)
    decreases |parts|
  {
    if parts != [] {
      var c := parts[0];
      if c == "" || c == "." {
        WalkShifts(base, at, parts[1..]);
      } else if c != ".." {
        assert base + at + [c] == base + (at + [c]);
        WalkShifts(base, at + [c], parts[1..]);
      } else {
        assert (base + at)[..|base + at| - 1] == base + at[..|at| - 1];
        WalkShifts(base, at[..|at| - 1], parts[1..]);
      }
    }
  }

  lemma {:induction false} SplitKeepsCharacters(s: string, x: char)
    requires x != '/'
    ensures x in s <==> exists p | p in Split(s) :: x in p
  {
    if s != "" {
      SplitKeepsCharacters(s[1..], x);
      var rest := Split(s[1..]);
      if s[0] != '/' {
        assert Split(s)[0] == [s[0]] + rest[0];
        assert forall p | p in rest[1..] :: p in Split(s) && p in rest;
        if x in s {
          if x == s[0] {
            assert x in Split(s)[0];
          } else {
            var p :| p in rest && x in p;
            assert p == rest[0] || p in rest[1..];
            if p == rest[0] {
              assert x in Split(s)[0];
            }
          }
        }
      } else {
        assert forall p | p in rest :: p in Split(s);
      }
    } else {
      assert Split(s) == [""];
    }
  }

  lemma {:induction false} WalkUsesGivenComponents(at: seq<string>, parts: seq<string>)
    requires Walk(at, parts).Some?
    ensures forall c | c in Walk(at, parts).value :: c in at || c in parts
    decreases |parts|
  {
    if parts != [] {
      var c := parts[0];
      if c == "" || c == "." {
        WalkUsesGivenComponents(at, parts[1..]);
      } else if c != ".." {
        WalkUsesGivenComponents(at + [c], parts[1..]);
      } else {
        WalkUsesGivenComponents(at[..|at| - 1], parts[1..]);
      }
    }
  }

  /** The result is canonical: its components are ordinary, no character is introduced, checking it
      again changes nothing, and from every starting point it leads where the input leads. */
  lemma SafeRelativeIsCanonical(value: string, base: seq<string>)
    requires SafeRelative(value).Ok?
    ensures var clean := SafeRelative(value).value;
            && Plain(Split(clean)) && '\\' !in clean && '\0' !in clean
            && SafeRelative(clean) == Ok(clean)
            && Walk(base, Split(value)) == Walk(base, Split(clean)) == Some(base + Split(clean))
  {
    var clean := SafeRelative(value).value;
    SafeRelativeIsTheWalk(value);
    var end := Walk([], Split(value)).value;
    KeptIsWhereTheWalkEnds([], Split(value));
    SplitOfJoin(end);
    PlainWalk([], end);
    PlainWalk(base, end);
    WalkShifts(base, [], Split(value));
    assert base + [] == base && [] + end == end;
    WalkUsesGivenComponents([], Split(value));
    forall x | x == '\\' || x == '\0'
      ensures x !in clean
    {
      SplitKeepsCharacters(value, x);
      SplitKeepsCharacters(clean, x);
    }
    assert end[0] in end;
    assert clean != "" && !("/" <= clean) by {
      assert PlainComponent(Split(clean)[0]);
    }
    SafeRelativeIsTheWalk(clean);
  }

  /** Two accepted paths are equal exactly when they name the same location. */
  lemma CanonicalFormDecidesEquality(a: string, b: string)
    requires SafeRelative(a).Ok? && SafeRelative(b).Ok?
    ensures SafeRelative(a) == SafeRelative(b) <==> Walk([], Split(a)) == Walk([], Split(b))
  {
    SafeRelativeIsCanonical(a, []);
    SafeRelativeIsCanonical(b, []);
    if Walk([], Split(a)) == Walk([], Split(b)) {
      assert [] + Split(SafeRelative(a).value) == Split(SafeRelative(a).value);
      assert [] + Split(SafeRelative(b).value) == Split(SafeRelative(b).value);
      SplitInjective(SafeRelative(a).value, SafeRelative(b).value);
    }
  }

  lemma PlainIsSafe(c: string)
    requires PlainComponent(c) && '\\' !in c && '\0' !in c
    ensures SafeRelative(c) == Ok(c)
  {
    assert Clean(c) == c by {
      SplitOfPlain(c);
      CleanOfPlain([c]);
    }
    hide Clean;
    assert !("/" <= c) && !("../" <= c) by { NoSlashPrefix(c); }
  }

  lemma NoSlashPrefix(c: string)
    requires '/' !in c
    ensures !("/" <= c) && !("../" <= c)
  {
    PrefixCharacters("/", c);
    PrefixCharacters("../", c);
    assert "/"[0] == '/' && "../"[2] == '/';
  }

  lemma PrefixCharacters(p: string, s: string)
    ensures p <= s ==> forall i | 0 <= i < |p| :: p[i] in s
  {
  }

  lemma DashedIsPlain(name: string)
    requires PlainComponent(name) && '\\' !in name && '\0' !in name
    ensures PlainComponent(Dashed(name)) && '\\' !in Dashed(name) && '\0' !in Dashed(name)
    ensures Dashed(Dashed(name)) == Dashed(name)
  {
    var dashed := Dashed(name);
    assert forall i | 0 <= i < |name| :: dashed[i] == DashFor(name[i]) && name[i] in name;
    assert forall i | 0 <= i < |name| :: name[i] == '.' <==> dashed[i] == '.';
    assert |dashed| == 1 && dashed[0] == '.' ==> name == ".";
    assert |dashed| == 2 && dashed[0] == '.' && dashed[1] == '.' ==> name == "..";
  }

  lemma DashedPointwise(clean: string)
    ensures |Dashed(clean)| == |clean|
    ensures forall i | 0 <= i < |clean| ::
              Dashed(clean)[i] == if clean[i] as int < 32 || clean[i] in {'<', '>', ':', '"', '|', '?', '*'} then '-' else clean[i]
  {
  }

  /** A file name is one ordinary component, and checking it again changes nothing; only control
      characters and those that Windows reserves become dashes. */
  lemma SafeFilenameIsOneComponent(value: string)
    requires SafeFilename(value).Ok?
    ensures var name := SafeFilename(value).value;
            PlainComponent(name) && SafeFilename(name) == Ok(name)
    ensures var clean, name := SafeRelative(value).value, SafeFilename(value).value;
            && |name| == |clean|
            && forall i | 0 <= i < |clean| ::
                 name[i] == if clean[i] as int < 32 || clean[i] in {'<', '>', ':', '"', '|', '?', '*'} then '-' else clean[i]
  {
    DashedPointwise(SafeRelative(value).value);
    var clean := SafeRelative(value).value;
    SafeRelativeIsCanonical(value, []);
    SplitOfPlain(clean);
    assert clean in Split(clean);
    hide SafeRelative, Split, Dashed;
    DashedIsPlain(clean);
    PlainIsSafe(Dashed(clean));
  }

  // ---- the cleaning loop over a buffer ----

  lemma DropSlash(rest: string, stack: seq<string>)
    requires "/" <= rest
    ensures PushAll(stack, Split(rest)) == PushAll(stack, Split(rest[1..]))
  {
    assert Split(rest) == [""] + Split(rest[1..]);
  }

  predicate EndsComponent(rest: string) {
    rest == "" || rest[0] == '/'
  }

  /** A component at the head of the text is pushed, and the scan goes on behind it. */
  lemma {:induction false} PushHead(name: string, rest: string, stack: seq<string>)
    requires '/' !in name && EndsComponent(rest)
    ensures PushAll(stack, Split(name + rest)) == PushAll(Push(stack, name), Split(rest))
  {
    SplitOfPlain(name);
    if rest == "" {
      assert name + rest == name;
      assert Split(rest) == [""];
      assert PushAll(Push(stack, name), [""]) == PushAll(Push(stack, name), []);
    } else {
      assert name + rest == name + "/" + rest[1..];
      SplitAtSlash(name, rest[1..]);
      DropSlash(rest, Push(stack, name));
      assert [name] + Split(rest[1..]) == Split(name + rest);
    }
  }

  /** The buffer holds the kept components, and `floor` is how far `..` may cut it back. */
  ghost predicate Buffered(out: string, floor: nat, stack: seq<string>, ups: nat) {
    && ups <= |stack|
    && (forall i | 0 <= i < ups :: stack[i] == "..")
    && (forall i | ups <= i < |stack| :: PlainComponent(stack[i]))
    && out == Join(stack) && floor == |Join(stack[..ups])|
  }

  lemma JoinPushed(stack: seq<string>, c: string)
    ensures Join(stack + [c]) == if stack == [] then c else Join(stack) + "/" + c
  {
    if stack == [] {
      assert stack + [c] == [c];
    } else {
      JoinAppend(stack, [c]);
    }
  }

  lemma FloorIsBelow(out: string, floor: nat, stack: seq<string>, ups: nat)
    requires Buffered(out, floor, stack, ups)
    ensures floor <= |out| && (floor == |out| <==> ups == |stack|)
    ensures out == "" <==> stack == []
  {
    if stack != [] && (ups == 0 || ups < |stack|) {
      assert PlainComponent(stack[|stack| - 1]);
    }
    if 0 < ups < |stack| {
      assert stack == stack[..ups] + stack[ups..];
      JoinAppend(stack[..ups], stack[ups..]);
    } else {
      assert ups == |stack| ==> stack[..ups] == stack;
    }
    if stack != [] {
      assert |stack[0]| > 0;
      assert Join(stack) != "";
    }
  }

  /** Where `..` cuts the buffer. */
  method LastSeparator(out: string, floor: nat) returns (w: nat)
    requires floor < |out|
    ensures floor <= w < |out| && (w > floor ==> out[w] == '/')
    ensures forall k | w < k < |out| :: out[k] != '/'
  {
    w := |out| - 1;
    while w > floor && out[w] != '/'
      invariant floor <= w < |out|
      invariant forall k | w < k < |out| :: out[k] != '/'
    {
      w := w - 1;
    }
  }

  method ComponentEnd(value: string, start: nat) returns (r: nat)
    requires start <= |value|
    ensures start <= r <= |value| && '/' !in value[start..r] && EndsComponent(value[r..])
    ensures start < |value| && value[start] != '/' ==> start < r
  {
    r := start;
    while r < |value| && value[r] != '/'
      invariant start <= r <= |value| && '/' !in value[start..r]
    {
      r := r + 1;
    }
  }

  /** What the four cases of the scan do to the components still to come. */
  lemma ScanSlash(value: string, r: nat, stack: seq<string>)
    requires r < |value| && value[r] == '/'
    ensures PushAll(stack, Split(value[r..])) == PushAll(stack, Split(value[r + 1..]))
  {
    DropSlash(value[r..], stack);
    assert value[r..][1..] == value[r + 1..];
  }

  lemma ScanDot(value: string, r: nat, stack: seq<string>)
    requires r < |value| && value[r] == '.' && (r + 1 == |value| || value[r + 1] == '/')
    ensures PushAll(stack, Split(value[r..])) == PushAll(stack, Split(value[r + 1..]))
  {
    assert value[r..r + 1] == ".";
    HeadAt(value, r, r + 1, stack);
  }

  lemma ScanUp(value: string, r: nat, stack: seq<string>)
    requires r + 1 < |value| && value[r] == value[r + 1] == '.' && (r + 2 == |value| || value[r + 2] == '/')
    ensures PushAll(stack, Split(value[r..])) == PushAll(Push(stack, ".."), Split(value[r + 2..]))
  {
    assert value[r..r + 2] == "..";
    HeadAt(value, r, r + 2, stack);
  }

  lemma HeadAt(value: string, r: nat, e: nat, stack: seq<string>)
    requires r <= e <= |value| && '/' !in value[r..e] && EndsComponent(value[e..])
    ensures PushAll(stack, Split(value[r..])) == PushAll(Push(stack, value[r..e]), Split(value[e..]))
  {
    PushHead(value[r..e], value[e..], stack);
    assert value[r..] == value[r..e] + value[e..];
  }

  lemma BufferName(out: string, floor: nat, stack: seq<string>, ups: nat, c: string)
    requires Buffered(out, floor, stack, ups) && PlainComponent(c)
    ensures Buffered((if |out| != 0 then out + "/" else out) + c, floor, stack + [c], ups)
  {
    FloorIsBelow(out, floor, stack, ups);
    JoinPushed(stack, c);
    assert (stack + [c])[..ups] == stack[..ups];
  }

  lemma BufferUp(out: string, floor: nat, stack: seq<string>, ups: nat)
    requires Buffered(out, floor, stack, ups) && floor == |out|
    ensures var next := (if |out| > 0 then out + "/" else out) + "..";
            Push(stack, "..") == stack + [".."] && Buffered(next, |next|, stack + [".."], ups + 1)
  {
    FloorIsBelow(out, floor, stack, ups);
    JoinPushed(stack, "..");
    assert (stack + [".."])[..ups + 1] == stack + [".."];
  }

  /** `path.Clean` as Go's library runs it on a path that is not rooted: one pass with a buffer. */
  method CleanLoop(value: string) returns (clean: string)
    requires value != "" && value[0] != '/'
    ensures clean == Clean(value)
  {
    var out: string, r: nat, floor: nat := "", 0, 0;
    ghost var stack: seq<string>, ups: nat := [], 0;
    assert value[0..] == value && Buffered(out, floor, stack, ups);
    hide PushAll, Push, Split, Join, Buffered, PlainComponent;
    while r < |value|
      invariant r <= |value| && Buffered(out, floor, stack, ups)
      invariant PushAll(stack, Split(value[r..])) == PushAll([], Split(value))
      decreases |value| - r
    {
      if value[r] == '/' {
        ScanSlash(value, r, stack);
        r := r + 1;
      } else if value[r] == '.' && (r + 1 == |value| || value[r + 1] == '/') {
        ScanDot(value, r, stack);
        r := r + 1;
      } else if value[r] == '.' && value[r + 1] == '.' && (r + 2 == |value| || value[r + 2] == '/') {
        ScanUp(value, r, stack);
        r := r + 2;
        FloorIsBelow(out, floor, stack, ups);
        if |out| > floor {
          var w := LastSeparator(out, floor);
          CutBack(out, floor, stack, ups, w);
          out, stack := out[..w], Push(stack, "..");
        } else {
          BufferUp(out, floor, stack, ups);
          if |out| > 0 {
            out := out + "/";
          }
          out, stack, ups := out + "..", Push(stack, ".."), ups + 1;
          floor := |out|;
        }
      } else {
        var end := ComponentEnd(value, r);
        var name := value[r..end];
        NotDots(value, r, end);
        HeadAt(value, r, end, stack);
        BufferName(out, floor, stack, ups, name);
        if |out| != 0 {
          out := out + "/";
        }
        out, stack, r := out + name, Push(stack, name), end;
      }
    }
    assert value[r..] == "";
    NothingLeft(out, floor, stack, ups);
    clean := if |out| == 0 then "." else out;
  }

  lemma NothingLeft(out: string, floor: nat, stack: seq<string>, ups: nat)
    requires Buffered(out, floor, stack, ups)
    ensures PushAll(stack, Split("")) == stack && out == Join(stack) && (out == "" <==> stack == [])
  {
    FloorIsBelow(out, floor, stack, ups);
    assert PushAll(stack, [""]) == PushAll(stack, []);
  }

  lemma NotDots(value: string, r: nat, end: nat)
    requires r < end <= |value| && value[r] != '/' && '/' !in value[r..end] && EndsComponent(value[end..])
    requires !(value[r] == '.' && (r + 1 == |value| || value[r + 1] == '/'))
    requires !(value[r] == '.' && r + 1 < |value| && value[r + 1] == '.' && (r + 2 == |value| || value[r + 2] == '/'))
    ensures PlainComponent(value[r..end])
  {
    var name := value[r..end];
    assert forall k | r <= k < end :: value[k] == name[k - r];
    assert end < |value| ==> value[end..][0] == value[end];
    assert |name| == end - r && name[0] == value[r] && (|name| > 1 ==> name[1] == value[r + 1]);
  }

  /** Cutting the buffer at its last separator, but not below the floor, drops the last component. */
  lemma CutBack(out: string, floor: nat, stack: seq<string>, ups: nat, w: nat)
    requires Buffered(out, floor, stack, ups) && ups < |stack|
    requires floor <= w < |out| && (w > floor ==> out[w] == '/')
    requires forall k | w < k < |out| :: out[k] != '/'
    ensures Buffered(out[..w], floor, Push(stack, ".."), ups)
  {
    var kept, last := stack[..|stack| - 1], stack[|stack| - 1];
    assert stack == kept + [last] && PlainComponent(last);
    JoinPushed(kept, last);
    assert kept[..ups] == stack[..ups];
    FloorIsBelow(Join(kept), floor, kept, ups);
    var p := |Join(kept)|;
    assert out[..p] == Join(kept);
    if kept != [] {
      assert out[p] == '/' && out[p + 1..] == last;
      assert forall k | p < k < |out| :: out[k] == last[k - p - 1];
    } else {
      assert p == 0 && out == last;
    }
    assert w == p;
  }

  // ---- joining below a root that may contain symbolic links ----

  datatype Node = Directory | Regular | Link(target: seq<string>)

  type Disk = map<seq<string>, Node>

  ghost predicate ValidDisk(disk: Disk) {
    forall l | l in disk && l != [] :: l[..|l| - 1] in disk && disk[l[..|l| - 1]] == Directory
  }

  datatype Located = At(location: seq<string>) | Missing | Failed

  /** Where the system finds `parts` below `at`: links are followed, at most `links` of them. */
  function Resolve(disk: Disk, at: seq<string>, parts: seq<string>, links: nat): Located
    decreases links, |parts|
  {
    if parts == [] then At(at)
    else if at in disk && disk[at] == Regular then Failed
    else
      var next := at + [parts[0]];
      if next !in disk then Missing
      else match disk[next]
        case Link(target) =>
          if links == 0 then Failed else Resolve(disk, [], target + parts[1..], links - 1)
        case _ => Resolve(disk, next, parts[1..], links)
  }

  datatype Stat = Found(node: Node) | NotExist | Error

  /** `os.Lstat`: the last component is not followed. */
  function Lstat(disk: Disk, root: seq<string>, parts: seq<string>, links: nat): Stat
    requires parts != []
  {
    match Resolve(disk, root, parts[..|parts| - 1], links)
    case Missing => NotExist
    case Failed => Error
    case At(dir) =>
      if dir in disk && disk[dir] == Regular then Error
      else
        var l := dir + [parts[|parts| - 1]];
        if l in disk then Found(disk[l]) else NotExist
  }

  /** Every existing location on the way is a directory, except that the last may be a file. */
  ghost predicate PlainWay(disk: Disk, at: seq<string>, end: seq<string>) {
    forall l | l in disk && at < l && l <= end :: disk[l] == Directory || (disk[l] == Regular && l == end)
  }

  lemma {:induction false} ResolveStraight(disk: Disk, at: seq<string>, parts: seq<string>, links: nat)
    requires ValidDisk(disk) && (at in disk ==> disk[at] == Directory || parts == [])
    requires PlainWay(disk, at, at + parts)
    ensures Resolve(disk, at, parts, links) ==
            if parts == [] || at + parts in disk then At(at + parts) else Missing
    decreases |parts|
  {
    if parts == [] {
      assert at + parts == at;
    } else {
      var next := at + [parts[0]];
      assert next + parts[1..] == at + parts;
      if next !in disk {
        MissingBelow(disk, next, parts[1..]);
      } else {
        ResolveStraight(disk, next, parts[1..], links);
      }
    }
  }

  lemma {:induction false} MissingBelow(disk: Disk, at: seq<string>, parts: seq<string>)
    requires ValidDisk(disk) && at !in disk
    ensures at + parts !in disk
    decreases |parts|
  {
    if parts == [] {
      assert at + parts == at;
    } else {
      var l := at + parts;
      assert l[..|l| - 1] == at + parts[..|parts| - 1];
      MissingBelow(disk, at, parts[..|parts| - 1]);
    }
  }

  /** `SafeJoin`: accepted exactly when the path is safe and its parents are plain; then the parent
      of the result is found at the root followed by the parent components, or does not exist yet. */
  method SafeJoin(disk: Disk, root: seq<string>, relative: string, links: nat) returns (r: Result<seq<string>>)
    requires ValidDisk(disk) && root in disk && disk[root] == Directory
    ensures r.Ok? <==> SafeRelative(relative).Ok? &&
                       var parts := Split(SafeRelative(relative).value);
                       var parent := root + parts[..|parts| - 1];
                       forall l | l in disk && root < l && l <= parent ::
                         disk[l] == Directory || (disk[l] == Regular && l == parent)
    ensures r.Ok? ==>
              var parts := Split(SafeRelative(relative).value);
              var parent := root + parts[..|parts| - 1];
              && r.value == root + parts && Plain(parts)
              && Resolve(disk, root, parts[..|parts| - 1], links) == if parent in disk then At(parent) else Missing
  {
    hide *;
    var clean := SafeRelative(relative);
    if clean.Err? {
      return Err;
    }
    SafeRelativeIsCanonical(relative, []);
    var parts := Split(clean.value);
    WayMeans(disk, root, parts);
    var plain := CheckParents(disk, root, parts, links);
    if !plain {
      return Err;
    }
    ResolveStraight(disk, root, Parents(parts), links);
    r := Ok(root + parts);
  }

  lemma WayMeans(disk: Disk, root: seq<string>, parts: seq<string>)
    requires parts != []
    ensures Parents(parts) == parts[..|parts| - 1]
    ensures Parents(parts) == [] ==> root + Parents(parts) == root
    ensures PlainWay(disk, root, root + Parents(parts)) <==>
            forall l | l in disk && root < l && l <= root + parts[..|parts| - 1] ::
              disk[l] == Directory || (disk[l] == Regular && l == root + parts[..|parts| - 1])
  {
    hide ValidDisk;
    assert root + [] == root;
  }

  method CheckParents(disk: Disk, root: seq<string>, parts: seq<string>, links: nat) returns (plain: bool)
    requires ValidDisk(disk) && root in disk && disk[root] == Directory && parts != []
    ensures plain <==> PlainWay(disk, root, root + Parents(parts))
  {
    hide *;
    var i := 0;
    WayBegins(disk, root, parts);
    while i < |parts| - 1
      invariant 0 <= i <= |parts| - 1 && PlainWay(disk, root, root + parts[..i])
    {
      var info := Lstat(disk, root, parts[..i + 1], links);
      OneStepFurther(disk, root, parts, i, links);
      if (info.Found? && info.node.Link?) || info.Error? {
        ShorterWay(disk, root, parts, i + 1);
        return false;
      }
      i := i + 1;
    }
    ParentsAre(parts);
    plain := true;
  }

  lemma WayBegins(disk: Disk, root: seq<string>, parts: seq<string>)
    ensures PlainWay(disk, root, root + parts[..0])
  {
    assert root + parts[..0] == root;
  }

  lemma ParentsAre(parts: seq<string>)
    requires parts != []
    ensures Parents(parts) == parts[..|parts| - 1]
  {
  }

  function Parents(parts: seq<string>): seq<string>
    requires parts != []
  {
    parts[..|parts| - 1]
  }

  /** On a plain way `os.Lstat` sees the location itself, and fails only below a regular file. */
  lemma LstatOnPlainWay(disk: Disk, root: seq<string>, parts: seq<string>, links: nat)
    requires ValidDisk(disk) && root in disk && disk[root] == Directory
    requires parts != [] && PlainWay(disk, root, root + Parents(parts))
    ensures var parent, l := root + Parents(parts), root + parts;
            Lstat(disk, root, parts, links) ==
            if parent in disk && disk[parent] == Regular then Error
            else if l in disk then Found(disk[l]) else NotExist
  {
    hide Resolve, ValidDisk, PlainWay;
    var parent, last := root + Parents(parts), parts[|parts| - 1];
    ResolveStraight(disk, root, Parents(parts), links);
    ParentAndLast(root, parts);
    if parent !in disk {
      MissingBelow(disk, parent, [last]);
    }
  }

  lemma ParentAndLast(root: seq<string>, parts: seq<string>)
    requires parts != []
    ensures root + Parents(parts) + [parts[|parts| - 1]] == root + parts
    ensures Parents(parts) == [] ==> root + Parents(parts) == root
  {
  }

  lemma OneStepFurther(disk: Disk, root: seq<string>, parts: seq<string>, i: nat, links: nat)
    requires ValidDisk(disk) && root in disk && disk[root] == Directory
    requires i < |parts| && PlainWay(disk, root, root + parts[..i])
    ensures var info := Lstat(disk, root, parts[..i + 1], links);
            PlainWay(disk, root, root + parts[..i + 1]) <==> !info.Error? && !(info.Found? && info.node.Link?)
  {
    assert Parents(parts[..i + 1]) == parts[..i];
    LstatOnPlainWay(disk, root, parts[..i + 1], links);
    WayExtends(disk, root, root + parts[..i], parts[i]);
    assert root + parts[..i] + [parts[i]] == root + parts[..i + 1];
  }

  lemma WayExtends(disk: Disk, root: seq<string>, way: seq<string>, c: string)
    requires root <= way && PlainWay(disk, root, way) && root in disk && disk[root] == Directory
    ensures PlainWay(disk, root, way + [c]) <==>
            !(way in disk && disk[way] == Regular) && !(way + [c] in disk && disk[way + [c]].Link?)
  {
    forall m | m in disk && root < m && m <= way + [c]
      ensures m <= way || m == way + [c]
    {
    }
    assert root < way + [c] && way < way + [c];
    if root != way {
      assert root < way;
    }
  }

  lemma ShorterWay(disk: Disk, root: seq<string>, parts: seq<string>, i: nat)
    requires i < |parts|
    ensures PlainWay(disk, root, root + Parents(parts)) ==> PlainWay(disk, root, root + parts[..i])
  {
    assert root + Parents(parts) == root + parts[..i] + parts[i..|parts| - 1];
  }
}

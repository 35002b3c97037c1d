/** Public URLs (service/internal/api/public.go): which file a path is resolved to, and that the
    published bytes are the ones the manifest lists. */
module Public {
  import opened Text
  import opened Paths
  import opened Digest
  import opened Trees
  import opened Releases
  import opened ReleaseSafety
  import opened ReleaseTheorems

  predicate PublicChar(c: char) {
    'a' <= c <= 'z' || 'A' <= c <= 'Z' || '0' <= c <= '9' || c in "._-"
  }

  /** `publicPart`. */
  predicate PublicPart(s: string) {
    s != "" && forall i | 0 <= i < |s| :: PublicChar(s[i])
  }

  /** `safePublicPathPart`. */
  predicate SafePart(s: string) {
    s != "" && s != "." && s != ".." && '\\' !in s && '\0' !in s
  }

  datatype Target =
    | Blob(name: Path)
    | InRelease(slug: string, parts: seq<string>)
    | InCurrent(slug: string, parts: seq<string>)
    | Nothing

  predicate BlobPath(parts: seq<string>) {
    |parts| >= 4 && parts[0] == "blobs" && parts[1] == "sha256" && |parts[2]| == 64
    && PublicPart(parts[2]) && SafePart(parts[3])
  }

  /** `filepath.Join("sha256", digest[:2], digest)`, below the blobs. */
  function BlobName(digest: string): Path
    requires |digest| >= 2
  {
    PushAll([], ["sha256", digest[..2], digest])
  }

  /** Which name the handler opens, from its branches. */
  function Route(path: string): Target {
    RouteOf(Split(TrimRight(TrimLeft(path))))
  }

  function RouteOf(parts: seq<string>): Target
    requires |parts| >= 1
  {
    if BlobPath(parts) then Blob(BlobName(parts[2]))
    else if |parts| < 2 || !PublicPart(parts[0]) then Nothing
    else if exists p | p in parts[1..] :: !SafePart(p) then Nothing
    else if |parts| >= 3 && parts[1] == "releases" then InRelease(parts[0], parts[2..])
    else InCurrent(parts[0], parts[1..])
  }

  /** A file of a release directory; `revision.json` is the printed manifest. */
  function FileOf(r: Release, p: Path, json: Manifest -> string): Option<string> {
    if p == ["revision.json"] && r.manifest.Some? then Some(json(r.manifest.value))
    else if p in r.tree && r.tree[p].File? then Some(r.tree[p].data)
    else None
  }

  function OpenTarget(t: Target, site: map<string, Store>, blobs: map<Path, string>, json: Manifest -> string)
    : Option<string>
  {
    match t
    case Nothing => None
    case Blob(name) => if name in blobs then Some(blobs[name]) else None
    case InRelease(slug, parts) =>
      if parts != [] && slug in site && parts[0] in site[slug].dirs
      then FileOf(site[slug].dirs[parts[0]], parts[1..], json) else None
    case InCurrent(slug, parts) =>
      if slug in site && site[slug].link.Some? && site[slug].link.value in site[slug].dirs
      then FileOf(site[slug].dirs[site[slug].link.value], parts, json) else None
  }

  datatype Response = Served(data: string, immutable: bool) | NotFound | NotAllowed

  /** `PublicHandler`. */
  method Handle(verb: string, path: string, site: map<string, Store>, blobs: map<Path, string>, json: Manifest -> string)
    returns (r: Response)
    ensures r == if verb != "GET" && verb != "HEAD" then NotAllowed
                 else match OpenTarget(Route(path), site, blobs, json)
                   case None => NotFound
                   case Some(data) => Served(data, !Route(path).InCurrent?)
  {
    hide Split, TrimLeft, TrimRight, OpenTarget, SafePart, PublicPart, BlobPath, BlobName;
    if verb != "GET" && verb != "HEAD" {
      return NotAllowed;
    }
    BlobPathLength(path);
    NothingIsFound(site, blobs, json);
    var parts := Split(TrimRight(TrimLeft(path)));
    var target, immutable := Nothing, false;
    if BlobPath(parts) {
      target, immutable := Blob(BlobName(parts[2])), true;
    } else if |parts| >= 2 && PublicPart(parts[0]) {
      var safe := PartsAreSafe(parts);
      if !safe {
        return NotFound;
      }
      if |parts| >= 3 && parts[1] == "releases" {
        target, immutable := InRelease(parts[0], parts[2..]), true;
      } else {
        target := InCurrent(parts[0], parts[1..]);
      }
    } else {
      return NotFound;
    }
    match OpenTarget(target, site, blobs, json)
    case None => r := NotFound;
    case Some(data) => r := Served(data, immutable);
  }

  method PartsAreSafe(parts: seq<string>) returns (safe: bool)
    requires |parts| >= 1
    ensures safe <==> forall p | p in parts[1..] :: SafePart(p)
  {
    hide SafePart;
    var i := 1;
    while i < |parts|
      invariant 1 <= i <= |parts| && forall k | 1 <= k < i :: SafePart(parts[k])
    {
      if !SafePart(parts[i]) {
        assert parts[1..][i - 1] == parts[i];
        return false;
      }
      i := i + 1;
    }
    safe := true;
  }

  lemma NothingIsFound(site: map<string, Store>, blobs: map<Path, string>, json: Manifest -> string)
    ensures OpenTarget(Nothing, site, blobs, json) == None
  {
  }

  lemma BlobPathLength(path: string)
    ensures var parts := Split(TrimRight(TrimLeft(path))); BlobPath(parts) ==> |parts| >= 4 && |parts[2]| == 64
  {
  }

  // ---- routing ----

  lemma {:induction false} LastOfJoin(parts: seq<string>)
    requires parts != [] && Plain(parts)
    ensures Join(parts) != "" && Join(parts)[0] != '/' && Join(parts)[|Join(parts)| - 1] != '/'
  {
    assert PlainComponent(parts[0]);
    if |parts| > 1 {
      assert forall p | p in parts[1..] :: p in parts;
      LastOfJoin(parts[1..]);
    }
  }

  lemma PartsOfUrl(parts: seq<string>)
    requires parts != [] && Plain(parts)
    ensures Split(TrimRight(TrimLeft("/" + Join(parts)))) == parts
  {
    var text := Join(parts);
    LastOfJoin(parts);
    assert ("/" + text)[1..] == text;
    assert TrimLeft(text) == text && TrimLeft("/" + text) == text;
    assert TrimRight(text) == text;
    SplitOfJoin(parts);
  }

  lemma SlugIsPlain(slug: string)
    requires PublicPart(slug) && slug != "." && slug != ".."
    ensures PlainComponent(slug)
  {
    assert forall i | 0 <= i < |slug| :: slug[i] != '/';
  }

  ghost predicate SafePath(p: Path) {
    forall c | c in p :: SafePart(c)
  }

  lemma RouteOfUrl(parts: seq<string>)
    requires parts != [] && Plain(parts)
    ensures Route("/" + Join(parts)) == RouteOf(parts)
  {
    PartsOfUrl(parts);
    hide Split, TrimLeft, TrimRight, RouteOf, Plain;
  }

  /** More slashes at the ends of a URL make no difference. */
  lemma RouteWithSlashes(parts: seq<string>, front: string, back: string)
    requires parts != [] && Plain(parts) && Slashes(front) && Slashes(back)
    ensures Route(front + Join(parts) + back) == Route("/" + Join(parts))
  {
    LastOfJoin(parts);
    SlashesAreTrimmed(front, Join(parts), back);
    SlashesAreTrimmed("/", Join(parts), "");
    assert "/" + Join(parts) + "" == "/" + Join(parts) && Join(parts) + "" == Join(parts);
    hide Join, TrimLeft, TrimRight, Split, RouteOf;
  }

  /** A file of a modpack is reachable below its project exactly when its name passes the filter and
      is not taken for the releases themselves. */
  lemma CurrentRoute(slug: string, p: Path)
    requires PublicPart(slug) && slug != "." && slug != ".." && slug != "blobs" && ValidPath(p)
    ensures Route("/" + Join([slug] + p)) == InCurrent(slug, p) <==>
            (forall c | c in p :: '\\' !in c) && !(|p| >= 2 && p[0] == "releases")
  {
    SlugIsPlain(slug);
    RouteOfUrl([slug] + p);
    forall c | c in p
      ensures SafePart(c) <==> '\\' !in c
    {
      PlainIsSafePart(c);
    }
    hide Route, PublicPart, SafePart, PlainComponent;
    var parts := [slug] + p;
    assert parts[1..] == p;
  }

  lemma NoBackslash(p: Path)
    requires SafePath(p)
    ensures forall c | c in p :: '\\' !in c
  {
  }

  /** Every slug a project can have, and every digest in hexadecimal, passes the filter of the handler. */
  lemma SlugsArePublic(slug: string)
    requires 3 <= |slug| <= 64 && slug[0] != '-' && slug[|slug| - 1] != '-'
    requires forall i | 0 <= i < |slug| :: 'a' <= slug[i] <= 'z' || '0' <= slug[i] <= '9' || slug[i] == '-'
    ensures PublicPart(slug) && slug != "." && slug != ".."
  {
    assert slug != "." && slug != "..";
  }

  lemma DigestsArePublic(digest: string)
    requires |digest| == 64
    requires forall i | 0 <= i < |digest| :: 'a' <= digest[i] <= 'f' || '0' <= digest[i] <= '9'
    ensures PublicPart(digest) && digest[..2] != ".."
  {
    assert digest[..2][0] == digest[0];
  }

  /** And nothing but letters, digits, dots, dashes and underscores does. */
  lemma PublicCharacters(s: string)
    ensures PublicPart(s) <==>
            s != "" && forall i | 0 <= i < |s| ::
              || 'a' <= s[i] <= 'z' || 'A' <= s[i] <= 'Z' || '0' <= s[i] <= '9'
              || s[i] == '.' || s[i] == '_' || s[i] == '-'
  {
    assert forall i | 0 <= i < |s| :: PublicChar(s[i]) <==>
             || 'a' <= s[i] <= 'z' || 'A' <= s[i] <= 'Z' || '0' <= s[i] <= '9'
             || s[i] == '.' || s[i] == '_' || s[i] == '-';
  }

  lemma ReleaseRoute(slug: string, number: nat, p: Path)
    requires PublicPart(slug) && slug != "." && slug != ".." && slug != "blobs" && ValidPath(p) && SafePath(p)
    ensures Route("/" + Join([slug, "releases", Decimal(number)] + p)) == InRelease(slug, [Decimal(number)] + p)
  {
    hide Route, PublicPart, PublicChar, PlainComponent, Decimal, BlobName, AllDigits, SafePart;
    var parts := [slug, "releases", Decimal(number)] + p;
    SlugIsPlain(slug);
    NumberIsSafe(number);
    ConstantIsPlain();
    PlainWithRelease(slug, Decimal(number), p);
    RouteOfUrl(parts);
    assert parts[1..] == ["releases", Decimal(number)] + p && parts[2..] == [Decimal(number)] + p;
  }

  lemma PlainWithRelease(slug: string, number: string, p: Path)
    requires PlainComponent(slug) && PlainComponent("releases") && PlainComponent(number) && Plain(p)
    ensures Plain([slug, "releases", number] + p)
  {
    hide PlainComponent;
  }

  /** The blob is found under the first two characters of its digest, unless these are two dots. */
  lemma BlobIsFiled(digest: string)
    requires |digest| == 64 && PublicPart(digest)
    ensures BlobName(digest) == ["sha256", digest[..2], digest] <==> digest[..2] != ".."
  {
    var two := digest[..2];
    var parts := ["sha256", two, digest];
    SlugIsPlain(digest);
    assert parts[1..] == [two, digest] && [two, digest][1..] == [digest] && [digest][1..] == [];
    if two == ".." {
      CleanOfPlain([digest]);
      assert Push([], "sha256") == ["sha256"] && Push(["sha256"], two) == [];
      assert PushAll([], parts) == PushAll(["sha256"], parts[1..]);
      assert PushAll(["sha256"], [two, digest]) == PushAll([], [two, digest][1..]);
      assert |PushAll([], parts)| == 1;
    } else {
      assert forall i | 0 <= i < 2 :: two[i] == digest[i] && digest[i] != '/';
      ConstantIsPlain();
      CleanOfPlain(parts);
    }
  }

  /** The URL that uploads print into metadata leads to the blob, whatever project is called `blobs`. */
  lemma BlobRoute(sha: string, name: string)
    requires |sha| == 64 && PublicPart(sha) && PlainComponent(name)
    ensures Route("/" + Join(["blobs", "sha256", sha, name])) == Blob(BlobName(sha)) <==> '\\' !in name && '\0' !in name
  {
    var parts := ["blobs", "sha256", sha, name];
    SlugIsPlain(sha);
    ConstantIsPlain();
    hide PlainComponent, PublicPart, Route, BlobName;
    assert Plain(parts);
    RouteOfUrl(parts);
    assert SafePart(name) <==> '\\' !in name && '\0' !in name by { PlainIsSafePart(name); }
  }

  /** Only such URLs lead to a blob. */
  lemma OnlyBlobRoutes(parts: seq<string>)
    requires parts != [] && Plain(parts)
    ensures Route("/" + Join(parts)).Blob? <==>
            && |parts| >= 4 && parts[0] == "blobs" && parts[1] == "sha256" && |parts[2]| == 64
            && (forall i | 0 <= i < |parts[2]| ::
                  || 'a' <= parts[2][i] <= 'z' || 'A' <= parts[2][i] <= 'Z' || '0' <= parts[2][i] <= '9'
                  || parts[2][i] == '.' || parts[2][i] == '_' || parts[2][i] == '-')
            && '\\' !in parts[3] && '\0' !in parts[3]
  {
    RouteOfUrl(parts);
    if |parts| >= 4 {
      PublicCharacters(parts[2]);
      PlainIsSafePart(parts[3]);
    }
    hide Route, PublicPart, SafePart, PlainComponent, BlobName;
  }

  lemma PlainIsSafePart(name: string)
    requires PlainComponent(name)
    ensures SafePart(name) <==> '\\' !in name && '\0' !in name
  {
  }

  lemma ConstantIsPlain()
    ensures PlainComponent("releases") && SafePart("releases") && PlainComponent("blobs") && PlainComponent("sha256")
  {
  }

  lemma NumberIsSafe(number: nat)
    ensures PlainComponent(Decimal(number)) && SafePart(Decimal(number))
  {
    var s := Decimal(number);
    assert AllDigits(s);
    forall c | c in s
      ensures c != '/' && c != '\\' && c != '\0' && c != '.'
    {
      var i :| 0 <= i < |s| && s[i] == c;
    }
    assert s[0] in s;
  }

  // ---- what is served is what was published ----

  /** The response carries the bytes an entry of a manifest describes. */
  ghost predicate Matches(h: Hash, r: Response, e: FileEntry, immutable: bool) {
    r.Served? && r.immutable == immutable && h(r.data) == e.sha && |r.data| == e.size
  }

  function Get(path: string, slug: string, store: Store, json: Manifest -> string): Response {
    match OpenTarget(Route(path), map[slug := store], map[], json)
    case None => NotFound
    case Some(data) => Served(data, !Route(path).InCurrent?)
  }

  lemma ListedFile(h: Hash, r: Release, p: Path, e: FileEntry, json: Manifest -> string)
    requires Whole(h, r) && ValidPath(p) && p != ["revision.json"]
    requires e in r.manifest.value.files && e.path == Join(p)
    ensures FileOf(r, p, json).Some? && h(FileOf(r, p, json).value) == e.sha && |FileOf(r, p, json).value| == e.size
  {
    var q :| q in r.tree.Keys && q in r.tree && r.tree[q].File? && e == EntryOf(h, q, r.tree[q].data);
    JoinDecidesPath(p, q);
  }

  /** A project whose URLs are not those of the blob store, and a path the handler can serve. */
  ghost predicate Reachable(slug: string, p: Path) {
    && PublicPart(slug) && slug != "." && slug != ".." && slug != "blobs"
    && ValidPath(p) && SafePath(p) && p != ["revision.json"]
  }

  ghost predicate Listed(dirs: map<string, Release>, name: string, e: FileEntry) {
    name in dirs && dirs[name].manifest.Some? && e in dirs[name].manifest.value.files
  }

  /** Every slug and every valid path without a backslash or a NUL is such a pair. */
  lemma ReachableMeans(slug: string, p: Path)
    requires 3 <= |slug| <= 64 && slug[0] != '-' && slug[|slug| - 1] != '-' && slug != "blobs"
    requires forall i | 0 <= i < |slug| :: 'a' <= slug[i] <= 'z' || '0' <= slug[i] <= '9' || slug[i] == '-'
    requires ValidPath(p)
    ensures Reachable(slug, p) <==> (forall c | c in p :: '\\' !in c && '\0' !in c) && p != ["revision.json"]
  {
    SlugsArePublic(slug);
    forall c | c in p
      ensures SafePart(c) <==> '\\' !in c && '\0' !in c
    {
      PlainIsSafePart(c);
    }
    hide PublicPart, SafePart, PlainComponent;
  }

  lemma ListedMeans(dirs: map<string, Release>, name: string, e: FileEntry)
    ensures Listed(dirs, name, e) <==> name in dirs && dirs[name].manifest.Some? && e in dirs[name].manifest.value.files
  {
  }

  lemma MatchesMeans(h: Hash, r: Response, e: FileEntry, immutable: bool)
    ensures Matches(h, r, e, immutable) <==>
            r.Served? && r.immutable == immutable && h(r.data) == e.sha && |r.data| == e.size
  {
  }

  lemma ServedHasManifest(h: Hash, dirs: map<string, Release>, name: string)
    requires ServedDir(h, dirs, name)
    ensures name in dirs && dirs[name].manifest.Some?
  {
  }

  lemma ServedIsWhole(h: Hash, dirs: map<string, Release>, name: string)
    requires ServedDir(h, dirs, name)
    ensures Whole(h, dirs[name])
  {
    hide Whole;
  }

  lemma CurrentUrl(h: Hash, store: Store, slug: string, p: Path, e: FileEntry, json: Manifest -> string)
    requires Reachable(slug, p) && !(|p| >= 2 && p[0] == "releases") && e.path == Join(p)
    requires store.link.Some? && ServedDir(h, store.dirs, store.link.value) && Listed(store.dirs, store.link.value, e)
    ensures Matches(h, Get("/" + Join([slug] + p), slug, store, json), e, false)
  {
    NoBackslash(p);
    hide Whole, Route, ValidPath, SafePath, PublicPart, PublicChar, SafePart, ServedDir;
    assert Whole(h, store.dirs[store.link.value]) by { ServedIsWhole(h, store.dirs, store.link.value); }
    CurrentRoute(slug, p);
    ListedFile(h, store.dirs[store.link.value], p, e, json);
  }

  lemma ReleaseUrl(h: Hash, store: Store, number: nat, slug: string, p: Path, e: FileEntry, json: Manifest -> string)
    requires Reachable(slug, p) && e.path == Join(p)
    requires ServedDir(h, store.dirs, Decimal(number)) && Listed(store.dirs, Decimal(number), e)
    ensures Matches(h, Get("/" + Join([slug, "releases", Decimal(number)] + p), slug, store, json), e, true)
  {
    hide Whole, Route, ValidPath, SafePath;
    ReleaseRoute(slug, number, p);
    ListedFile(h, store.dirs[Decimal(number)], p, e, json);
    assert ([Decimal(number)] + p)[1..] == p;
  }

  lemma LinkAfterCommit(h: Hash, w: World, c: Client)
    requires Inv(h, w) && Step(h, w, c, Commit(true)).Some?
    ensures var store := Step(h, w, c, Commit(true)).value.store;
            store.link.Some? && ServedDir(h, store.dirs, store.link.value) && Recorded(store.db) == store.link
  {
    hide StoreOk, MarksOk, WorkOk, TreeRest, LinkRest, LockOk, Whole, PreviousOk;
    OwnerOnly(h, w, c);
  }

  /** Right after the commit of a publish or rollback, the project URL of every file that the manifest
      of the current revision lists serves that file. */
  lemma CurrentServesTheManifest(h: Hash, w: World, c: Client, slug: string, p: Path, e: FileEntry, json: Manifest -> string)
    requires Inv(h, w) && Step(h, w, c, Commit(true)).Some?
    requires Reachable(slug, p) && !(|p| >= 2 && p[0] == "releases") && e.path == Join(p)
    ensures var store := Step(h, w, c, Commit(true)).value.store;
            && Recorded(store.db).Some? && Recorded(store.db).value in store.dirs
            && store.dirs[Recorded(store.db).value].manifest.Some?
            && (e in store.dirs[Recorded(store.db).value].manifest.value.files ==>
                var r := Get("/" + Join([slug] + p), slug, store, json);
                r.Served? && !r.immutable && h(r.data) == e.sha && |r.data| == e.size)
  {
    LinkAfterCommit(h, w, c);
    var store := Step(h, w, c, Commit(true)).value.store;
    hide *;
    ServedHasManifest(h, store.dirs, Recorded(store.db).value);
    ListedMeans(store.dirs, Recorded(store.db).value, e);
    MatchesMeans(h, Get("/" + Join([slug] + p), slug, store, json), e, false);
    if Recorded(store.db).Some? && Listed(store.dirs, Recorded(store.db).value, e) {
      CurrentUrl(h, store, slug, p, e, json);
    }
  }

  lemma RestingLink(h: Hash, w: World)
    requires Inv(h, w) && w.lock.None? && !w.store.faulted
    ensures w.store.link == Recorded(w.store.db)
    ensures w.store.link.Some? ==> ServedDir(h, w.store.dirs, w.store.link.value)
  {
    hide StoreOk, MarksOk, WorkOk, TreeRest, LockOk, ServedDir, Recorded;
  }

  /** In every run, whenever nothing is at work and no compensating operation failed since the last
      commit, the project URLs serve the files of the current revision, and nothing without one. */
  lemma CurrentIsServedAtRest(h: Hash, start: World, moves: seq<Move>, slug: string, p: Path, e: FileEntry, json: Manifest -> string)
    requires Initial(start) && Run(h, start, moves).Some?
    requires Run(h, start, moves).value.lock.None? && !Run(h, start, moves).value.store.faulted
    requires Reachable(slug, p) && !(|p| >= 2 && p[0] == "releases") && e.path == Join(p)
    ensures var store := Run(h, start, moves).value.store;
            match Recorded(store.db)
            case None => Get("/" + Join([slug] + p), slug, store, json) == NotFound
            case Some(dir) =>
              && dir in store.dirs && store.dirs[dir].manifest.Some?
              && (e in store.dirs[dir].manifest.value.files ==>
                  var r := Get("/" + Join([slug] + p), slug, store, json);
                  r.Served? && !r.immutable && h(r.data) == e.sha && |r.data| == e.size)
  {
    InitialIsOk(h, start);
    RunKeeps(h, start, moves);
    var w := Run(h, start, moves).value;
    hide Run, Inv, Initial, Reachable, Listed, Matches, Recorded, ServedDir, Get, Route;
    RestingLink(h, w);
    if w.store.link.Some? {
      ServedHasManifest(h, w.store.dirs, w.store.link.value);
      ListedMeans(w.store.dirs, w.store.link.value, e);
      MatchesMeans(h, Get("/" + Join([slug] + p), slug, w.store, json), e, false);
      if Listed(w.store.dirs, w.store.link.value, e) {
        CurrentUrl(h, w.store, slug, p, e, json);
      }
    } else {
      NoLinkNoFile(slug, p, w.store, json);
    }
  }

  lemma NoLinkNoFile(slug: string, p: Path, store: Store, json: Manifest -> string)
    requires Reachable(slug, p) && !(|p| >= 2 && p[0] == "releases") && store.link.None?
    ensures Get("/" + Join([slug] + p), slug, store, json) == NotFound
  {
    hide Route, ValidPath, SafePath, PublicPart, RouteOf;
    NoBackslash(p);
    CurrentRoute(slug, p);
    NothingLinked(Route("/" + Join([slug] + p)), slug, p, store, json);
  }

  lemma NothingLinked(target: Target, slug: string, p: Path, store: Store, json: Manifest -> string)
    requires target == InCurrent(slug, p) && store.link.None?
    ensures OpenTarget(target, map[slug := store], map[], json).None?
  {
  }

  /** The URL of a root `revision.json` serves the printed manifest, whatever file the tree has there. */
  lemma ManifestUrl(slug: string, store: Store, json: Manifest -> string)
    requires PublicPart(slug) && slug != "." && slug != ".." && slug != "blobs"
    requires store.link.Some? && store.link.value in store.dirs && store.dirs[store.link.value].manifest.Some?
    ensures Get("/" + Join([slug, "revision.json"]), slug, store, json) ==
            Served(json(store.dirs[store.link.value].manifest.value), false)
  {
    ManifestPath();
    assert [slug] + ["revision.json"] == [slug, "revision.json"];
    CurrentRoute(slug, ["revision.json"]);
    hide Route, ValidPath, SafePath;
  }

  lemma ManifestPath()
    ensures ValidPath(["revision.json"]) && SafePath(["revision.json"])
  {
  }

  /** The release URL of a listed file serves it from the commit on, in every later world. */
  lemma ReleaseServesTheManifestForever(h: Hash, w: World, later: seq<Move>, i: nat, slug: string, p: Path, e: FileEntry,
                                        json: Manifest -> string)
    requires Inv(h, w) && Run(h, w, later).Some? && i < |w.store.db.rows|
    requires Reachable(slug, p) && e.path == Join(p)
    requires Decimal(i + 1) in w.store.dirs && w.store.dirs[Decimal(i + 1)].manifest.Some?
    requires e in w.store.dirs[Decimal(i + 1)].manifest.value.files
    ensures var r := Get("/" + Join([slug, "releases", Decimal(i + 1)] + p), slug, Run(h, w, later).value.store, json);
            r.Served? && r.immutable && h(r.data) == e.sha && |r.data| == e.size
  {
    hide *;
    ListedMeans(w.store.dirs, Decimal(i + 1), e);
    MatchesMeans(h, Get("/" + Join([slug, "releases", Decimal(i + 1)] + p), slug, Run(h, w, later).value.store, json), e, true);
    SameForever(h, w, later, i, e);
    ReleaseUrl(h, Run(h, w, later).value.store, i + 1, slug, p, e, json);
  }

  lemma SameForever(h: Hash, w: World, later: seq<Move>, i: nat, e: FileEntry)
    requires Inv(h, w) && Run(h, w, later).Some? && i < |w.store.db.rows|
    ensures var dirs, name := Run(h, w, later).value.store.dirs, Decimal(i + 1);
            ServedDir(h, dirs, name) && (Listed(w.store.dirs, name, e) ==> Listed(dirs, name, e))
  {
    hide Inv, Run, Whole, Decimal, AllDigits, Step;
    ReleasesAreImmutable(h, w, later);
    RowInside(h, w, i);
  }

  lemma RowInside(h: Hash, w: World, i: nat)
    requires Inv(h, w) && i < |w.store.db.rows|
    ensures ServedDir(h, w.store.dirs, Decimal(i + 1))
  {
    hide RowOk, HolderOk, LockOk, MarksOk, WorkOk;
    RowOfStore(h, w.store, i);
    RowNumber(h, w.store.dirs, w.store.db.rows[i], i + 1, w.store.marks[i].tree);
  }
}

/** The item rows rebuilt from an imported tree (service/internal/api/import_inventory.go,
    `syncImportedItems`). */
module Inventory {
  import opened Text
  import opened Paths
  import opened Trees
  import opened Quoting
  import opened Metadata

  datatype Item = Item(
    kind: string, provider: string, projectId: string, versionId: string, name: string, target: string,
    filename: string, side: string, sha: string)

  /** `importedKind`. */
  function Kind(rel: string): string {
    if "config/" <= rel || "defaultconfigs/" <= rel then "config"
    else if "kubejs/" <= rel then "kubejs"
    else if "datapacks/" <= rel then "datapack"
    else if "resourcepacks/" <= rel then "resourcepack"
    else "file"
  }

  predicate IsMetadata(tree: Tree, p: Path) {
    p in tree && tree[p].File? && HasSuffix(ToLower(Join(p)), ".pw.toml")
  }

  function MetaOf(tree: Tree, p: Path): Result<Meta>
    requires IsMetadata(tree, p)
  {
    Parsed(tree[p].data, Join(p))
  }

  /** Every metadata file can be read. */
  ghost predicate Readable(tree: Tree) {
    forall p | IsMetadata(tree, p) :: MetaOf(tree, p).Ok?
  }

  ghost predicate Referenced(tree: Tree, q: string) {
    exists p | IsMetadata(tree, p) && MetaOf(tree, p).Ok? :: MetaOf(tree, p).value.destination == q
  }

  /** A regular file that is an item of its own. */
  ghost predicate IsPlain(tree: Tree, p: Path) {
    && p in tree && tree[p].File? && !IsMetadata(tree, p)
    && Join(p) != "pack.toml" && Join(p) != "index.toml" && !(".git/" <= Join(p))
    && !Referenced(tree, Join(p))
  }

  function DataOf(tree: Tree, p: Path): string
    requires p in tree
  {
    match tree[p] case File(data) => data case Folder => ""
  }

  function MetaItem(meta: Meta): Item {
    Item("mod", meta.provider, meta.projectId, meta.versionId, meta.name, meta.path, meta.filename, meta.side, meta.sha)
  }

  function PlainItem(rel: string, data: string, digest: string -> string): Item {
    Item(Kind(rel), "local", "", "", Base(rel), rel, Base(rel), "both", digest(data))
  }

  /** The item of one path, if it has one. */
  ghost function ItemAt(tree: Tree, p: Path, digest: string -> string): Option<Item> {
    if IsMetadata(tree, p) then
      match MetaOf(tree, p) case Ok(meta) => Some(MetaItem(meta)) case Err => None
    else if IsPlain(tree, p) then Some(PlainItem(Join(p), DataOf(tree, p), digest))
    else None
  }

  /** The items are those of the paths, each exactly once. */
  ghost predicate Covers(tree: Tree, items: seq<Item>, digest: string -> string) {
    && (forall i, j | 0 <= i < j < |items| :: items[i].target != items[j].target)
    && (forall x :: x in items <==> exists p :: p in tree && ItemAt(tree, p, digest) == Some(x))
  }

  // ---- the two walks ----

  function Metas(tree: Tree, walk: seq<Path>): Result<seq<Meta>> {
    if walk == [] then Ok([])
    else
      var p := walk[|walk| - 1];
      match Metas(tree, walk[..|walk| - 1])
      case Err => Err
      case Ok(metas) =>
        if !IsMetadata(tree, p) then Ok(metas)
        else match MetaOf(tree, p) case Ok(meta) => Ok(metas + [meta]) case Err => Err
  }

  function MetaItems(metas: seq<Meta>): (items: seq<Item>)
    ensures |items| == |metas|
  {
    seq(|metas|, i requires 0 <= i < |metas| => MetaItem(metas[i]))
  }

  predicate Skipped(tree: Tree, p: Path, metadataPaths: set<string>, referenced: set<string>)
    requires p in tree
  {
    var rel := Join(p);
    tree[p].Folder? || rel == "pack.toml" || rel == "index.toml" || rel in metadataPaths || rel in referenced || ".git/" <= rel
  }

  function Plains(tree: Tree, walk: seq<Path>, metadataPaths: set<string>, referenced: set<string>,
                  digest: string -> string): seq<Item>
    requires forall p | p in walk :: p in tree
  {
    if walk == [] then []
    else
      var p := walk[|walk| - 1];
      assert p in walk;
      Plains(tree, walk[..|walk| - 1], metadataPaths, referenced, digest) +
      if Skipped(tree, p, metadataPaths, referenced) then [] else [PlainItem(Join(p), DataOf(tree, p), digest)]
  }

  /** It fails exactly when a metadata file cannot be read, and otherwise inserts one row for every
      metadata file and every plain file. */
  method SyncImportedItems(tree: Tree, walk: seq<Path>, digest: string -> string) returns (r: Result<seq<Item>>)
    requires ValidTree(tree) && WalksAll(walk, tree)
    ensures r.Ok? <==> forall p | p in tree && tree[p].File? && HasSuffix(ToLower(Join(p)), ".pw.toml") ::
                         Parsed(tree[p].data, Join(p)).Ok?
    ensures r.Ok? ==> Covers(tree, r.value, digest)
  {
    hide *;
    ReadableMeans(tree);
    ListedInTree(tree, walk);
    WholeWalk(tree, walk);
    var read := ReadMetadata(tree, walk);
    if read.Err? {
      return Err;
    }
    var metadata, metadataPaths, referenced := read.value.0, read.value.1, read.value.2;
    var items: seq<Item> := [];
    for i := 0 to |metadata|
      invariant |items| == i && forall k | 0 <= k < i :: items[k] == MetaItem(metadata[k])
    {
      items := items + [MetaItem(metadata[i])];
    }
    MetaItemsAre(items, metadata);
    var plain := PlainFiles(tree, walk, metadataPaths, referenced, digest);
    ItemsCover(tree, walk, metadata, metadataPaths, referenced, digest);
    r := Ok(items + plain);
  }

  method ReadMetadata(tree: Tree, walk: seq<Path>) returns (r: Result<(seq<Meta>, set<string>, set<string>)>)
    ensures r.Ok? <==> Metas(tree, walk).Ok?
    ensures r.Ok? ==> r.value.0 == Metas(tree, walk).value && PathsAndDestinations(r.value.0, r.value.1, r.value.2)
  {
    hide IsMetadata, MetaOf;
    var metadata: seq<Meta>, metadataPaths: set<string>, referenced: set<string> := [], {}, {};
    for i := 0 to |walk|
      invariant Metas(tree, walk[..i]) == Ok(metadata)
      invariant PathsAndDestinations(metadata, metadataPaths, referenced)
    {
      MetasStep(tree, walk, i);
      if IsMetadata(tree, walk[i]) {
        var meta := MetaOf(tree, walk[i]);
        if meta.Err? {
          MetasStop(tree, walk, i + 1);
          return Err;
        }
        metadata := metadata + [meta.value];
        metadataPaths := metadataPaths + {meta.value.path};
        referenced := referenced + {meta.value.destination};
      }
    }
    assert walk[..|walk|] == walk;
    r := Ok((metadata, metadataPaths, referenced));
  }

  ghost predicate PathsAndDestinations(metadata: seq<Meta>, metadataPaths: set<string>, referenced: set<string>) {
    && (forall q :: q in metadataPaths <==> exists m :: m in metadata && m.path == q)
    && (forall q :: q in referenced <==> exists m :: m in metadata && m.destination == q)
  }

  lemma MetasStep(tree: Tree, walk: seq<Path>, i: nat)
    requires i < |walk|
    ensures Metas(tree, walk[..i + 1]) ==
            match Metas(tree, walk[..i])
            case Err => Err
            case Ok(metas) =>
              if !IsMetadata(tree, walk[i]) then Ok(metas)
              else match MetaOf(tree, walk[i]) case Ok(meta) => Ok(metas + [meta]) case Err => Err
  {
    hide IsMetadata, MetaOf;
    assert walk[..i + 1][..i] == walk[..i];
  }

  lemma {:induction false} MetasStop(tree: Tree, walk: seq<Path>, i: nat)
    requires i <= |walk| && Metas(tree, walk[..i]).Err?
    ensures Metas(tree, walk).Err?
    decreases |walk| - i
  {
    if i < |walk| {
      MetasStep(tree, walk, i);
      MetasStop(tree, walk, i + 1);
    } else {
      assert walk[..i] == walk;
    }
  }

  method PlainFiles(tree: Tree, walk: seq<Path>, metadataPaths: set<string>, referenced: set<string>,
                    digest: string -> string) returns (items: seq<Item>)
    requires forall p | p in walk :: p in tree
    ensures items == Plains(tree, walk, metadataPaths, referenced, digest)
  {
    items := [];
    for i := 0 to |walk|
      invariant items == Plains(tree, walk[..i], metadataPaths, referenced, digest)
    {
      assert walk[..i + 1][..i] == walk[..i];
      var p := walk[i];
      var rel := Join(p);
      if tree[p].File? && rel != "pack.toml" && rel != "index.toml" && rel !in metadataPaths && rel !in referenced
         && !(".git/" <= rel) {
        items := items + [PlainItem(rel, DataOf(tree, p), digest)];
      }
    }
    assert walk[..|walk|] == walk;
  }

  lemma ReadableMeans(tree: Tree)
    ensures Readable(tree) <==> forall p | p in tree && tree[p].File? && HasSuffix(ToLower(Join(p)), ".pw.toml") ::
                                  Parsed(tree[p].data, Join(p)).Ok?
  {
    hide Parsed, Join, ToLower, HasSuffix;
    assert forall p | IsMetadata(tree, p) :: MetaOf(tree, p) == Parsed(tree[p].data, Join(p));
  }

  lemma ListedInTree(tree: Tree, walk: seq<Path>)
    requires WalksAll(walk, tree)
    ensures forall p | p in walk :: p in tree
  {
  }

  lemma MetaItemsAre(items: seq<Item>, metas: seq<Meta>)
    requires |items| == |metas| && forall k | 0 <= k < |items| :: items[k] == MetaItem(metas[k])
    ensures items == MetaItems(metas)
  {
  }

  // ---- every file in exactly one class ----

  lemma PathOfMeta(tree: Tree, p: Path)
    requires IsMetadata(tree, p) && MetaOf(tree, p).Ok?
    ensures MetaOf(tree, p).value.path == Join(p)
  {
    hide Utf8Length, StringField, Section, BareField, Clean, Folded;
  }

  /** What the first walk reads, in terms of the walked paths. */
  ghost predicate ReadFrom(tree: Tree, walk: seq<Path>, metas: seq<Meta>) {
    && (forall i, j | 0 <= i < j < |metas| :: metas[i].path != metas[j].path)
    && (forall m | m in metas :: exists p :: p in walk && IsMetadata(tree, p) && MetaOf(tree, p) == Ok(m))
    && (forall p | p in walk && IsMetadata(tree, p) :: MetaOf(tree, p).Ok? && MetaOf(tree, p).value in metas)
  }

  ghost predicate Distinct(walk: seq<Path>) {
    forall i, j | 0 <= i < j < |walk| :: walk[i] != walk[j]
  }

  lemma {:induction false} MetasAre(tree: Tree, walk: seq<Path>)
    requires ValidTree(tree) && Distinct(walk)
    ensures Metas(tree, walk).Ok? <==> forall p | p in walk && IsMetadata(tree, p) :: MetaOf(tree, p).Ok?
    ensures Metas(tree, walk).Ok? ==> ReadFrom(tree, walk, Metas(tree, walk).value)
  {
    hide IsMetadata, MetaOf;
    if walk != [] {
      var before, p := walk[..|walk| - 1], walk[|walk| - 1];
      assert forall i | 0 <= i < |before| :: before[i] == walk[i];
      MetasAre(tree, before);
      assert walk == before + [p];
      assert forall q :: q in walk <==> q in before || q == p;
      if Metas(tree, before).Ok? && IsMetadata(tree, p) && MetaOf(tree, p).Ok? {
        OneMoreMeta(tree, before, p, Metas(tree, before).value);
      }
    }
  }

  lemma OneMoreMeta(tree: Tree, before: seq<Path>, p: Path, metas: seq<Meta>)
    requires ValidTree(tree) && ReadFrom(tree, before, metas) && IsMetadata(tree, p) && MetaOf(tree, p).Ok?
    requires p !in before
    ensures ReadFrom(tree, before + [p], metas + [MetaOf(tree, p).value])
  {
    hide IsMetadata, MetaOf, ValidTree;
    var m := MetaOf(tree, p).value;
    forall i | 0 <= i < |metas|
      ensures metas[i].path != m.path
    {
      assert metas[i] in metas;
      var q :| q in before && IsMetadata(tree, q) && MetaOf(tree, q) == Ok(metas[i]);
      DifferentPaths(tree, p, q);
    }
    assert forall q :: q in before + [p] <==> q in before || q == p;
    assert forall x :: x in metas + [m] <==> x in metas || x == m;
  }

  lemma DifferentPaths(tree: Tree, p: Path, q: Path)
    requires ValidTree(tree) && p != q
    requires IsMetadata(tree, p) && MetaOf(tree, p).Ok? && IsMetadata(tree, q) && MetaOf(tree, q).Ok?
    ensures MetaOf(tree, p).value.path != MetaOf(tree, q).value.path
  {
    PathOfMeta(tree, p);
    PathOfMeta(tree, q);
    hide MetaOf;
    if Join(p) == Join(q) {
      JoinDecidesPath(p, q);
    }
  }

  /** The whole walk. */
  lemma WholeWalk(tree: Tree, walk: seq<Path>)
    requires ValidTree(tree) && WalksAll(walk, tree)
    ensures Metas(tree, walk).Ok? <==> Readable(tree)
    ensures Metas(tree, walk).Ok? ==> ReadFrom(tree, walk, Metas(tree, walk).value)
  {
    MetasAre(tree, walk);
    hide MetaOf, Metas;
    assert forall p | IsMetadata(tree, p) :: p in walk;
  }

  /** What the second walk inserts. */
  ghost predicate InsertedFrom(tree: Tree, walk: seq<Path>, metadataPaths: set<string>, referenced: set<string>,
                               digest: string -> string, items: seq<Item>) {
    && (forall i, j | 0 <= i < j < |items| :: items[i].target != items[j].target)
    && (forall x | x in items :: exists p ::
          p in walk && p in tree && !Skipped(tree, p, metadataPaths, referenced) && x == PlainItem(Join(p), DataOf(tree, p), digest))
    && (forall p | p in walk && p in tree && !Skipped(tree, p, metadataPaths, referenced) ::
          PlainItem(Join(p), DataOf(tree, p), digest) in items)
  }

  lemma {:induction false} PlainsAre(tree: Tree, walk: seq<Path>, metadataPaths: set<string>, referenced: set<string>,
                                     digest: string -> string)
    requires ValidTree(tree) && Distinct(walk) && forall p | p in walk :: p in tree
    ensures InsertedFrom(tree, walk, metadataPaths, referenced, digest, Plains(tree, walk, metadataPaths, referenced, digest))
  {
    hide Skipped, PlainItem, InsertedFrom;
    if walk == [] {
      NothingInserted(tree, metadataPaths, referenced, digest);
    } else {
      var before, p := walk[..|walk| - 1], walk[|walk| - 1];
      assert forall i | 0 <= i < |before| :: before[i] == walk[i];
      PlainsAre(tree, before, metadataPaths, referenced, digest);
      assert walk == before + [p];
      OneMorePlain(tree, before, p, metadataPaths, referenced, digest,
                   Plains(tree, before, metadataPaths, referenced, digest));
    }
  }

  lemma NothingInserted(tree: Tree, metadataPaths: set<string>, referenced: set<string>, digest: string -> string)
    ensures InsertedFrom(tree, [], metadataPaths, referenced, digest, [])
  {
  }

  lemma OneMorePlain(tree: Tree, before: seq<Path>, p: Path, metadataPaths: set<string>, referenced: set<string>,
                     digest: string -> string, items: seq<Item>)
    requires ValidTree(tree) && p in tree && p !in before
    requires InsertedFrom(tree, before, metadataPaths, referenced, digest, items)
    ensures InsertedFrom(tree, before + [p], metadataPaths, referenced, digest,
                         items + if Skipped(tree, p, metadataPaths, referenced) then []
                                 else [PlainItem(Join(p), DataOf(tree, p), digest)])
  {
    hide Skipped;
    var x := PlainItem(Join(p), "", digest);
    assert forall q :: q in before + [p] <==> q in before || q == p;
    forall i | 0 <= i < |items|
      ensures items[i].target != Join(p)
    {
      assert items[i] in items;
      var q :| q in before && q in tree && !Skipped(tree, q, metadataPaths, referenced)
               && items[i] == PlainItem(Join(q), DataOf(tree, q), digest);
      TargetOfPlain(Join(q), DataOf(tree, q), digest);
      if Join(q) == Join(p) {
        JoinDecidesPath(q, p);
      }
    }
    if !Skipped(tree, p, metadataPaths, referenced) {
      TargetOfPlain(Join(p), DataOf(tree, p), digest);
      hide PlainItem;
      var x := PlainItem(Join(p), DataOf(tree, p), digest);
      assert forall y :: y in items + [x] <==> y in items || y == x;
    }
  }

  lemma TargetOfPlain(rel: string, data: string, digest: string -> string)
    ensures PlainItem(rel, data, digest).target == rel
  {
  }

  /** The two sets of the first walk say what they should. */
  lemma SetsSayWhatTheyShould(tree: Tree, walk: seq<Path>, metas: seq<Meta>, metadataPaths: set<string>,
                              referenced: set<string>, p: Path)
    requires ValidTree(tree) && WalksAll(walk, tree) && Readable(tree) && ReadFrom(tree, walk, metas) && p in tree
    requires PathsAndDestinations(metas, metadataPaths, referenced)
    ensures Join(p) in metadataPaths <==> IsMetadata(tree, p)
    ensures Join(p) in referenced <==> Referenced(tree, Join(p))
  {
    hide MetaOf, IsMetadata, Join;
    if Join(p) in metadataPaths {
      var m :| m in metas && m.path == Join(p);
      var q :| q in walk && IsMetadata(tree, q) && MetaOf(tree, q) == Ok(m);
      PathOfMeta(tree, q);
      InTree(tree, q);
      JoinDecidesPath(p, q);
    }
    if IsMetadata(tree, p) {
      PathOfMeta(tree, p);
    }
    if Join(p) in referenced {
      var m :| m in metas && m.destination == Join(p);
      var q :| q in walk && IsMetadata(tree, q) && MetaOf(tree, q) == Ok(m);
      assert Referenced(tree, Join(p));
    }
    if Referenced(tree, Join(p)) {
      var q :| IsMetadata(tree, q) && MetaOf(tree, q).Ok? && MetaOf(tree, q).value.destination == Join(p);
      InTree(tree, q);
      assert MetaOf(tree, q).value in metas;
    }
  }

  lemma InTree(tree: Tree, q: Path)
    requires IsMetadata(tree, q)
    ensures q in tree
  {
  }

  lemma SkippedIsNotPlain(tree: Tree, walk: seq<Path>, metas: seq<Meta>, metadataPaths: set<string>,
                          referenced: set<string>, p: Path)
    requires ValidTree(tree) && WalksAll(walk, tree) && Readable(tree) && ReadFrom(tree, walk, metas) && p in tree
    requires PathsAndDestinations(metas, metadataPaths, referenced)
    ensures !Skipped(tree, p, metadataPaths, referenced) <==> IsPlain(tree, p)
  {
    SetsSayWhatTheyShould(tree, walk, metas, metadataPaths, referenced, p);
    hide IsMetadata, Referenced, Join;
  }

  /** The rows of both walks together. */
  lemma ItemsCover(tree: Tree, walk: seq<Path>, metas: seq<Meta>, metadataPaths: set<string>, referenced: set<string>,
                   digest: string -> string)
    requires ValidTree(tree) && WalksAll(walk, tree) && Readable(tree) && ReadFrom(tree, walk, metas)
    requires PathsAndDestinations(metas, metadataPaths, referenced)
    requires forall p | p in walk :: p in tree
    ensures Covers(tree, MetaItems(metas) + Plains(tree, walk, metadataPaths, referenced, digest), digest)
  {
    hide *;
    DistinctWalk(tree, walk);
    PlainsAre(tree, walk, metadataPaths, referenced, digest);
    var plains := Plains(tree, walk, metadataPaths, referenced, digest);
    forall p | p in tree
      ensures !Skipped(tree, p, metadataPaths, referenced) <==> IsPlain(tree, p)
    {
      SkippedIsNotPlain(tree, walk, metas, metadataPaths, referenced, p);
    }
    TargetsDiffer(tree, walk, metas, metadataPaths, referenced, digest, plains);
    EveryPathOnce(tree, walk, metas, metadataPaths, referenced, digest, plains);
    CoversIs(tree, MetaItems(metas) + plains, digest);
  }

  lemma DistinctWalk(tree: Tree, walk: seq<Path>)
    requires WalksAll(walk, tree)
    ensures Distinct(walk)
  {
  }

  lemma CoversIs(tree: Tree, items: seq<Item>, digest: string -> string)
    requires forall i, j | 0 <= i < j < |items| :: items[i].target != items[j].target
    requires forall x :: x in items <==> exists p :: p in tree && ItemAt(tree, p, digest) == Some(x)
    ensures Covers(tree, items, digest)
  {
    hide ItemAt;
  }

  lemma TargetsDiffer(tree: Tree, walk: seq<Path>, metas: seq<Meta>, metadataPaths: set<string>,
                      referenced: set<string>, digest: string -> string, plains: seq<Item>)
    requires ReadFrom(tree, walk, metas) && InsertedFrom(tree, walk, metadataPaths, referenced, digest, plains)
    requires forall p | p in tree :: !Skipped(tree, p, metadataPaths, referenced) <==> IsPlain(tree, p)
    requires ValidTree(tree)
    ensures var items := MetaItems(metas) + plains;
            forall i, j | 0 <= i < j < |items| :: items[i].target != items[j].target
  {
    hide IsPlain, Skipped, IsMetadata, MetaOf, PlainItem, Join;
    forall i, j | 0 <= i < |metas| && 0 <= j < |plains|
      ensures metas[i].path != plains[j].target
    {
      assert metas[i] in metas && plains[j] in plains;
      var q :| q in walk && IsMetadata(tree, q) && MetaOf(tree, q) == Ok(metas[i]);
      var p :| p in walk && p in tree && !Skipped(tree, p, metadataPaths, referenced)
               && plains[j] == PlainItem(Join(p), DataOf(tree, p), digest);
      PathOfMeta(tree, q);
      InTree(tree, q);
      TargetOfPlain(Join(p), DataOf(tree, p), digest);
      PlainIsNoMetadata(tree, p);
      if Join(p) == Join(q) {
        JoinDecidesPath(p, q);
      }
    }
    assert forall i | 0 <= i < |metas| :: MetaItems(metas)[i].target == metas[i].path;
  }

  lemma PlainIsNoMetadata(tree: Tree, p: Path)
    requires IsPlain(tree, p)
    ensures !IsMetadata(tree, p)
  {
  }

  lemma EveryPathOnce(tree: Tree, walk: seq<Path>, metas: seq<Meta>, metadataPaths: set<string>,
                      referenced: set<string>, digest: string -> string, plains: seq<Item>)
    requires WalksAll(walk, tree) && ReadFrom(tree, walk, metas)
    requires InsertedFrom(tree, walk, metadataPaths, referenced, digest, plains)
    requires forall p | p in tree :: !Skipped(tree, p, metadataPaths, referenced) <==> IsPlain(tree, p)
    ensures forall x :: x in MetaItems(metas) + plains <==> exists p :: p in tree && ItemAt(tree, p, digest) == Some(x)
  {
    hide IsPlain, Skipped, IsMetadata, MetaOf, PlainItem, MetaItem, ItemAt;
    forall x
      ensures x in MetaItems(metas) + plains <==> exists p :: p in tree && ItemAt(tree, p, digest) == Some(x)
    {
      if x in MetaItems(metas) + plains {
        if x in plains {
          var p :| p in walk && p in tree && !Skipped(tree, p, metadataPaths, referenced)
                   && x == PlainItem(Join(p), DataOf(tree, p), digest);
          ItemOfPlain(tree, p, digest);
        } else {
          var i :| 0 <= i < |metas| && x == MetaItem(metas[i]);
          assert metas[i] in metas;
          var p :| p in walk && IsMetadata(tree, p) && MetaOf(tree, p) == Ok(metas[i]);
          ItemOfMetadata(tree, p, digest);
        }
      }
      if p :| p in tree && ItemAt(tree, p, digest) == Some(x) {
        if IsMetadata(tree, p) {
          ItemOfMetadata(tree, p, digest);
          var i :| 0 <= i < |metas| && metas[i] == MetaOf(tree, p).value;
          assert MetaItems(metas)[i] == x;
        } else {
          ItemOfOther(tree, p, digest);
        }
      }
    }
  }

  lemma ItemOfPlain(tree: Tree, p: Path, digest: string -> string)
    requires IsPlain(tree, p)
    ensures p in tree && tree[p].File? && ItemAt(tree, p, digest) == Some(PlainItem(Join(p), DataOf(tree, p), digest))
  {
    hide PlainItem;
  }

  lemma ItemOfMetadata(tree: Tree, p: Path, digest: string -> string)
    requires IsMetadata(tree, p) && MetaOf(tree, p).Ok?
    ensures ItemAt(tree, p, digest) == Some(MetaItem(MetaOf(tree, p).value)) && p in tree
  {
    hide MetaItem, MetaOf;
  }

  lemma ItemOfOther(tree: Tree, p: Path, digest: string -> string)
    requires p in tree && !IsMetadata(tree, p) && ItemAt(tree, p, digest).Some?
    ensures IsPlain(tree, p) && tree[p].File? && ItemAt(tree, p, digest) == Some(PlainItem(Join(p), DataOf(tree, p), digest))
  {
    hide PlainItem, MetaItem, MetaOf;
  }

  // ---- uploads are found again ----

  lemma PlainIsNotReferenced(tree: Tree, q: Path, x: Item, digest: string -> string)
    requires q in tree && ItemAt(tree, q, digest) == Some(x)
    ensures x.kind == "mod" || !Referenced(tree, x.target)
  {
    hide MetaOf, Referenced, Kind, Join;
  }

  /** The metadata file of an upload becomes one item with every field that was uploaded, and the file it
      points at becomes no item of its own. */
  lemma UploadIsInventoried(tree: Tree, items: seq<Item>, digest: string -> string, p: Path, name: string, filename: string,
                            side: string, url: string, sha: string, printable: char -> bool)
    requires PrintsAscii(printable) && name != "" && filename != "" && ValidSide(side)
    requires IsMetadata(tree, p) && tree[p].data == FileText(name, filename, side, url, sha, printable)
    requires Utf8Length(tree[p].data) <= MAX_BYTES && Covers(tree, items, digest)
    ensures Item("mod", "local", "", "", name, Join(p), filename, side, sha) in items
    ensures forall x | x in items && x.target == Clean(Dir(Join(p)) + "/" + filename) :: x.kind == "mod"
  {
    hide FileText, Parsed, PrintsAscii, Utf8Length, ValidSide, Clean, Dir, Kind, Join, ToLower, HasSuffix;
    PrintedIsReadBack(name, filename, side, url, sha, Join(p), printable);
    var meta := MetaOf(tree, p).value;
    assert ItemAt(tree, p, digest) == Some(MetaItem(meta));
    assert Referenced(tree, meta.destination);
    forall x | x in items && x.target == meta.destination
      ensures x.kind == "mod"
    {
      var q :| q in tree && ItemAt(tree, q, digest) == Some(x);
      PlainIsNotReferenced(tree, q, x, digest);
    }
  }

  // ---- the classes by components ----

  lemma FolderPrefix(prefix: string, folder: string, p: Path)
    requires ValidPath(p) && '/' !in folder && prefix == folder + "/"
    ensures prefix <= Join(p) <==> |p| >= 2 && p[0] == folder
  {
    PrefixIsComponentPrefix(folder, Join(p));
    SplitOfPlain(folder);
    SplitOfJoin(p);
    hide Split, Join, ValidPath;
    assert [folder] < p <==> |p| >= 2 && p[0] == folder;
  }

  lemma FolderNames()
    ensures "config/" == "config" + "/" && '/' !in "config" && "kubejs/" == "kubejs" + "/" && '/' !in "kubejs"
    ensures "defaultconfigs/" == "defaultconfigs" + "/" && '/' !in "defaultconfigs"
    ensures "datapacks/" == "datapacks" + "/" && '/' !in "datapacks" && ".git/" == ".git" + "/" && '/' !in ".git"
    ensures "resourcepacks/" == "resourcepacks" + "/" && '/' !in "resourcepacks"
  {
  }

  lemma TopNames()
    ensures '/' !in "pack.toml" && '\0' !in "pack.toml" && '/' !in "index.toml" && '\0' !in "index.toml"
    ensures "pack.toml" != "" && "pack.toml" != "." && "pack.toml" != ".." && "index.toml" != "" && "index.toml" != "."
    ensures "index.toml" != ".."
  {
  }

  lemma TopName(name: string, p: Path)
    requires ValidPath(p) && '/' !in name && name != "" && name != "." && name != ".." && '\0' !in name
    ensures Join(p) == name <==> p == [name]
  {
    assert Join([name]) == name;
    if Join(p) == name {
      JoinDecidesPath(p, [name]);
    }
  }

  lemma LastOfPath(p: Path)
    requires ValidPath(p)
    ensures p != [] && Base(Join(p)) == p[|p| - 1] && '/' !in p[|p| - 1]
    ensures |p| == 1 ==> Join(p) == p[|p| - 1]
    ensures |p| > 1 ==> Join(p) == Join(p[..|p| - 1]) + "/" + p[|p| - 1]
  {
    PartsHaveNoSlash(p);
    BaseOfPath(p);
    JoinOfPath(p);
    hide *;
  }

  lemma BaseOfPath(p: Path)
    requires p != [] && forall c | c in p :: '/' !in c
    ensures Base(Join(p)) == p[|p| - 1]
  {
    hide Split, Join;
    SplitOfJoin(p);
  }

  lemma JoinOfPath(p: Path)
    requires p != []
    ensures |p| == 1 ==> Join(p) == p[|p| - 1]
    ensures |p| > 1 ==> Join(p) == Join(p[..|p| - 1]) + "/" + p[|p| - 1]
  {
    hide Join;
    if |p| == 1 {
      JoinOfOne(p[0]);
      assert p == [p[0]];
    } else {
      JoinFrontLast(p[..|p| - 1], p[|p| - 1]);
      FrontLast(p);
    }
  }

  lemma FrontLast(p: Path)
    requires p != []
    ensures p[..|p| - 1] + [p[|p| - 1]] == p
  {
  }

  lemma JoinFrontLast(front: Path, last: string)
    requires front != []
    ensures Join(front + [last]) == Join(front) + "/" + last
  {
    hide Join;
    JoinOfOne(last);
    JoinAppend(front, [last]);
  }

  lemma PartsHaveNoSlash(p: Path)
    requires ValidPath(p)
    ensures p != [] && (forall c | c in p :: '/' !in c) && '/' !in p[|p| - 1]
  {
    assert p[|p| - 1] in p;
  }

  lemma JoinOfOne(c: string)
    ensures Join([c]) == c
  {
  }

  lemma LastComponent(p: Path)
    requires ValidPath(p)
    ensures Base(Join(p)) == p[|p| - 1]
    ensures HasSuffix(ToLower(Join(p)), ".pw.toml") <==> HasSuffix(ToLower(p[|p| - 1]), ".pw.toml")
  {
    hide HasSuffix, ToLower, Join, Base;
    LastOfPath(p);
    if |p| > 1 {
      SuffixOfLast(Join(p[..|p| - 1]), p[|p| - 1]);
    }
  }

  lemma SuffixOfLast(dir: string, last: string)
    requires '/' !in last
    ensures HasSuffix(ToLower(dir + "/" + last), ".pw.toml") <==> HasSuffix(ToLower(last), ".pw.toml")
  {
    var whole := dir + "/" + last;
    assert forall k | 0 <= k < |last| :: ToLower(whole)[|dir| + 1 + k] == ToLower(last)[k];
    assert ToLower(whole)[|dir|] == '/';
    if |last| >= 8 {
      assert ToLower(whole)[|whole| - 8..] == ToLower(last)[|last| - 8..];
    } else if |whole| >= 8 {
      assert ToLower(whole)[|whole| - 8..][7 - |last|] == '/';
    }
  }

  /** The kind of a plain file, by its first folder. */
  lemma KindByFolder(p: Path)
    requires ValidPath(p)
    ensures Kind(Join(p)) ==
            if |p| < 2 then "file"
            else if p[0] == "config" || p[0] == "defaultconfigs" then "config"
            else if p[0] == "kubejs" then "kubejs"
            else if p[0] == "datapacks" then "datapack"
            else if p[0] == "resourcepacks" then "resourcepack"
            else "file"
  {
    hide Join, ValidPath;
    FolderNames();
    FolderPrefix("config/", "config", p);
    FolderPrefix("defaultconfigs/", "defaultconfigs", p);
    FolderPrefix("kubejs/", "kubejs", p);
    FolderPrefix("datapacks/", "datapacks", p);
    FolderPrefix("resourcepacks/", "resourcepacks", p);
  }

  lemma ClassesByComponents(tree: Tree, p: Path)
    requires ValidTree(tree) && p in tree && tree[p].File?
    ensures IsMetadata(tree, p) <==> HasSuffix(ToLower(p[|p| - 1]), ".pw.toml")
    ensures IsPlain(tree, p) <==>
            && !HasSuffix(ToLower(p[|p| - 1]), ".pw.toml") && p != ["pack.toml"] && p != ["index.toml"]
            && !(|p| >= 2 && p[0] == ".git") && !Referenced(tree, Join(p))
  {
    hide Join, Referenced, HasSuffix, ToLower;
    assert ValidPath(p);
    hide ValidPath;
    LastComponent(p);
    TopNames();
    TopName("pack.toml", p);
    TopName("index.toml", p);
    FolderNames();
    FolderPrefix(".git/", ".git", p);
  }

  /** What is imported, file by file and by the components of the path: a metadata file becomes a mod with the
      fields that were read; a file that is neither `pack.toml`, nor `index.toml`, nor below `.git`, nor what a
      metadata file points at becomes an item under its own name; and nothing else does. */
  lemma ItemsByComponents(tree: Tree, items: seq<Item>, digest: string -> string, p: Path)
    requires ValidTree(tree) && Readable(tree) && Covers(tree, items, digest) && p in tree && tree[p].File?
    ensures HasSuffix(ToLower(p[|p| - 1]), ".pw.toml") ==>
              && Parsed(tree[p].data, Join(p)).Ok?
              && var m := Parsed(tree[p].data, Join(p)).value;
                 Item("mod", m.provider, m.projectId, m.versionId, m.name, Join(p), m.filename, m.side, m.sha) in items
    ensures !HasSuffix(ToLower(p[|p| - 1]), ".pw.toml") ==>
              ((exists x :: x in items && x.target == Join(p)) <==>
               p != ["pack.toml"] && p != ["index.toml"] && !(|p| >= 2 && p[0] == ".git") && !Referenced(tree, Join(p)))
    ensures !HasSuffix(ToLower(p[|p| - 1]), ".pw.toml") && p != ["pack.toml"] && p != ["index.toml"]
            && !(|p| >= 2 && p[0] == ".git") && !Referenced(tree, Join(p)) ==>
              var kind := if |p| < 2 then "file"
                          else if p[0] == "config" || p[0] == "defaultconfigs" then "config"
                          else if p[0] == "kubejs" then "kubejs"
                          else if p[0] == "datapacks" then "datapack"
                          else if p[0] == "resourcepacks" then "resourcepack"
                          else "file";
              Item(kind, "local", "", "", p[|p| - 1], Join(p), p[|p| - 1], "both", digest(tree[p].data)) in items
  {
    ClassesByComponents(tree, p);
    KindByFolder(p);
    LastComponent(p);
    hide Referenced, HasSuffix, ToLower, Parsed, Kind, Join, Base, ValidPath;
    if IsMetadata(tree, p) {
      ItemOfMetadata(tree, p, digest);
      PathOfMeta(tree, p);
    } else if IsPlain(tree, p) {
      ItemOfPlain(tree, p, digest);
    } else {
      NoItemHere(tree, items, digest, p);
    }
  }

  lemma NoItemHere(tree: Tree, items: seq<Item>, digest: string -> string, p: Path)
    requires ValidTree(tree) && Covers(tree, items, digest) && p in tree && !IsMetadata(tree, p) && !IsPlain(tree, p)
    ensures forall x | x in items :: x.target != Join(p)
  {
    hide IsPlain, IsMetadata, Join;
    forall x | x in items
      ensures x.target != Join(p)
    {
      var q :| q in tree && ItemAt(tree, q, digest) == Some(x);
      TargetIsPath(tree, q, digest, x);
      if Join(q) == Join(p) {
        JoinDecidesPath(q, p);
        ItemNeedsClass(tree, p, digest);
      }
    }
  }

  lemma ItemNeedsClass(tree: Tree, p: Path, digest: string -> string)
    ensures ItemAt(tree, p, digest).Some? ==> IsMetadata(tree, p) || IsPlain(tree, p)
  {
    hide IsPlain, IsMetadata, PlainItem, MetaItem, MetaOf;
  }

  lemma TargetIsPath(tree: Tree, q: Path, digest: string -> string, x: Item)
    requires q in tree && ItemAt(tree, q, digest) == Some(x)
    ensures x.target == Join(q)
  {
    hide IsPlain, Kind, Join, Base;
    if IsMetadata(tree, q) && MetaOf(tree, q).Ok? {
      PathOfMeta(tree, q);
    }
    hide MetaOf, IsMetadata;
  }
}

/** Directory trees: every entry below a root, by path components. */
module Trees {
  import opened Text
  import opened Paths

  datatype Entry = File(data: string) | Folder

  type Path = seq<string>

  type Tree = map<Path, Entry>

  /** Names the filesystem can hold, so no separator, no NUL, no `.` or `..`. */
  predicate ValidPath(p: Path) {
    p != [] && Plain(p) && forall c | c in p :: '\0' !in c
  }

  predicate ValidTree(t: Tree) {
    forall p | p in t :: ValidPath(p)
  }

  lemma JoinDecidesPath(p: Path, q: Path)
    requires ValidPath(p) && ValidPath(q) && Join(p) == Join(q)
    ensures p == q
  {
    SplitOfJoin(p);
    SplitOfJoin(q);
  }

  /** The files Packwiz rewrites when it refreshes a modpack. */
  const PACK_FILES: set<Path> := {["pack.toml"], ["index.toml"]}

  /** Equal trees apart from `pack.toml` and `index.toml`. */
  ghost predicate SameContent(a: Tree, b: Tree) {
    a - PACK_FILES == b - PACK_FILES
  }

  /** Every other path is in both or in neither, with the same entry. */
  lemma SameContentMeans(a: Tree, b: Tree)
    ensures SameContent(a, b) <==>
            forall p | p != ["pack.toml"] && p != ["index.toml"] :: (p in a <==> p in b) && (p in a ==> a[p] == b[p])
  {
    forall p | p != ["pack.toml"] && p != ["index.toml"]
      ensures p in a <==> p in a - PACK_FILES
      ensures p in b <==> p in b - PACK_FILES
      ensures p in a ==> (a - PACK_FILES)[p] == a[p]
      ensures p in b ==> (b - PACK_FILES)[p] == b[p]
    {
    }
    if SameContent(a, b) {
      assert a - PACK_FILES == b - PACK_FILES;
    }
    if forall p | p != ["pack.toml"] && p != ["index.toml"] :: (p in a <==> p in b) && (p in a ==> a[p] == b[p]) {
      assert forall p | p in a - PACK_FILES :: p in b - PACK_FILES && (a - PACK_FILES)[p] == (b - PACK_FILES)[p];
      assert forall p | p in b - PACK_FILES :: p in a - PACK_FILES;
    }
  }

  /** A walk lists every path of the tree once, in some order. */
  ghost predicate WalksAll(walk: seq<Path>, tree: Tree) {
    && (forall p :: p in walk <==> p in tree)
    && (forall i, j | 0 <= i < j < |walk| :: walk[i] != walk[j])
  }
}

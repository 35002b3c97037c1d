/** Deleting a folder (service/internal/api/folder_delete.go): rows by string prefix, files by
    subtree, in one edit. */
module Folders {
  import opened Text
  import opened Paths
  import opened Trees
  import opened Workspace

  datatype Item = Item(kind: string, target: string)

  /** The item rows of one project, by id. */
  type Items = map<string, Item>

  const CLIENT_FILES := "client-files"

  const MANAGED_ROOTS := ["config", "defaultconfigs", "kubejs", "datapacks", "resourcepacks", CLIENT_FILES]

  predicate Within(root: string, s: string) {
    s == root || root + "/" <= s
  }

  /** `normalizeManagedTreePath`. */
  method NormalizeTreePath(value: string) returns (r: Result<string>)
    ensures r == if TrimSpace(value) == "" then Ok("")
                 else match SafeRelative(TrimSpace(value))
                   case Err => Err
                   case Ok(rel) =>
                     if Split(rel)[0] in ["config", "defaultconfigs", "kubejs", "datapacks", "resourcepacks", "client-files"]
                     then Ok(rel) else Err
  {
    hide SafeRelative, TrimSpace, Within, Managed, Split;
    if SafeRelative(TrimSpace(value)).Ok? {
      ManagedRoots(Split(SafeRelative(TrimSpace(value)).value));
    }
    var trimmed := TrimSpace(value);
    if trimmed == "" {
      return Ok("");
    }
    var rel := SafeRelative(trimmed);
    if rel.Err? {
      return Err;
    }
    ManagedByPrefix(rel.value);
    var i := 0;
    while i < |MANAGED_ROOTS|
      invariant 0 <= i <= |MANAGED_ROOTS|
      invariant forall k | 0 <= k < i :: !Within(MANAGED_ROOTS[k], rel.value)
    {
      if Within(MANAGED_ROOTS[i], rel.value) {
        return rel;
      }
      i := i + 1;
    }
    r := Err;
  }

  /** The first component names one of the managed roots. */
  predicate Managed(p: Path) {
    p != [] && p[0] in MANAGED_ROOTS
  }

  lemma ManagedRoots(p: Path)
    requires p != []
    ensures Managed(p) <==> p[0] in ["config", "defaultconfigs", "kubejs", "datapacks", "resourcepacks", "client-files"]
    ensures Managed(p) && p[0] != CLIENT_FILES <==> p[0] in ["config", "defaultconfigs", "kubejs", "datapacks", "resourcepacks"]
  {
    assert "config"[1] == 'o' && "client-files"[1] == 'l';
  }

  /** The equality-or-prefix test decides component containment, for every pair of strings. */
  lemma WithinIsContainment(dir: string, s: string)
    ensures Within(dir, s) <==> Split(dir) <= Split(s)
  {
    PrefixIsComponentPrefix(dir, s);
    if Split(dir) == Split(s) {
      SplitInjective(dir, s);
    }
  }

  lemma RootHasNoSlash(k: nat)
    requires k < |MANAGED_ROOTS|
    ensures '/' !in MANAGED_ROOTS[k]
  {
    if k == 0 {
      assert MANAGED_ROOTS[k] == "config";
    } else if k == 1 {
      assert MANAGED_ROOTS[k] == "defaultconfigs";
    } else if k == 2 {
      assert MANAGED_ROOTS[k] == "kubejs";
    } else if k == 3 {
      assert MANAGED_ROOTS[k] == "datapacks";
    } else if k == 4 {
      assert MANAGED_ROOTS[k] == "resourcepacks";
    }
  }

  lemma WithinRoot(root: string, s: string)
    requires '/' !in root
    ensures Within(root, s) <==> Split(s)[0] == root
  {
    SplitOfPlain(root);
    WithinIsContainment(root, s);
    assert Split(s)[..1] == [Split(s)[0]];
  }

  lemma ManagedByPrefix(rel: string)
    ensures Managed(Split(rel)) <==> exists k | 0 <= k < |MANAGED_ROOTS| :: Within(MANAGED_ROOTS[k], rel)
  {
    hide Within;
    forall k | 0 <= k < |MANAGED_ROOTS|
      ensures Within(MANAGED_ROOTS[k], rel) <==> Split(rel)[0] == MANAGED_ROOTS[k]
    {
      RootHasNoSlash(k);
      WithinRoot(MANAGED_ROOTS[k], rel);
    }
  }

  lemma CleanIsNotEmpty(value: string)
    requires SafeRelative(value).Ok?
    ensures SafeRelative(value).value != ""
  {
    SafeRelativeIsCanonical(value, []);
    assert Split("") == [""];
  }

  lemma NothingIsSafe()
    ensures SafeRelative("").Err?
  {
  }

  /** `normalizeManagedFolderDeletePath`. */
  method NormalizeFolder(value: string) returns (r: Result<string>)
    ensures r == match SafeRelative(TrimSpace(value))
                 case Err => Err
                 case Ok(rel) =>
                   if Split(rel)[0] in ["config", "defaultconfigs", "kubejs", "datapacks", "resourcepacks"] then Ok(rel) else Err
  {
    hide SafeRelative, TrimSpace, Within, Managed, Split;
    if SafeRelative(TrimSpace(value)).Ok? {
      ManagedRoots(Split(SafeRelative(TrimSpace(value)).value));
    } else if TrimSpace(value) == "" {
      return Err;
    }
    NothingIsSafe();
    var rel := NormalizeTreePath(value);
    if rel.Err? {
      return Err;
    }
    if rel.value == "" {
      if SafeRelative(TrimSpace(value)).Ok? {
        CleanIsNotEmpty(TrimSpace(value));
      }
      return Err;
    }
    WithinRoot(CLIENT_FILES, rel.value);
    if Within(CLIENT_FILES, rel.value) {
      return Err;
    }
    r := rel;
  }

  /** `DELETE FROM items WHERE ... kind<>'mod' AND (target_path=? OR instr(target_path,?)=1)`. */
  function DeleteRows(items: Items, rel: string): Items {
    map id | id in items && !(items[id].kind != "mod" && Within(rel, items[id].target)) :: items[id]
  }

  /** `os.RemoveAll`. */
  function DeleteTree(tree: Tree, p: Path): Tree {
    map q | q in tree && !(p <= q) :: tree[q]
  }

  /** The callback of `removeFolder`; `refresh` is the Packwiz run. */
  function FolderEdit(p: Path, refresh: Tree -> (bool, Tree)): Edit<Items> {
    (tree: Tree, pending: Items) =>
      if p !in tree || !tree[p].Folder? then Applied(false, Some(tree), pending)
      else var after := refresh(DeleteTree(tree, p)); Applied(after.0, Some(after.1), pending)
  }

  /** Packwiz rewrites only `pack.toml` and `index.toml`. */
  ghost predicate RefreshesPackFiles(refresh: Tree -> (bool, Tree)) {
    forall t :: SameContent(t, refresh(t).1)
  }

  /** Rows and files beneath the folder, and nothing else. */
  ghost predicate FolderGone(p: Path, before: Tree, after: Tree, rows: Items, left: Items) {
    && (forall q | q in after :: !(p <= q))
    && (forall q | q !in PACK_FILES && !(p <= q) :: (q in after <==> q in before) && (q in before ==> after[q] == before[q]))
    && (forall id :: id in left <==> id in rows && !(rows[id].kind != "mod" && p <= Split(rows[id].target)))
    && (forall id | id in left :: left[id] == rows[id])
  }

  /** `removeFolder`, from the query to the response. */
  method RemoveFolder(project: Project<Items>, value: string, refresh: Tree -> (bool, Tree), begin: bool, faults: Faults)
    returns (outcome: Outcome)
    requires RefreshesPackFiles(refresh)
    modifies project
    ensures outcome.Done? <==>
              && SafeRelative(TrimSpace(value)).Ok? && old(project.tree).Some? && begin
              && var p, tree := Split(SafeRelative(TrimSpace(value)).value), old(project.tree).value;
                 && p[0] in ["config", "defaultconfigs", "kubejs", "datapacks", "resourcepacks"]
                 && p in tree && tree[p].Folder?
                 && refresh(map q | q in tree && !(p <= q) :: tree[q]).0
                 && !faults.lookup && !faults.tempDir && !faults.copy && !faults.commit
    ensures !outcome.Refused? <==>
              && SafeRelative(TrimSpace(value)).Ok? && old(project.tree).Some? && begin
              && var p, tree := Split(SafeRelative(TrimSpace(value)).value), old(project.tree).value;
                 && p[0] in ["config", "defaultconfigs", "kubejs", "datapacks", "resourcepacks"]
                 && p in tree && tree[p].Folder?
                 && !faults.lookup && !faults.tempDir && !faults.copy
    ensures outcome.Done? ==>
              && SafeRelative(TrimSpace(value)).Ok? && old(project.tree).Some? && project.tree.Some?
              && var p, before, after := Split(SafeRelative(TrimSpace(value)).value), old(project.tree).value, project.tree.value;
                 && (forall q | q in after :: !(p <= q))
                 && (forall q | q != ["pack.toml"] && q != ["index.toml"] && !(p <= q) ::
                       (q in after <==> q in before) && (q in before ==> after[q] == before[q]))
    ensures outcome.Done? ==>
              && SafeRelative(TrimSpace(value)).Ok?
              && var p, before := Split(SafeRelative(TrimSpace(value)).value), old(project.rows);
                 && (forall id :: id in project.rows <==> id in before && !(before[id].kind != "mod" && p <= Split(before[id].target)))
                 && (forall id | id in project.rows :: project.rows[id] == before[id])
    ensures outcome.Refused? || outcome.RolledBack? ==> project.tree == old(project.tree) && project.rows == old(project.rows)
    ensures !outcome.Done? ==> project.rows == old(project.rows)
    ensures !outcome.Done? && UndoWorks(old(project.failed), faults) ==> outcome.Refused? || outcome.RolledBack?
  {
    hide SafeRelative, TrimSpace, Split, Managed, DeleteRows;
    var rel := NormalizeFolder(value);
    if rel.Err? {
      return Refused;
    }
    var p := Split(rel.value);
    ManagedRoots(p);
    assert project.tree.Some? ==>
           DeleteTree(project.tree.value, p) == map q | q in project.tree.value && !(p <= q) :: project.tree.value[q];
    if project.tree.None? || p !in project.tree.value || !project.tree.value[p].Folder? || !begin {
      return Refused;
    }
    ghost var before, rows := project.tree.value, project.rows;
    var pending := DeleteRows(project.rows, rel.value);
    outcome := project.MutateAndCommit(pending, FolderEdit(p, refresh), faults);
    if outcome.Done? {
      OnlyTheFolder(p, rel.value, before, refresh, rows);
    }
  }

  lemma OnlyTheFolder(p: Path, rel: string, before: Tree, refresh: Tree -> (bool, Tree), rows: Items)
    requires p == Split(rel) && Managed(p) && RefreshesPackFiles(refresh)
    ensures FolderGone(p, before, refresh(DeleteTree(before, p)).1, rows, DeleteRows(rows, rel))
  {
    var cut, after := DeleteTree(before, p), refresh(DeleteTree(before, p)).1;
    assert SameContent(cut, after);
    forall q | q !in PACK_FILES
      ensures (q in after <==> q in cut) && (q in cut ==> after[q] == cut[q])
    {
      assert q in after - PACK_FILES <==> q in cut - PACK_FILES;
    }
    forall q | p <= q
      ensures q !in PACK_FILES && q !in after
    {
      assert q[0] == p[0];
    }
    forall id | id in rows
      ensures Within(rel, rows[id].target) <==> p <= Split(rows[id].target)
    {
      WithinIsContainment(rel, rows[id].target);
    }
  }
}

/** Comparing two revisions (service/internal/revisions/diff.go). */
module Diff {
  import opened Digest

  datatype Change = Change(path: string, before: string, after: string)

  datatype Diff = Diff(added: seq<Change>, removed: seq<Change>, changed: seq<Change>)

  type Hashes = map<string, string>

  /** The map that the loops fill: a later entry for a path wins. */
  function HashesOf(files: seq<FileEntry>): Hashes {
    if files == [] then map[]
    else var f := files[|files| - 1]; HashesOf(files[..|files| - 1])[f.path := f.sha]
  }

  /** The map knows the listed paths, each with the hash of its last entry. */
  lemma {:induction false} HashesOfLast(files: seq<FileEntry>, p: string)
    ensures p in HashesOf(files) <==> exists i | 0 <= i < |files| :: files[i].path == p
    ensures forall i | 0 <= i < |files| && files[i].path == p && (forall j | i < j < |files| :: files[j].path != p) ::
              HashesOf(files)[p] == files[i].sha
  {
    if files != [] {
      var before := files[..|files| - 1];
      HashesOfLast(before, p);
      assert forall i | 0 <= i < |before| :: before[i] == files[i];
    }
  }

  predicate DistinctPaths(list: seq<Change>) {
    forall i, j | 0 <= i < j < |list| :: list[i].path != list[j].path
  }

  predicate IsAdded(a: Hashes, b: Hashes, c: Change) {
    c.path in b && c.path !in a && c.before == "" && c.after == b[c.path]
  }

  predicate IsRemoved(a: Hashes, b: Hashes, c: Change) {
    c.path in a && c.path !in b && c.before == a[c.path] && c.after == ""
  }

  predicate IsChanged(a: Hashes, b: Hashes, c: Change) {
    c.path in a && c.path in b && c.before == a[c.path] && c.after == b[c.path] && a[c.path] != b[c.path]
  }

  /** The three lists, each change once, in any order. */
  ghost predicate IsDiff(a: Hashes, b: Hashes, d: Diff) {
    && DistinctPaths(d.added) && DistinctPaths(d.removed) && DistinctPaths(d.changed)
    && (forall c :: c in d.added <==> IsAdded(a, b, c))
    && (forall c :: c in d.removed <==> IsRemoved(a, b, c))
    && (forall c :: c in d.changed <==> IsChanged(a, b, c))
  }

  /** `Compare`; a map is ranged over in any order. */
  method Compare(before: seq<FileEntry>, after: seq<FileEntry>) returns (d: Diff)
    ensures IsDiff(HashesOf(before), HashesOf(after), d)
  {
    var prior := Fill(before);
    var next := Fill(after);
    var added, changed := AddedAndChanged(prior, next);
    var removed := Removed(prior, next);
    d := Diff(added, removed, changed);
  }

  method Fill(files: seq<FileEntry>) returns (m: Hashes)
    ensures m == HashesOf(files)
  {
    m := map[];
    for i := 0 to |files|
      invariant m == HashesOf(files[..i])
    {
      assert files[..i + 1][..i] == files[..i];
      m := m[files[i].path := files[i].sha];
    }
    assert files[..|files|] == files;
  }

  method AddedAndChanged(prior: Hashes, next: Hashes) returns (added: seq<Change>, changed: seq<Change>)
    ensures DistinctPaths(added) && DistinctPaths(changed)
    ensures forall c :: c in added <==> IsAdded(prior, next, c)
    ensures forall c :: c in changed <==> IsChanged(prior, next, c)
  {
    added, changed := [], [];
    var left := next.Keys;
    while left != {}
      invariant left <= next.Keys
      invariant DistinctPaths(added) && DistinctPaths(changed)
      invariant forall c :: c in added <==> IsAdded(prior, next, c) && c.path !in left
      invariant forall c :: c in changed <==> IsChanged(prior, next, c) && c.path !in left
    {
      var path :| path in left;
      if path !in prior {
        added := added + [Change(path, "", next[path])];
      } else if prior[path] != next[path] {
        changed := changed + [Change(path, prior[path], next[path])];
      }
      left := left - {path};
    }
  }

  method Removed(prior: Hashes, next: Hashes) returns (removed: seq<Change>)
    ensures DistinctPaths(removed)
    ensures forall c :: c in removed <==> IsRemoved(prior, next, c)
  {
    removed := [];
    var left := prior.Keys;
    while left != {}
      invariant left <= prior.Keys
      invariant DistinctPaths(removed)
      invariant forall c :: c in removed <==> IsRemoved(prior, next, c) && c.path !in left
    {
      var path :| path in left;
      if path !in next {
        removed := removed + [Change(path, prior[path], "")];
      }
      left := left - {path};
    }
  }

  // ---- what a diff is for ----

  function Delete(m: Hashes, list: seq<Change>): Hashes
    decreases |list|
  {
    if list == [] then m else Delete(m - {list[0].path}, list[1..])
  }

  function Write(m: Hashes, list: seq<Change>): Hashes
    decreases |list|
  {
    if list == [] then m else Write(m[list[0].path := list[0].after], list[1..])
  }

  /** Applying a diff: delete the removed paths, then write the added and the changed ones. */
  function Apply(m: Hashes, d: Diff): Hashes {
    Write(Write(Delete(m, d.removed), d.added), d.changed)
  }

  lemma {:induction false} DeleteIsPointwise(m: Hashes, list: seq<Change>, p: string)
    ensures p in Delete(m, list) <==> p in m && forall c | c in list :: c.path != p
    ensures p in Delete(m, list) ==> Delete(m, list)[p] == m[p]
    decreases |list|
  {
    if list != [] {
      DeleteIsPointwise(m - {list[0].path}, list[1..], p);
      assert list == [list[0]] + list[1..];
    }
  }

  lemma {:induction false} WriteIsPointwise(m: Hashes, list: seq<Change>, p: string)
    requires DistinctPaths(list)
    ensures p in Write(m, list) <==> p in m || exists c :: c in list && c.path == p
    ensures (forall c | c in list :: c.path != p) && p in m ==> Write(m, list)[p] == m[p]
    ensures forall c | c in list && c.path == p :: Write(m, list)[p] == c.after
    decreases |list|
  {
    if list != [] {
      var rest := list[1..];
      WriteIsPointwise(m[list[0].path := list[0].after], rest, p);
      assert list == [list[0]] + rest;
      assert forall c | c in rest :: c.path != list[0].path;
    }
  }

  /** Applying the diff of `a` and `b` to `a` gives `b`. */
  lemma DiffLeadsFromOneToTheOther(a: Hashes, b: Hashes, d: Diff)
    requires IsDiff(a, b, d)
    ensures Apply(a, d) == b
  {
    var deleted := Delete(a, d.removed);
    var written := Write(deleted, d.added);
    forall p
      ensures p in Apply(a, d) <==> p in b
      ensures p in b ==> Apply(a, d)[p] == b[p]
    {
      DeleteIsPointwise(a, d.removed, p);
      WriteIsPointwise(deleted, d.added, p);
      WriteIsPointwise(written, d.changed, p);
      if p in a && p in b && a[p] != b[p] {
        assert Change(p, a[p], b[p]) in d.changed;
      } else if p in a && p !in b {
        assert Change(p, a[p], "") in d.removed;
      } else if p !in a && p in b {
        assert Change(p, "", b[p]) in d.added;
      }
    }
  }

  /** No path is in two of the lists, and the lists are empty exactly when nothing differs. */
  lemma ListsAreDisjoint(a: Hashes, b: Hashes, d: Diff)
    requires IsDiff(a, b, d)
    ensures forall c, e | c in d.added && e in d.removed :: c.path != e.path
    ensures forall c, e | c in d.changed && (e in d.added || e in d.removed) :: c.path != e.path
    ensures d == Diff([], [], []) <==> a == b
  {
    if d == Diff([], [], []) {
      DiffLeadsFromOneToTheOther(a, b, d);
    }
    if a == b {
      NonemptyHasAnElement(d.added);
      NonemptyHasAnElement(d.removed);
      NonemptyHasAnElement(d.changed);
    }
  }

  lemma NonemptyHasAnElement(s: seq<Change>)
    ensures s != [] ==> exists c :: c in s
  {
    assert s != [] ==> s[0] in s;
  }

  function Turned(list: seq<Change>): seq<Change> {
    seq(|list|, i requires 0 <= i < |list| => Change(list[i].path, list[i].after, list[i].before))
  }

  /** Comparing the other way round swaps added with removed, and before with after. */
  lemma DiffOfSwapped(a: Hashes, b: Hashes, d: Diff)
    requires IsDiff(a, b, d)
    ensures IsDiff(b, a, Diff(Turned(d.removed), Turned(d.added), Turned(d.changed)))
  {
    TurnedHas(d.added);
    TurnedHas(d.removed);
    TurnedHas(d.changed);
    hide Turned;
  }

  lemma TurnedHas(list: seq<Change>)
    ensures DistinctPaths(list) ==> DistinctPaths(Turned(list))
    ensures forall c: Change :: c in Turned(list) <==> Change(c.path, c.after, c.before) in list
  {
    forall c: Change
      ensures c in Turned(list) <==> Change(c.path, c.after, c.before) in list
    {
      if Change(c.path, c.after, c.before) in list {
        var i :| 0 <= i < |list| && list[i] == Change(c.path, c.after, c.before);
        assert Turned(list)[i] == c;
      }
    }
  }

  /** The order in which the maps are ranged over changes only the order of the lists. */
  lemma DiffIsUniqueUpToOrder(a: Hashes, b: Hashes, d: Diff, e: Diff)
    requires IsDiff(a, b, d) && IsDiff(a, b, e)
    ensures multiset(d.added) == multiset(e.added)
    ensures multiset(d.removed) == multiset(e.removed)
    ensures multiset(d.changed) == multiset(e.changed)
  {
    SameElements(d.added, e.added);
    SameElements(d.removed, e.removed);
    SameElements(d.changed, e.changed);
  }

  lemma SameElements(s: seq<Change>, t: seq<Change>)
    requires DistinctPaths(s) && DistinctPaths(t) && forall c :: c in s <==> c in t
    ensures multiset(s) == multiset(t)
  {
    forall c
      ensures multiset(s)[c] == multiset(t)[c]
    {
      CountsOnce(s, c);
      CountsOnce(t, c);
    }
  }

  lemma {:induction false} CountsOnce(s: seq<Change>, c: Change)
    requires DistinctPaths(s)
    ensures multiset(s)[c] == if c in s then 1 else 0
  {
    if s != [] {
      CountsOnce(s[1..], c);
      assert s == [s[0]] + s[1..];
    }
  }
}

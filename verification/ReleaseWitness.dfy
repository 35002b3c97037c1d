/** Runs of the release store in which an edit fails, its undo fails too, and the next publish
    releases the half-applied tree. */
module ReleaseWitness {
  import opened Text
  import opened Digest
  import opened Trees
  import opened Releases
  import opened ReleaseSafety
  import opened ReleaseTheorems
  import opened Publisher

  /** A project as it is created with the tree `t`. */
  function Created(t: Tree): World {
    World(None, None, map[], Work(Some(t), t, [t], Intact), Store(map[], None, Db([], None), [], false))
  }

  ghost predicate Reached(h: Hash, from: World, w: World) {
    exists moves :: Run(h, from, moves) == Some(w)
  }

  /** Client 0 alone, at `pc`. */
  function At(pc: Pc, locked: bool, writing: bool, work: Work, store: Store): World {
    World(if locked then Some(0) else None, if writing then Some(0) else None, map[0 := pc], work, store)
  }

  lemma Goes(h: Hash, from: World, w: World, a: Action, next: World)
    requires Reached(h, from, w) && w.pcs.Keys <= {0} && next.pcs == map[0 := PcOf(next, 0)]
    requires Step(h, w, 0, a) == Some(next.(pcs := w.pcs[0 := PcOf(next, 0)]))
    ensures Reached(h, from, next)
  {
    hide Step;
    assert w.pcs[0 := PcOf(next, 0)] == next.pcs;
    var moves :| Run(h, from, moves) == Some(w);
    RunConcat(h, from, moves, [Move(0, a)]);
    RunOne(h, w, Move(0, a));
  }

  lemma Prepares(h: Hash, from: World, w: World, a: Action, next: World)
    requires Reached(h, from, w) && w.pcs.Keys <= {0} && next.pcs == map[0 := PcOf(next, 0)]
    requires PublishStep(h, w, 0, a) == Some(next.(pcs := w.pcs[0 := PcOf(next, 0)]))
    ensures Reached(h, from, next)
  {
    hide PublishStep, Reached;
    StepIsPublish(h, w, 0, a);
    Goes(h, from, w, a, next);
  }

  lemma Switches(h: Hash, from: World, w: World, a: Action, next: World)
    requires Reached(h, from, w) && w.pcs.Keys <= {0} && next.pcs == map[0 := PcOf(next, 0)]
    requires SwitchStep(w, 0, a) == Some(next.(pcs := w.pcs[0 := PcOf(next, 0)]))
    ensures Reached(h, from, next)
  {
    hide SwitchStep, Reached;
    StepIsSwitch(h, w, 0, a);
    Goes(h, from, w, a, next);
  }

  lemma Edits(h: Hash, from: World, w: World, a: Action, next: World)
    requires Reached(h, from, w) && w.pcs.Keys <= {0} && next.pcs == map[0 := PcOf(next, 0)]
    requires a.Begin? || a.Enter? || a.Backup? || a.Edit? || a.Fail? || a.MoveAway? || a.Keep? || a.Restore? || a.Leave? || a.Finish?
    requires EditStep(w, 0, a) == Some(next.(pcs := w.pcs[0 := PcOf(next, 0)]))
    ensures Reached(h, from, next)
  {
    hide EditStep, Reached;
    StepIsEdit(h, w, 0, a);
    Goes(h, from, w, a, next);
  }

  // ---- the edit ----

  /** The working tree when the edit has left `u`, and after its undo failed. */
  function Edited(t: Tree, u: Tree): Work {
    Work(Some(u), t, [t], Intact)
  }

  function Left(t: Tree, u: Tree): Work {
    Work(Some(u), u, [t], Half(u))
  }

  lemma EditEnters(h: Hash, t: Tree)
    ensures Reached(h, Created(t), At(Entered, true, true, Created(t).work, Created(t).store))
  {
    assert Run(h, Created(t), []) == Some(Created(t));
    hide Reached, Step, PublishStep, SwitchStep;
    var work, store := Created(t).work, Created(t).store;
    assert Reached(h, Created(t), At(Waiting, false, true, work, store)) by {
      Edits(h, Created(t), Created(t), Begin, At(Waiting, false, true, work, store));
    }
    Edits(h, Created(t), At(Waiting, false, true, work, store), Enter, At(Entered, true, true, work, store));
  }

  lemma EditGoesHalfway(h: Hash, t: Tree, u: Tree)
    requires ValidTree(u)
    ensures Reached(h, Created(t), At(Editing(t), true, true, Edited(t, u), Created(t).store))
  {
    EditEnters(h, t);
    hide Reached, Step, PublishStep, SwitchStep, ValidTree;
    var work, store := Created(t).work, Created(t).store;
    Edits(h, Created(t), At(Entered, true, true, work, store), Backup, At(Editing(t), true, true, work, store));
    Edits(h, Created(t), At(Editing(t), true, true, work, store), Edit(Some(u)), At(Editing(t), true, true, Edited(t, u), store));
  }

  lemma EditFails(h: Hash, t: Tree, u: Tree)
    requires ValidTree(u)
    ensures Reached(h, Created(t), At(Moving(t), true, true, Edited(t, u), Created(t).store))
  {
    EditGoesHalfway(h, t, u);
    hide Reached, Step, PublishStep, SwitchStep, ValidTree;
    var store := Created(t).store;
    Edits(h, Created(t), At(Editing(t), true, true, Edited(t, u), store), Fail, At(Moving(t), true, true, Edited(t, u), store));
  }

  lemma UndoFails(h: Hash, t: Tree, u: Tree)
    requires ValidTree(u)
    ensures Reached(h, Created(t), At(Leaving, true, true, Left(t, u), Created(t).store))
  {
    EditFails(h, t, u);
    hide Reached, Step, PublishStep, SwitchStep, ValidTree;
    var store := Created(t).store;
    Edits(h, Created(t), At(Moving(t), true, true, Edited(t, u), store), MoveAway(false), At(Leaving, true, true, Left(t, u), store));
  }

  lemma EditLeaves(h: Hash, t: Tree, u: Tree)
    requires ValidTree(u)
    ensures Reached(h, Created(t), At(Finishing, false, true, Left(t, u), Created(t).store))
  {
    UndoFails(h, t, u);
    hide Reached, Step, PublishStep, SwitchStep, ValidTree;
    var store := Created(t).store;
    Edits(h, Created(t), At(Leaving, true, true, Left(t, u), store), Leave, At(Finishing, false, true, Left(t, u), store));
  }

  lemma EditEnds(h: Hash, t: Tree, u: Tree)
    requires ValidTree(u)
    ensures Reached(h, Created(t), At(Idle, false, false, Left(t, u), Created(t).store))
  {
    EditLeaves(h, t, u);
    hide Reached, Step, PublishStep, SwitchStep, ValidTree;
    var store := Created(t).store;
    Edits(h, Created(t), At(Finishing, false, true, Left(t, u), store), Finish, At(Idle, false, false, Left(t, u), store));
  }

  // ---- an edit that nothing disturbs ----

  lemma OpensEdit(h: Hash, from: World, work: Work, store: Store)
    requires Reached(h, from, At(Idle, false, false, work, store))
    ensures Reached(h, from, At(Entered, true, true, work, store))
  {
    hide Reached, Step, PublishStep, SwitchStep;
    Edits(h, from, At(Idle, false, false, work, store), Begin, At(Waiting, false, true, work, store));
    Edits(h, from, At(Waiting, false, true, work, store), Enter, At(Entered, true, true, work, store));
  }

  lemma AppliesEdit(h: Hash, from: World, work: Work, store: Store, result: Option<Tree>)
    requires Reached(h, from, At(Idle, false, false, work, store)) && work.tree.Some?
    requires result.Some? ==> ValidTree(result.value)
    ensures Reached(h, from, At(Editing(work.tree.value), true, true, work.(tree := result), store))
  {
    OpensEdit(h, from, work, store);
    hide Reached, Step, PublishStep, SwitchStep, ValidTree;
    var backup := work.tree.value;
    Edits(h, from, At(Entered, true, true, work, store), Backup, At(Editing(backup), true, true, work, store));
    Edits(h, from, At(Editing(backup), true, true, work, store), Edit(result), At(Editing(backup), true, true, work.(tree := result), store));
  }

  lemma LeavesEdit(h: Hash, from: World, writing: bool, work: Work, store: Store)
    requires Reached(h, from, At(Leaving, true, writing, work, store))
    ensures Reached(h, from, At(Idle, false, false, work, store))
  {
    hide Reached, Step, PublishStep, SwitchStep;
    Edits(h, from, At(Leaving, true, writing, work, store), Leave, At(Finishing, false, writing, work, store));
    Edits(h, from, At(Finishing, false, writing, work, store), Finish, At(Idle, false, false, work, store));
  }

  /** An edit can complete: the working tree is what it made, and that is what releases are held against. */
  lemma EditsComplete(h: Hash, from: World, work: Work, store: Store, result: Tree)
    requires Reached(h, from, At(Idle, false, false, work, store)) && work.tree.Some? && ValidTree(result)
    ensures Reached(h, from, At(Idle, false, false, Work(Some(result), result, work.log + [result], Intact), store))
  {
    AppliesEdit(h, from, work, store, Some(result));
    var kept := Work(Some(result), result, work.log + [result], Intact);
    hide Reached, Step, PublishStep, SwitchStep, ValidTree;
    Edits(h, from, At(Editing(work.tree.value), true, true, work.(tree := Some(result)), store), Keep, At(Leaving, true, false, kept, store));
    LeavesEdit(h, from, false, kept, store);
  }

  /** An edit that has left anything in the working directory and fails can be undone without a trace. */
  lemma FailedEditsAreUndone(h: Hash, from: World, work: Work, store: Store, half: Tree)
    requires work.tree.Some? && Reached(h, from, At(Editing(work.tree.value), true, true, work.(tree := Some(half)), store))
    ensures Reached(h, from, At(Idle, false, false, work, store))
  {
    hide Reached, Step, PublishStep, SwitchStep;
    var backup := work.tree.value;
    var edited, moved := work.(tree := Some(half)), work.(tree := None);
    assert Reached(h, from, At(Moving(backup), true, true, edited, store)) by {
      Edits(h, from, At(Editing(backup), true, true, edited, store), Fail, At(Moving(backup), true, true, edited, store));
    }
    assert Reached(h, from, At(Restoring(backup, half), true, true, moved, store)) by {
      Edits(h, from, At(Moving(backup), true, true, edited, store), MoveAway(true), At(Restoring(backup, half), true, true, moved, store));
    }
    Edits(h, from, At(Restoring(backup, half), true, true, moved, store), Restore(true, false), At(Leaving, true, true, work, store));
    LeavesEdit(h, from, true, work, store);
  }

  // ---- the publish ----

  function Holding(name: string, r: Release): Store {
    Store(map[name := r], None, Db([], None), [], false)
  }

  lemma PublishRefreshes(h: Hash, t: Tree, u: Tree)
    requires ValidTree(u) && HasPack(Some(u))
    ensures Reached(h, Created(t), At(Refreshed, true, false, Left(t, u), Created(t).store))
  {
    EditEnds(h, t, u);
    hide Reached, Step, EditStep, SwitchStep, ValidTree;
    var store := Created(t).store;
    Prepares(h, Created(t), At(Idle, false, false, Left(t, u), store), Lock(Publishing),
             At(Opened(Publishing), true, false, Left(t, u), store));
    Prepares(h, Created(t), At(Opened(Publishing), true, false, Left(t, u), store), Refresh(u, true),
             At(Refreshed, true, false, Left(t, u), store));
  }

  lemma PublishStages(h: Hash, t: Tree, u: Tree, id: string)
    requires ValidTree(u) && HasPack(Some(u))
    ensures Reached(h, Created(t), At(Copying(id, 1, {}, []), true, false, Left(t, u), Holding(StageName(id), Release(map[], None))))
  {
    PublishRefreshes(h, t, u);
    hide Reached, Step, EditStep, SwitchStep, ValidTree, StageName, HasPack;
    Prepares(h, Created(t), At(Refreshed, true, false, Left(t, u), Created(t).store), Stage(id),
             At(Copying(id, 1, {}, []), true, false, Left(t, u), Holding(StageName(id), Release(map[], None))));
  }

  lemma {:induction false} PublishCopies(h: Hash, t: Tree, u: Tree, id: string, walk: seq<Path>, k: nat)
    requires ValidTree(u) && HasPack(Some(u)) && WalksAll(walk, u) && k <= |walk|
    ensures var empty := At(Copying(id, 1, {}, []), true, false, Left(t, u), Holding(StageName(id), Release(map[], None)));
            CopyStarts(empty, 0) && Reached(h, Created(t), CopiedWorld(h, empty, 0, walk[..k]))
  {
    var empty := At(Copying(id, 1, {}, []), true, false, Left(t, u), Holding(StageName(id), Release(map[], None)));
    assert CopyStarts(empty, 0);
    if k == 0 {
      PublishStages(h, t, u, id);
      CopiedNothing(h, empty, 0);
      assert walk[..0] == [];
    } else {
      PublishCopies(h, t, u, id, walk, k - 1);
      CopyStep(h, empty, 0, walk, k - 1);
      CopiedAlone(h, empty, walk[..k - 1], walk[..k]);
      hide Reached, Step, CopiedWorld, WalksAll, CopyStarts, ValidTree, HasPack, StageName;
      Goes(h, Created(t), CopiedWorld(h, empty, 0, walk[..k - 1]), CopyOne(walk[k - 1]), CopiedWorld(h, empty, 0, walk[..k]));
    }
  }

  lemma CopiedAlone(h: Hash, w: World, walk: seq<Path>, more: seq<Path>)
    requires CopyStarts(w, 0) && w.pcs.Keys == {0}
    ensures var before, after := CopiedWorld(h, w, 0, walk), CopiedWorld(h, w, 0, more);
            && before.pcs.Keys == {0} && after.pcs == map[0 := PcOf(after, 0)]
            && after == after.(pcs := before.pcs[0 := PcOf(after, 0)])
  {
    var before, after := CopiedWorld(h, w, 0, walk), CopiedWorld(h, w, 0, more);
    assert before.pcs[0 := PcOf(after, 0)] == after.pcs;
  }

  lemma PublishLists(h: Hash, t: Tree, u: Tree, id: string, walk: seq<Path>)
    requires ValidTree(u) && HasPack(Some(u)) && WalksAll(walk, u)
    ensures Reached(h, Created(t), At(Staged(id, ManifestOf(h, u, walk, id, 1)), true, false, Left(t, u),
                             Holding(StageName(id), Release(u, None))))
  {
    var stage := StageName(id);
    var empty := At(Copying(id, 1, {}, []), true, false, Left(t, u), Holding(stage, Release(map[], None)));
    PublishCopies(h, t, u, id, walk, |walk|);
    assert walk[..|walk|] == walk;
    AllIsCopied(u, walk);
    var full := At(Copying(id, 1, u.Keys, EntriesOf(h, u, walk)), true, false, Left(t, u), Holding(stage, Release(u, None)));
    AllCopiedWorld(h, empty, full, walk);
    hide Reached, Step, EditStep, SwitchStep, ValidTree, StageName, HasPack, EntriesOf, Sort, DigestInput, CopiedWorld, WalksAll, CopyStarts;
    Prepares(h, Created(t), full, CopyDone, At(Staged(id, ManifestOf(h, u, walk, id, 1)), true, false, Left(t, u), Holding(stage, Release(u, None))));
  }

  lemma AllCopiedWorld(h: Hash, empty: World, full: World, walk: seq<Path>)
    requires CopyStarts(empty, 0) && empty.pcs.Keys == {0} && empty.store.dirs.Keys == {StageName(PcOf(empty, 0).id)}
    requires var pc, u := PcOf(empty, 0), empty.work.tree.value;
             && CopiedTree(u, walk) == u && (set p | p in walk) == u.Keys
             && full == empty.(pcs := map[0 := Copying(pc.id, pc.number, u.Keys, EntriesOf(h, u, walk))],
                               store := empty.store.(dirs := map[StageName(pc.id) := Release(u, None)]))
    ensures CopiedWorld(h, empty, 0, walk) == full
  {
    hide EntriesOf, StageName, CopiedTree;
    var copied := CopiedWorld(h, empty, 0, walk);
    assert copied.pcs == full.pcs && copied.store.dirs == full.store.dirs;
  }

  lemma PublishSeals(h: Hash, t: Tree, u: Tree, id: string, walk: seq<Path>)
    requires ValidTree(u) && HasPack(Some(u)) && WalksAll(walk, u)
    ensures var m := ManifestOf(h, u, walk, id, 1);
            Reached(h, Created(t), At(Sealed(id, m), true, false, Left(t, u), Holding(StageName(id), Release(u, Some(m)))))
  {
    var m, stage := ManifestOf(h, u, walk, id, 1), StageName(id);
    PublishLists(h, t, u, id, walk);
    SealedStore(stage, Decimal(1), u, m);
    hide Reached, Step, EditStep, SwitchStep, ValidTree, StageName, HasPack, EntriesOf, Sort, DigestInput, WalksAll;
    Prepares(h, Created(t), At(Staged(id, m), true, false, Left(t, u), Holding(stage, Release(u, None))), Seal,
             At(Sealed(id, m), true, false, Left(t, u), Holding(stage, Release(u, Some(m)))));
  }

  lemma PublishPromotes(h: Hash, t: Tree, u: Tree, id: string, walk: seq<Path>)
    requires ValidTree(u) && HasPack(Some(u)) && WalksAll(walk, u)
    ensures var m := ManifestOf(h, u, walk, id, 1);
            Reached(h, Created(t), At(Promoted(m), true, false, Left(t, u), Holding(Decimal(1), Release(u, Some(m)))))
  {
    var m, stage, dir := ManifestOf(h, u, walk, id, 1), StageName(id), Decimal(1);
    PublishSeals(h, t, u, id, walk);
    StageIsNotFinal(id, 1);
    SealedStore(stage, dir, u, m);
    hide Reached, Step, EditStep, SwitchStep, ValidTree, StageName, Decimal, HasPack, EntriesOf, Sort, DigestInput, WalksAll;
    Prepares(h, Created(t), At(Sealed(id, m), true, false, Left(t, u), Holding(stage, Release(u, Some(m)))), Promote,
             At(Promoted(m), true, false, Left(t, u), Holding(dir, Release(u, Some(m)))));
  }

  lemma SealedStore(stage: string, dir: string, u: Tree, m: Manifest)
    ensures map[stage := Release(u, None)][stage := Release(u, Some(m))] == map[stage := Release(u, Some(m))]
    ensures (map[stage := Release(u, Some(m))] - {stage})[dir := Release(u, Some(m))] == map[dir := Release(u, Some(m))]
  {
  }

  function Rows(m: Manifest): Db {
    Db([Row(m.id, 1, Decimal(1), m.digest)], Some(m.id))
  }

  function Released(u: Tree, m: Manifest): Store {
    Store(map[Decimal(1) := Release(u, Some(m))], Some(Decimal(1)), Rows(m), [Mark(1, u, Half(u))], false)
  }

  lemma PublishSwitches(h: Hash, t: Tree, u: Tree, m: Manifest, store: Store)
    requires m.number == 1 && store == Holding(Decimal(1), Release(u, Some(m)))
    requires Reached(h, Created(t), At(Promoted(m), true, false, Left(t, u), store))
    ensures var goal := Forward(Rows(m), None, Some(Mark(1, u, Half(u))));
            Reached(h, Created(t), At(Committing(Decimal(1), goal), true, true, Left(t, u), store.(link := Some(Decimal(1)))))
  {
    var dir, next, mark := Decimal(1), Rows(m), Some(Mark(1, u, Half(u)));
    var goal, work := Forward(next, None, mark), Left(t, u);
    assert [] + [Row(m.id, 1, dir, m.digest)] == next.rows;
    hide Reached, Step, EditStep, PublishStep, Decimal;
    Switches(h, Created(t), At(Promoted(m), true, false, work, store), Write, At(Written(dir, next, mark), true, true, work, store));
    assert Reached(h, Created(t), At(Swapping(dir, First, goal), true, true, work, store)) by {
      Switches(h, Created(t), At(Written(dir, next, mark), true, true, work, store), ReadLink(true),
               At(Swapping(dir, First, goal), true, true, work, store));
    }
    Switches(h, Created(t), At(Swapping(dir, First, goal), true, true, work, store), Swap(true),
             At(Committing(dir, goal), true, true, work, store.(link := Some(dir))));
  }

  lemma PublishEnds(h: Hash, t: Tree, u: Tree, m: Manifest, store: Store)
    requires m.number == 1 && store == Holding(Decimal(1), Release(u, Some(m)))
    requires Reached(h, Created(t), At(Promoted(m), true, false, Left(t, u), store))
    ensures Reached(h, Created(t), At(Idle, false, false, Left(t, u), Released(u, m)))
  {
    PublishSwitches(h, t, u, m, store);
    var dir, work := Decimal(1), Left(t, u);
    var goal := Forward(Rows(m), None, Some(Mark(1, u, Half(u))));
    assert [] + [Mark(1, u, Half(u))] == Released(u, m).marks;
    hide Reached, Step, EditStep, PublishStep, Decimal, Rows;
    Switches(h, Created(t), At(Committing(dir, goal), true, true, work, store.(link := Some(dir))), Commit(true),
             At(Closing(None), true, false, work, Released(u, m)));
    Switches(h, Created(t), At(Closing(None), true, false, work, Released(u, m)), Close(None), At(Idle, false, false, work, Released(u, m)));
  }

  // ---- the result ----

  lemma {:induction false} WalkExists(u: Tree)
    ensures exists walk :: WalksAll(walk, u)
    decreases |u|
  {
    if u == map[] {
      assert WalksAll([], u);
    } else {
      var p :| p in u;
      var rest := u - {p};
      assert u.Keys == rest.Keys + {p};
      WalkExists(rest);
      var walk :| WalksAll(walk, rest);
      OneMoreToWalk(walk, rest, u, p);
    }
  }

  lemma OneMoreToWalk(walk: seq<Path>, rest: Tree, u: Tree, p: Path)
    requires WalksAll(walk, rest) && p !in rest && u.Keys == rest.Keys + {p}
    ensures WalksAll(walk + [p], u)
  {
    assert forall q :: q in walk + [p] <==> q in walk || q == p;
    assert forall i | 0 <= i < |walk| :: walk[i] in walk;
    assert forall q :: q in u <==> q in rest || q == p;
  }

  /** Whatever valid trees a project starts with and a failing edit leaves behind: if the undo of the edit
      fails, a publish can release what it left. The release then holds the content of the last
      completed edit only if the two have the same content. */
  lemma FailedUndoIsPublished(h: Hash, t: Tree, u: Tree)
    requires ValidTree(t) && ValidTree(u) && HasPack(Some(u))
    ensures Initial(Created(t))
    ensures exists moves ::
              && Run(h, Created(t), moves).Some?
              && var w := Run(h, Created(t), moves).value;
                 && w.lock.None? && |w.store.db.rows| == 1 && w.work.log == [t]
                 && Decimal(1) in w.store.dirs && w.store.dirs[Decimal(1)].tree == u
                 && (SameContent(t, w.store.dirs[Decimal(1)].tree) <==> SameContent(t, u))
  {
    assert Created(t).work == Work(Some(t), t, [t], Intact);
    WalkExists(u);
    var walk :| WalksAll(walk, u);
    var m := ManifestOf(h, u, walk, "r", 1);
    PublishPromotes(h, t, u, "r", walk);
    PublishEnds(h, t, u, m, Holding(Decimal(1), Release(u, Some(m))));
    hide Run, SameContent, Decimal, ManifestOf;
    var w := At(Idle, false, false, Left(t, u), Released(u, m));
    var moves :| Run(h, Created(t), moves) == Some(w);
    assert Decimal(1) in w.store.dirs && w.store.dirs[Decimal(1)].tree == u;
  }

  /** For one, an edit that has removed a file when it fails. */
  lemma HalfAnEditDiffers()
    ensures var u: Tree := map[["pack.toml"] := File("")];
            var t := u[["mod"] := File("")];
            ValidTree(t) && ValidTree(u) && HasPack(Some(u)) && !SameContent(t, u)
  {
    var u: Tree := map[["pack.toml"] := File("")];
    assert ["mod"] in u[["mod"] := File("")] - PACK_FILES && ["mod"] !in u;
  }
}

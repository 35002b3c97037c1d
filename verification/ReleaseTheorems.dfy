/** Results over whole runs of the release store: any number of clients, every interleaving, and a
    failure at any operation. */
module ReleaseTheorems {
  import opened Text
  import opened Digest
  import opened Trees
  import opened Releases
  import opened ReleaseSafety

  datatype Move = Move(client: Client, action: Action)

  function Run(h: Hash, w: World, moves: seq<Move>): Option<World>
    decreases |moves|
  {
    if moves == [] then Some(w)
    else match Step(h, w, moves[0].client, moves[0].action)
      case None => None
      case Some(next) => Run(h, next, moves[1..])
  }

  lemma {:induction false} RunConcat(h: Hash, w: World, moves: seq<Move>, more: seq<Move>)
    requires Run(h, w, moves).Some?
    ensures Run(h, w, moves + more) == Run(h, Run(h, w, moves).value, more)
    decreases |moves|
  {
    hide Step;
    if moves == [] {
      assert moves + more == more;
    } else {
      assert (moves + more)[0] == moves[0] && (moves + more)[1..] == moves[1..] + more;
      RunConcat(h, Step(h, w, moves[0].client, moves[0].action).value, moves[1..], more);
    }
  }

  lemma RunOne(h: Hash, w: World, m: Move)
    ensures Run(h, w, [m]) == Step(h, w, m.client, m.action)
  {
    hide Step;
    assert [m][1..] == [];
  }

  lemma {:induction false} RunKeeps(h: Hash, w: World, moves: seq<Move>)
    requires Inv(h, w) && Run(h, w, moves).Some?
    ensures Inv(h, Run(h, w, moves).value)
    decreases |moves|
  {
    hide Inv, Step;
    if moves != [] {
      StepKeeps(h, w, moves[0].client, moves[0].action);
      RunKeeps(h, Step(h, w, moves[0].client, moves[0].action).value, moves[1..]);
    }
  }

  lemma StepIsSwitch(h: Hash, w: World, c: Client, a: Action)
    ensures SwitchStep(w, c, a).Some? ==> Step(h, w, c, a) == SwitchStep(w, c, a)
  {
  }

  lemma StepIsPublish(h: Hash, w: World, c: Client, a: Action)
    ensures PublishStep(h, w, c, a).Some? ==> Step(h, w, c, a) == PublishStep(h, w, c, a)
  {
    hide PublishStep, SwitchStep, EditStep;
  }

  lemma StepIsEdit(h: Hash, w: World, c: Client, a: Action)
    ensures a.Begin? || a.Enter? || a.Backup? || a.Edit? || a.Fail? || a.MoveAway? || a.Keep? || a.Restore? || a.Leave? || a.Finish? ==>
              Step(h, w, c, a) == EditStep(w, c, a)
  {
    hide EditStep;
  }

  // ---- the link and the current revision ----

  /** Some row is the current revision and `current` names its directory, or there is neither. */
  ghost predicate Agree(store: Store) {
    match store.db.current
    case None => store.link.None?
    case Some(id) => exists i | 0 <= i < |store.db.rows| ::
                       store.db.rows[i].id == id && store.link == Some(store.db.rows[i].dir)
  }

  lemma RecordedRow(h: Hash, store: Store)
    requires StoreOk(h, store.dirs, store.db, store.marks) && store.link == Recorded(store.db)
    ensures Agree(store)
  {
    if store.db.current.Some? {
      NotFoundById(store.db.rows, store.db.current.value);
    }
  }

  /** Whenever the mutex is free and no compensating operation has failed since the last commit,
      the link names exactly the release of the current revision. */
  lemma LinkAndRevisionAgree(h: Hash, start: World, moves: seq<Move>)
    requires Initial(start) && Run(h, start, moves).Some?
    ensures var w := Run(h, start, moves).value;
            w.lock.None? && !w.store.faulted ==> Agree(w.store)
  {
    InitialIsOk(h, start);
    RunKeeps(h, start, moves);
    var w := Run(h, start, moves).value;
    hide StoreOk, MarksOk, ServedDir, WorkOk;
    if w.lock.None? && !w.store.faulted {
      RecordedRow(h, w.store);
    }
  }

  /** Two failing renames in `atomicCurrent` are enough to lose the agreement: `current` is gone while
      the rows still name the old revision. */
  lemma FailedRetryDiverges(h: Hash, w: World, c: Client)
    requires Inv(h, w) && w.store.db.current.Some?
    requires PcOf(w, c).Swapping? && PcOf(w, c).attempt.First? && PcOf(w, c).goal.Forward?
    ensures var failed := [Move(c, Swap(false)), Move(c, Swap(true)), Move(c, Swap(false)), Move(c, Close(None))];
            && Run(h, w, failed).Some?
            && var next := Run(h, w, failed).value;
               next.lock.None? && next.store.faulted && !Agree(next.store)
  {
    hide Inv, Agree;
    var m1, m2, m3 := Move(c, Swap(false)), Move(c, Swap(true)), Move(c, Close(None));
    var w1 := Step(h, w, c, Swap(false)).value;
    var w2 := Step(h, w1, c, Swap(true)).value;
    var w3 := Step(h, w2, c, Swap(false)).value;
    var w4 := Step(h, w3, c, Close(None)).value;
    hide Step;
    assert Run(h, w4, []) == Some(w4);
    assert Run(h, w3, [m3]) == Some(w4);
    assert [m1, m3][1..] == [m3] && [m2, m1, m3][1..] == [m1, m3] && [m1, m2, m1, m3][1..] == [m2, m1, m3];
    assert Run(h, w2, [m1, m3]) == Some(w4);
    assert Run(h, w1, [m2, m1, m3]) == Some(w4);
    NoLinkDisagrees(w4.store);
  }

  lemma NoLinkDisagrees(store: Store)
    requires store.db.current.Some? && store.link.None?
    ensures !Agree(store)
  {
  }

  /** A commit restores the agreement, whatever failed before it. */
  lemma CommitHeals(h: Hash, w: World, c: Client)
    requires Inv(h, w) && Step(h, w, c, Commit(true)).Some?
    ensures Agree(Step(h, w, c, Commit(true)).value.store)
  {
    hide StoreOk, MarksOk, ServedDir, WorkOk, TreeRest, LinkRest, Recorded, LockOk;
    OwnerOnly(h, w, c);
    RecordedRow(h, Step(h, w, c, Commit(true)).value.store);
  }

  /** At every moment, in the middle of any operation too, a reader that follows the link finds a
      complete release: every file, and the manifest over them. */
  lemma ReadersFindCompleteReleases(h: Hash, start: World, moves: seq<Move>)
    requires Initial(start) && Run(h, start, moves).Some?
    ensures var store := Run(h, start, moves).value.store;
            store.link.Some? ==> store.link.value in store.dirs && Whole(h, store.dirs[store.link.value])
  {
    InitialIsOk(h, start);
    RunKeeps(h, start, moves);
    hide StoreOk, MarksOk, WorkOk, TreeRest, LinkRest, Whole;
  }

  predicate Commits(moves: seq<Move>) {
    exists m | m in moves :: m.action == Commit(true)
  }

  lemma OnlyCommitChangesRows(h: Hash, w: World, c: Client, a: Action)
    requires Step(h, w, c, a).Some? && a != Commit(true)
    ensures var next := Step(h, w, c, a).value;
            next.store.db == w.store.db && next.store.marks == w.store.marks
  {
  }

  lemma {:induction false} RowsUnchanged(h: Hash, w: World, moves: seq<Move>)
    requires Run(h, w, moves).Some? && !Commits(moves)
    ensures Run(h, w, moves).value.store.db == w.store.db
    decreases |moves|
  {
    hide Step;
    if moves != [] {
      assert moves[0] in moves && forall m | m in moves[1..] :: m in moves;
      OnlyCommitChangesRows(h, w, moves[0].client, moves[0].action);
      RowsUnchanged(h, Step(h, w, moves[0].client, moves[0].action).value, moves[1..]);
    }
  }

  /** Operations that fail before their commit leave the rows and the link as they were. */
  lemma FailuresLeaveBoth(h: Hash, start: World, before: seq<Move>, failed: seq<Move>)
    requires Initial(start) && Run(h, start, before).Some? && Run(h, Run(h, start, before).value, failed).Some?
    requires !Commits(failed)
    ensures var w, next := Run(h, start, before).value, Run(h, Run(h, start, before).value, failed).value;
            && next.store.db == w.store.db
            && (w.lock.None? && next.lock.None? && !w.store.faulted && !next.store.faulted ==>
                next.store.link == w.store.link)
  {
    InitialIsOk(h, start);
    RunKeeps(h, start, before);
    RunKeeps(h, Run(h, start, before).value, failed);
    hide Core, TreeRest, Recorded, LockOk;
    RowsUnchanged(h, Run(h, start, before).value, failed);
  }

  // ---- revisions are numbered and immutable ----

  lemma RevisionsAreNumbered(h: Hash, start: World, moves: seq<Move>)
    requires Initial(start) && Run(h, start, moves).Some?
    ensures var store := Run(h, start, moves).value.store;
            && (forall i | 0 <= i < |store.db.rows| ::
                  store.db.rows[i].number == i + 1 && store.db.rows[i].dir in store.dirs)
            && (forall i, j | 0 <= i < j < |store.db.rows| :: store.db.rows[i].dir != store.db.rows[j].dir)
  {
    InitialIsOk(h, start);
    RunKeeps(h, start, moves);
    var store := Run(h, start, moves).value.store;
    hide RowOk, Whole;
    forall i | 0 <= i < |store.db.rows|
      ensures store.db.rows[i].number == i + 1 && store.db.rows[i].dir == Decimal(i + 1)
      ensures store.db.rows[i].dir in store.dirs
    {
      assert RowOk(h, store.dirs, store.db.rows[i], i + 1, store.marks[i].tree);
      RowNumber(h, store.dirs, store.db.rows[i], i + 1, store.marks[i].tree);
    }
    forall i, j | 0 <= i < j < |store.db.rows|
      ensures store.db.rows[i].dir != store.db.rows[j].dir
    {
      if Decimal(i + 1) == Decimal(j + 1) {
        DecimalInjective(i + 1, j + 1);
      }
    }
  }

  lemma PublishStepKeepsReleases(h: Hash, w: World, c: Client, a: Action)
    requires PublishStep(h, w, c, a).Some?
    ensures Keeps(w.store.dirs, PublishStep(h, w, c, a).value.store.dirs)
    ensures PublishStep(h, w, c, a).value.store.db == w.store.db
  {
    var pc := PcOf(w, c);
    if a.Stage? {
      StageNameHasDot(a.id);
    } else if pc.Copying? {
      StageNameHasDot(pc.id);
    } else if pc.Staged? || pc.Sealed? {
      StageNameHasDot(if pc.Staged? then pc.id else pc.id);
    }
  }

  lemma StepKeepsReleases(h: Hash, w: World, c: Client, a: Action)
    requires Inv(h, w) && Step(h, w, c, a).Some?
    ensures var next := Step(h, w, c, a).value;
            Keeps(w.store.dirs, next.store.dirs) && w.store.db.rows <= next.store.db.rows
  {
    hide Inv, PublishStep, SwitchStep, Keeps;
    if PublishStep(h, w, c, a).Some? {
      PublishStepKeepsReleases(h, w, c, a);
    } else if SwitchStep(w, c, a).Some? {
      SwitchStepKeepsReleases(h, w, c, a);
    } else {
      AllKept(w.store.dirs);
    }
  }

  lemma AllKept(dirs: map<string, Release>)
    ensures Keeps(dirs, dirs)
  {
  }

  lemma SwitchStepKeepsReleases(h: Hash, w: World, c: Client, a: Action)
    requires Inv(h, w) && SwitchStep(w, c, a).Some?
    ensures var next := SwitchStep(w, c, a).value;
            Keeps(w.store.dirs, next.store.dirs) && w.store.db.rows <= next.store.db.rows
  {
    hide StoreOk, MarksOk, ServedDir, WorkOk, TreeRest, LinkRest, Recorded, LockOk, PreviousOk, Core;
    if a.Commit? || a.Close? {
      OwnerOnly(h, w, c);
    }
  }

  /** Once a release directory has its number, no step of any client changes a byte of it, and once a
      row is committed it stays as it is. */
  lemma {:induction false} ReleasesAreImmutable(h: Hash, w: World, moves: seq<Move>)
    requires Inv(h, w) && Run(h, w, moves).Some?
    ensures var next := Run(h, w, moves).value;
            && w.store.db.rows <= next.store.db.rows
            && forall d | d in w.store.dirs && AllDigits(d) :: d in next.store.dirs && next.store.dirs[d] == w.store.dirs[d]
    decreases |moves|
  {
    hide Inv, Step;
    if moves != [] {
      var next := Step(h, w, moves[0].client, moves[0].action).value;
      StepKeeps(h, w, moves[0].client, moves[0].action);
      StepKeepsReleases(h, w, moves[0].client, moves[0].action);
      ReleasesAreImmutable(h, next, moves[1..]);
    }
  }

  // ---- what a release contains ----

  /** While one client has the mutex, the others only wait for it or for SQLite. */
  lemma OthersWait(h: Hash, w: World, c: Client, d: Client, a: Action)
    requires Inv(h, w) && w.lock == Some(c) && d != c && Step(h, w, d, a).Some?
    ensures var next := Step(h, w, d, a).value;
            next.work == w.work && next.store == w.store && next.lock == w.lock && PcOf(next, c) == PcOf(w, c)
  {
    hide Core, HolderOk, TreeRest, LinkRest;
    assert !Critical(PcOf(w, d));
  }

  /** The world as it would be had the other clients not moved: the holder of the mutex, the disk and the
      rows are the same, and SQLite is locked by the holder or by nobody. */
  ghost predicate SeenAlone(w: World, alone: World, c: Client) {
    && alone.work == w.work && alone.store == w.store && alone.lock == w.lock && PcOf(alone, c) == PcOf(w, c)
    && alone.writer == if w.writer == Some(c) then w.writer else None
  }

  lemma OwnStepAlone(h: Hash, w: World, alone: World, c: Client, a: Action)
    requires SeenAlone(w, alone, c) && Critical(PcOf(w, c)) && Step(h, w, c, a).Some?
    ensures Step(h, alone, c, a).Some? && SeenAlone(Step(h, w, c, a).value, Step(h, alone, c, a).value, c)
  {
    hide PublishStep, SwitchStep, EditStep;
    if PublishStep(h, w, c, a).Some? {
      OwnPreparationAlone(h, w, alone, c, a);
    } else if SwitchStep(w, c, a).Some? {
      OwnSwitchAlone(w, alone, c, a);
      OwnPreparationAlone(h, w, alone, c, a);
    } else {
      OwnEditAlone(w, alone, c, a);
      OwnSwitchAlone(w, alone, c, a);
      OwnPreparationAlone(h, w, alone, c, a);
    }
  }

  lemma OwnPreparationAlone(h: Hash, w: World, alone: World, c: Client, a: Action)
    requires SeenAlone(w, alone, c) && Critical(PcOf(w, c))
    ensures PublishStep(h, w, c, a).Some? <==> PublishStep(h, alone, c, a).Some?
    ensures PublishStep(h, w, c, a).Some? ==> SeenAlone(PublishStep(h, w, c, a).value, PublishStep(h, alone, c, a).value, c)
  {
  }

  lemma OwnSwitchAlone(w: World, alone: World, c: Client, a: Action)
    requires SeenAlone(w, alone, c) && Critical(PcOf(w, c))
    ensures SwitchStep(w, c, a).Some? ==>
              SwitchStep(alone, c, a).Some? && SeenAlone(SwitchStep(w, c, a).value, SwitchStep(alone, c, a).value, c)
    ensures SwitchStep(alone, c, a).Some? && !a.Write? ==> SwitchStep(w, c, a).Some?
  {
  }

  lemma OwnEditAlone(w: World, alone: World, c: Client, a: Action)
    requires SeenAlone(w, alone, c) && Critical(PcOf(w, c)) && EditStep(w, c, a).Some?
    ensures !a.Write? && EditStep(alone, c, a).Some? && SeenAlone(EditStep(w, c, a).value, EditStep(alone, c, a).value, c)
  {
  }

  lemma OtherStepAlone(h: Hash, w: World, alone: World, c: Client, d: Client, a: Action)
    requires Inv(h, w) && SeenAlone(w, alone, c) && w.lock == Some(c) && d != c && Step(h, w, d, a).Some?
    ensures SeenAlone(Step(h, w, d, a).value, alone, c)
  {
    OthersWait(h, w, c, d, a);
    OtherWriter(h, w, c, d, a);
    hide Inv, Step;
  }

  lemma OtherWriter(h: Hash, w: World, c: Client, d: Client, a: Action)
    requires Inv(h, w) && w.lock == Some(c) && d != c && Step(h, w, d, a).Some?
    ensures Step(h, w, d, a).value.writer == Some(c) <==> w.writer == Some(c)
  {
    hide Core, HolderOk, TreeRest, LinkRest;
    assert !Critical(PcOf(w, d));
  }

  /** The moves of one client. */
  function Own(moves: seq<Move>, c: Client): seq<Move> {
    if moves == [] then []
    else (if moves[0].client == c then [moves[0]] else []) + Own(moves[1..], c)
  }

  /** One client has the mutex from the first move to the last. */
  ghost predicate HeldThroughout(h: Hash, w: World, c: Client, moves: seq<Move>)
    decreases |moves|
  {
    moves == [] || (Critical(PcOf(w, c)) && (Step(h, w, moves[0].client, moves[0].action).Some? ==>
      HeldThroughout(h, Step(h, w, moves[0].client, moves[0].action).value, c, moves[1..])))
  }

  /** What an operation does between its first and its last step under the mutex does not depend on the
      other clients: its own steps alone lead to the same tree, directories, link and rows. */
  lemma {:induction false} InterleavingIsInvisible(h: Hash, w: World, alone: World, c: Client, moves: seq<Move>)
    requires Inv(h, w) && SeenAlone(w, alone, c) && HeldThroughout(h, w, c, moves) && Run(h, w, moves).Some?
    ensures Run(h, alone, Own(moves, c)).Some?
    ensures SeenAlone(Run(h, w, moves).value, Run(h, alone, Own(moves, c)).value, c)
    decreases |moves|
  {
    hide Inv, Step, SeenAlone, Critical;
    if moves != [] {
      var m := moves[0];
      var next := Step(h, w, m.client, m.action).value;
      StepKeeps(h, w, m.client, m.action);
      if m.client == c {
        OwnStepAlone(h, w, alone, c, m.action);
        InterleavingIsInvisible(h, next, Step(h, alone, c, m.action).value, c, moves[1..]);
        assert Own(moves, c)[0] == m && Own(moves, c)[1..] == Own(moves[1..], c);
      } else {
        CriticalHolds(h, w, c);
        OtherStepAlone(h, w, alone, c, m.client, m.action);
        InterleavingIsInvisible(h, next, alone, c, moves[1..]);
        assert Own(moves, c) == Own(moves[1..], c);
      }
    }
  }

  lemma CriticalHolds(h: Hash, w: World, c: Client)
    requires Inv(h, w) && Critical(PcOf(w, c))
    ensures w.lock == Some(c)
  {
    hide Core, HolderOk, TreeRest, LinkRest;
  }

  /** The mark of a new row says when it was taken, and names the working tree at that moment. */
  lemma CommitMarksLastEdit(h: Hash, w: World, c: Client)
    requires Inv(h, w) && Step(h, w, c, Commit(true)).Some?
    ensures var next := Step(h, w, c, Commit(true)).value;
            && next.work == w.work
            && (next.store.marks == w.store.marks
                || (next.store.marks == w.store.marks + [Mark(|w.work.log|, w.work.settled, w.work.stray)]
                    && w.work.tree == Some(w.work.settled)))
  {
    hide StoreOk, ServedDir, WorkOk, LinkRest, Recorded, LockOk, PreviousOk, Core, SameContent;
    OwnerOnly(h, w, c);
    var pc := PcOf(w, c);
    var marks := Appended(w.store.marks, pc.goal.mark);
    if pc.goal.mark.Some? {
      assert marks[|w.store.marks|] == pc.goal.mark.value;
    }
  }

  /** Release `i + 1` is the tree that one refresh left. Its content is the one the last edit completed
      before it left, or the one a failed undo put there after that edit; so it is the content of the
      last edit exactly if no undo failed since, or the failed undo left the same content. */
  ghost predicate HoldsLastEdit(w: World, i: nat)
    requires i < |w.store.marks|
  {
    && Decimal(i + 1) in w.store.dirs
    && var release, mark := w.store.dirs[Decimal(i + 1)], w.store.marks[i];
       && release.tree == mark.tree && 0 < mark.after <= |w.work.log| && !mark.stray.Lost?
       && SameContent(ContentAt(w.work.log, mark.after, mark.stray), release.tree)
       && (SameContent(w.work.log[mark.after - 1], release.tree) <==>
           mark.stray.Intact? || SameContent(w.work.log[mark.after - 1], mark.stray.tree))
  }

  /** No committed release holds half an edit, or an edit that was undone, but for the one exception. */
  lemma ReleasesHoldFinishedEdits(h: Hash, start: World, moves: seq<Move>)
    requires Initial(start) && Run(h, start, moves).Some?
    ensures var w := Run(h, start, moves).value;
            && |w.store.marks| == |w.store.db.rows|
            && forall i | 0 <= i < |w.store.marks| :: HoldsLastEdit(w, i)
  {
    InitialIsOk(h, start);
    RunKeeps(h, start, moves);
    var w := Run(h, start, moves).value;
    hide Run, Initial, HolderOk, LockOk, Whole, SameContent;
    forall i | 0 <= i < |w.store.marks|
      ensures HoldsLastEdit(w, i)
    {
      var mark := w.store.marks[i];
      RowOfStore(h, w.store, i);
      SameEitherWay(w.work.log[mark.after - 1], ContentAt(w.work.log, mark.after, mark.stray), mark.tree);
    }
  }

  lemma SameEitherWay(a: Tree, b: Tree, c: Tree)
    requires SameContent(b, c)
    ensures SameContent(a, c) <==> SameContent(a, b)
  {
  }

  /** From its own refresh until it closes, the client publishes that tree. */
  ghost predicate Publishes(w: World, c: Client, tree: Tree) {
    && w.lock == Some(c) && w.work.settled == tree && w.work.tree == Some(tree)
    && match PcOf(w, c)
       case Written(target, next, mark) => AddsRow(w, target, next, mark)
       case Swapping(target, _, Forward(next, _, mark)) => AddsRow(w, target, next, mark)
       case Committing(target, Forward(next, _, mark)) => AddsRow(w, target, next, mark)
       case pc => pc.Refreshed? || pc.Copying? || pc.Staged? || pc.Sealed? || pc.Promoted? || pc.Swapping?
                  || pc.Unlinking? || pc.Closing?
  }

  ghost predicate AddsRow(w: World, target: string, next: Db, mark: Option<Mark>) {
    && mark.Some? && |next.rows| == |w.store.db.rows| + 1
    && next.current == Some(next.rows[|w.store.db.rows|].id) && target == next.rows[|w.store.db.rows|].dir
  }

  lemma OwnPreparation(h: Hash, w: World, c: Client, tree: Tree, a: Action)
    requires Publishes(w, c, tree) && PublishStep(h, w, c, a).Some?
    ensures Publishes(PublishStep(h, w, c, a).value, c, tree)
  {
  }

  lemma OwnSwitch(w: World, c: Client, tree: Tree, a: Action)
    requires Publishes(w, c, tree) && SwitchStep(w, c, a).Some? && !a.Close? && a != Commit(true)
    ensures Publishes(SwitchStep(w, c, a).value, c, tree)
  {
  }

  lemma NoOwnEdit(w: World, c: Client, tree: Tree, a: Action)
    requires Publishes(w, c, tree)
    ensures EditStep(w, c, a).None?
  {
  }

  lemma OwnStepPublishes(h: Hash, w: World, c: Client, tree: Tree, a: Action)
    requires Publishes(w, c, tree) && Step(h, w, c, a).Some? && !a.Close? && a != Commit(true)
    ensures Publishes(Step(h, w, c, a).value, c, tree)
  {
    hide PublishStep, SwitchStep, EditStep, Publishes;
    NoOwnEdit(w, c, tree, a);
    if PublishStep(h, w, c, a).Some? {
      OwnPreparation(h, w, c, tree, a);
    } else {
      OwnSwitch(w, c, tree, a);
    }
  }

  lemma {:induction false} StillPublishes(h: Hash, w: World, c: Client, tree: Tree, moves: seq<Move>)
    requires Inv(h, w) && Publishes(w, c, tree) && Run(h, w, moves).Some?
    requires forall m | m in moves :: m.client == c ==> !m.action.Close? && m.action != Commit(true)
    ensures Publishes(Run(h, w, moves).value, c, tree)
    decreases |moves|
  {
    hide Inv, Step, Publishes;
    if moves != [] {
      var m := moves[0];
      var next := Step(h, w, m.client, m.action).value;
      assert m in moves && forall n | n in moves[1..] :: n in moves;
      StepKeeps(h, w, m.client, m.action);
      if m.client == c {
        OwnStepPublishes(h, w, c, tree, m.action);
      } else {
        HasMutex(w, c, tree);
        OthersWait(h, w, c, m.client, m.action);
        UnmovedPublishes(w, next, c, tree);
      }
      StillPublishes(h, next, c, tree, moves[1..]);
    }
  }

  lemma HasMutex(w: World, c: Client, tree: Tree)
    requires Publishes(w, c, tree)
    ensures w.lock == Some(c)
  {
  }

  lemma UnmovedPublishes(w: World, next: World, c: Client, tree: Tree)
    requires Publishes(w, c, tree) && next.work == w.work && next.store == w.store && next.lock == w.lock
    requires PcOf(next, c) == PcOf(w, c)
    ensures Publishes(next, c, tree)
  {
  }

  /** Whatever the other clients do in between: a publish that refreshes and then commits adds one row,
      and the directory of that row, now the current release, holds exactly the tree as this very
      refresh left it, `pack.toml` and `index.toml` included. */
  lemma ReleaseIsItsOwnRefresh(h: Hash, w: World, c: Client, tree: Tree, moves: seq<Move>)
    requires Inv(h, w) && Step(h, w, c, Refresh(tree, true)).Some?
    requires Run(h, Step(h, w, c, Refresh(tree, true)).value, moves).Some?
    requires forall m | m in moves :: m.client == c ==> !m.action.Close? && m.action != Commit(true)
    requires Step(h, Run(h, Step(h, w, c, Refresh(tree, true)).value, moves).value, c, Commit(true)).Some?
    ensures var before := Run(h, Step(h, w, c, Refresh(tree, true)).value, moves).value;
            var store := Step(h, before, c, Commit(true)).value.store;
            && |store.db.rows| == |before.store.db.rows| + 1
            && var row := store.db.rows[|before.store.db.rows|];
               && store.db.current == Some(row.id) && store.link == Some(row.dir)
               && row.dir in store.dirs && store.dirs[row.dir].tree == tree
  {
    var first := Step(h, w, c, Refresh(tree, true)).value;
    StepKeeps(h, w, c, Refresh(tree, true));
    RefreshPublishes(h, w, c, tree);
    RunKeeps(h, first, moves);
    StillPublishes(h, first, c, tree, moves);
    hide Run, Inv, Step;
    CommitPublishes(h, Run(h, first, moves).value, c, tree);
  }

  lemma RefreshPublishes(h: Hash, w: World, c: Client, tree: Tree)
    requires Inv(h, w) && Step(h, w, c, Refresh(tree, true)).Some?
    ensures Publishes(Step(h, w, c, Refresh(tree, true)).value, c, tree)
  {
    hide Core, HolderOk;
    OwnerOnly(h, w, c);
  }

  lemma CommitPublishes(h: Hash, w: World, c: Client, tree: Tree)
    requires Inv(h, w) && Publishes(w, c, tree) && Step(h, w, c, Commit(true)).Some?
    ensures var store, n := Step(h, w, c, Commit(true)).value.store, |w.store.db.rows|;
            && |store.db.rows| == n + 1
            && store.db.current == Some(store.db.rows[n].id) && store.link == Some(store.db.rows[n].dir)
            && store.db.rows[n].dir in store.dirs && store.dirs[store.db.rows[n].dir].tree == tree
  {
    hide LockOk, MarksOk, ServedDir, WorkOk, LinkRest, Recorded, PreviousOk, Whole, Core;
    OwnerOnly(h, w, c);
    StepKeeps(h, w, c, Commit(true));
    var store := Step(h, w, c, Commit(true)).value.store;
    hide Inv;
    NewestRow(h, w, PcOf(w, c));
  }

  lemma NewestRow(h: Hash, w: World, pc: Pc)
    requires pc.Committing? && pc.goal.Forward? && HolderOk(h, w.work, w.store, pc) && Core(h, w.work, w.store)
    requires AddsRow(w, pc.target, pc.goal.next, pc.goal.mark)
    ensures w.store.link == Some(pc.target)
    ensures pc.target in w.store.dirs && w.store.dirs[pc.target].tree == w.work.settled
  {
    hide Whole, MarksOk, ServedDir, WorkOk, Recorded, PreviousOk, TreeRest;
    var n := |w.store.db.rows|;
    var marks := Appended(w.store.marks, pc.goal.mark);
    assert marks[n] == pc.goal.mark.value;
    assert RowOk(h, w.store.dirs, pc.goal.next.rows[n], n + 1, marks[n].tree);
  }

  lemma RowOfStore(h: Hash, store: Store, i: nat)
    requires StoreOk(h, store.dirs, store.db, store.marks) && i < |store.db.rows|
    ensures RowOk(h, store.dirs, store.db.rows[i], i + 1, store.marks[i].tree)
  {
  }

  // ---- transactions ----

  /** The client has an open transaction that has written. */
  predicate Writes(pc: Pc) {
    match pc
    case Written(_, _, _) => true
    case Swapping(_, _, goal) => goal.Forward?
    case Committing(_, _) => true
    case Waiting => true
    case Entered => true
    case Editing(_) => true
    case Moving(_) => true
    case Restoring(_, _) => true
    case _ => false
  }

  ghost predicate WritersLock(w: World) {
    forall c | c in w.pcs :: Writes(w.pcs[c]) ==> w.writer == Some(c)
  }

  lemma StepWrites(h: Hash, w: World, c: Client, a: Action)
    requires WritersLock(w) && Step(h, w, c, a).Some?
    ensures WritersLock(Step(h, w, c, a).value)
  {
    hide PublishStep, SwitchStep, EditStep;
    if PublishStep(h, w, c, a).Some? {
      PreparationWrites(h, w, c, a);
    } else if SwitchStep(w, c, a).Some? {
      SwitchWrites(w, c, a);
    } else {
      EditWrites(w, c, a);
    }
  }

  lemma PreparationWrites(h: Hash, w: World, c: Client, a: Action)
    requires WritersLock(w) && PublishStep(h, w, c, a).Some?
    ensures WritersLock(PublishStep(h, w, c, a).value)
  {
  }

  lemma SwitchWrites(w: World, c: Client, a: Action)
    requires WritersLock(w) && SwitchStep(w, c, a).Some?
    ensures WritersLock(SwitchStep(w, c, a).value)
  {
  }

  lemma EditWrites(w: World, c: Client, a: Action)
    requires WritersLock(w) && EditStep(w, c, a).Some?
    ensures WritersLock(EditStep(w, c, a).value)
  {
  }

  /** In every run at most one client is between its first SQL statement and its commit, editors that wait
      for the mutex included. */
  lemma OneTransactionAtATime(h: Hash, start: World, moves: seq<Move>, c: Client, d: Client)
    requires Initial(start) && Run(h, start, moves).Some?
    requires var pc := PcOf(Run(h, start, moves).value, c);
             || pc.Written? || (pc.Swapping? && pc.goal.Forward?) || pc.Committing?
             || pc.Waiting? || pc.Entered? || pc.Editing? || pc.Moving? || pc.Restoring?
    requires var pc := PcOf(Run(h, start, moves).value, d);
             || pc.Written? || (pc.Swapping? && pc.goal.Forward?) || pc.Committing?
             || pc.Waiting? || pc.Entered? || pc.Editing? || pc.Moving? || pc.Restoring?
    ensures c == d && Run(h, start, moves).value.writer == Some(c)
  {
    hide Step, Run;
    WritersLockKept(h, start, moves);
  }

  lemma {:induction false} WritersLockKept(h: Hash, w: World, moves: seq<Move>)
    requires WritersLock(w) && Run(h, w, moves).Some?
    ensures WritersLock(Run(h, w, moves).value)
    decreases |moves|
  {
    hide Step;
    if moves != [] {
      StepWrites(h, w, moves[0].client, moves[0].action);
      WritersLockKept(h, Step(h, w, moves[0].client, moves[0].action).value, moves[1..]);
    }
  }

  // ---- rolling back ----

  /** A rollback goes to the revision of its number: it is refused exactly if there is none, and otherwise
      that row becomes the current one and its directory the target of the link. */
  lemma RollbackFindsItsRevision(h: Hash, w: World, c: Client, number: int)
    requires Inv(h, w) && PcOf(w, c) == Opened(RollingBack(number)) && w.writer.None?
    ensures Step(h, w, c, Write).Some? <==> 1 <= number <= |w.store.db.rows|
    ensures 1 <= number <= |w.store.db.rows| ==>
              var row, next := w.store.db.rows[number - 1], Step(h, w, c, Write).value;
              && row.number == number && row.dir == Decimal(number)
              && PcOf(next, c) == Written(row.dir, w.store.db.(current := Some(row.id)), None)
              && next.store == w.store && next.work == w.work
  {
    hide StoreOk, HolderOk, MarksOk, WorkOk, Decimal, RowByNumber, TreeRest, LinkRest, LockOk, ServedDir;
    RowsAreNumbered(h, w.store.dirs, w.store.db, w.store.marks);
    FoundByNumber(w.store.db.rows, number, 1);
  }

  // ---- a directory without a row ----

  /** The next number is taken by a directory no row records, and no publish is past its rename. */
  ghost predicate Blocked(w: World) {
    && Decimal(|w.store.db.rows| + 1) in w.store.dirs
    && forall c | c in w.pcs :: SamePending(w.pcs[c], w.store.db.rows)
  }

  predicate SamePending(pc: Pc, rows: seq<Row>) {
    match pc
    case Promoted(_) => false
    case Written(_, next, _) => next.rows == rows
    case Swapping(_, _, Forward(next, _, _)) => next.rows == rows
    case Committing(_, Forward(next, _, _)) => next.rows == rows
    case _ => true
  }

  lemma PublishStepPending(h: Hash, w: World, c: Client, a: Action)
    requires PublishStep(h, w, c, a).Some? && !a.Promote?
    ensures var next := PublishStep(h, w, c, a).value;
            next.pcs == w.pcs[c := PcOf(next, c)] && next.store.db == w.store.db
            && (SamePending(PcOf(w, c), w.store.db.rows) ==> SamePending(PcOf(next, c), w.store.db.rows))
  {
  }

  lemma SwitchStepPending(w: World, c: Client, a: Action)
    requires SwitchStep(w, c, a).Some?
    ensures var next := SwitchStep(w, c, a).value;
            next.pcs == w.pcs[c := PcOf(next, c)]
            && (SamePending(PcOf(w, c), w.store.db.rows) ==>
                SamePending(PcOf(next, c), w.store.db.rows) && next.store.db.rows == w.store.db.rows)
  {
  }

  lemma EditStepPending(w: World, c: Client, a: Action)
    requires EditStep(w, c, a).Some?
    ensures var next := EditStep(w, c, a).value;
            next.pcs == w.pcs[c := PcOf(next, c)] && SamePending(PcOf(next, c), w.store.db.rows) && next.store == w.store
  {
  }

  lemma PromoteIsRefused(h: Hash, w: World, c: Client)
    requires Inv(h, w) && Decimal(|w.store.db.rows| + 1) in w.store.dirs
    ensures PublishStep(h, w, c, Promote).None?
  {
    hide Core, TreeRest, LinkRest, ManifestOk, NextOk, PreviousOk;
    if PcOf(w, c).Sealed? {
      OwnerOnly(h, w, c);
    }
  }

  lemma BlockedStays(h: Hash, w: World, c: Client, a: Action)
    requires Inv(h, w) && Blocked(w) && Step(h, w, c, a).Some?
    ensures var next := Step(h, w, c, a).value;
            Blocked(next) && next.store.db.rows == w.store.db.rows
  {
    hide Inv, PublishStep, SwitchStep, EditStep, SamePending;
    StepKeepsReleases(h, w, c, a);
    assert SamePending(PcOf(w, c), w.store.db.rows) by {
      if c !in w.pcs {
        IdleIsPending(w.store.db.rows);
      }
    }
    PromoteIsRefused(h, w, c);
    if PublishStep(h, w, c, a).Some? {
      PublishStepPending(h, w, c, a);
    } else if SwitchStep(w, c, a).Some? {
      SwitchStepPending(w, c, a);
    } else {
      EditStepPending(w, c, a);
    }
  }

  lemma IdleIsPending(rows: seq<Row>)
    ensures SamePending(Idle, rows)
  {
  }

  /** From then on no publish of the project ever commits again, in any run. */
  lemma {:induction false} UnrecordedDirectoryBlocksPublishing(h: Hash, w: World, moves: seq<Move>)
    requires Inv(h, w) && Blocked(w) && Run(h, w, moves).Some?
    ensures Run(h, w, moves).value.store.db.rows == w.store.db.rows
    decreases |moves|
  {
    hide Inv, Step, Blocked;
    if moves != [] {
      StepKeeps(h, w, moves[0].client, moves[0].action);
      BlockedStays(h, w, moves[0].client, moves[0].action);
      UnrecordedDirectoryBlocksPublishing(h, Step(h, w, moves[0].client, moves[0].action).value, moves[1..]);
    }
  }

  /** One failing SQL statement after the rename is enough to get there. */
  lemma FailedInsertBlocks(h: Hash, w: World, c: Client)
    requires Inv(h, w) && PcOf(w, c).Promoted?
    ensures var failed := [Move(c, Abort), Move(c, Close(None))];
            Run(h, w, failed).Some? && Blocked(Run(h, w, failed).value)
  {
    hide StoreOk, MarksOk, ServedDir, WorkOk, TreeRest, LinkRest, Recorded, PreviousOk, Core, NextOk;
    OwnerOnly(h, w, c);
    var closing := Step(h, w, c, Abort).value;
    var done := Step(h, closing, c, Close(None)).value;
    assert Run(h, done, []) == Some(done);
    assert Run(h, closing, [Move(c, Close(None))]) == Some(done);
    assert [Move(c, Abort), Move(c, Close(None))][1..] == [Move(c, Close(None))];
    forall d | d in done.pcs
      ensures SamePending(done.pcs[d], done.store.db.rows)
    {
      assert d == c || !Critical(done.pcs[d]);
    }
  }
}

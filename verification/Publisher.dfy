/** `Publish` and `Rollback` statement by statement (service/internal/publishing/publisher.go). Every
    statement that touches the disk or the database is one step of the release state machine, so
    what the machine keeps holds at each of them. */
module Publisher {
  import opened Text
  import opened Digest
  import opened Trees
  import opened Releases
  import opened ReleaseSafety
  import opened ReleaseTheorems
  import opened LinkSwitch

  datatype PublishFaults = PublishFaults(
    lookup: bool, refresh: bool, count: bool, stage: bool, copy: Option<nat>, manifest: bool, rename: bool, insert: bool,
    link: LinkFaults, cleanup: Option<Release>)

  datatype RollbackFaults = RollbackFaults(lookup: bool, update: bool, link: LinkFaults)

  function EntriesOf(h: Hash, tree: Tree, walk: seq<Path>): seq<FileEntry> {
    if walk == [] then []
    else
      var p := walk[|walk| - 1];
      var before := EntriesOf(h, tree, walk[..|walk| - 1]);
      if p in tree && tree[p].File? then before + [EntryOf(h, p, tree[p].data)] else before
  }

  /** The store after `atomicCurrent`; `faulted` is set where a failure cannot be undone any more. */
  function AfterSwitch(store: Store, target: string, goal: Goal, faults: SwitchFaults): Store {
    store.(link := LinkAfterSwitch(store.link, target, faults),
           faulted := store.faulted || (if faults.link then goal.Back? else !SwitchWorks(faults)))
  }

  /** The store after `restoreCurrent`. */
  function AfterRestore(store: Store, previous: Option<string>, faults: SwitchFaults): Store {
    match previous
    case Some(p) => AfterSwitch(store, p, Back, faults)
    case None =>
      if faults.remove then store.(faulted := store.faulted || store.link.Some?) else store.(link := None)
  }

  class Publisher {
    const h: Hash
    const me: Client
    /** The disk, the database and the locks, and the steps taken since the object was made. */
    var w: World
    ghost const start: World
    ghost var done: seq<Move>

    ghost predicate Valid()
      reads this
    {
      Inv(h, w) && Run(h, start, done) == Some(w)
    }

    constructor (h: Hash, me: Client, w: World)
      requires Inv(h, w)
      ensures Valid() && this.h == h && this.me == me && this.w == w && this.start == w
    {
      this.h, this.me, this.w, this.start, this.done := h, me, w, w, [];
    }

    function Pc(): Pc
      reads this
    {
      PcOf(w, me)
    }

    method Act(a: Action)
      requires Valid() && Step(h, w, me, a).Some?
      modifies this
      ensures Valid() && w == Step(h, old(w), me, a).value
    {
      StepKeeps(h, w, me, a);
      RunConcat(h, start, done, [Move(me, a)]);
      RunOne(h, w, Move(me, a));
      done := done + [Move(me, a)];
      hide Inv, Step, Run;
      w := Step(h, w, me, a).value;
    }

    /** A step of the second half, and one of the first. */
    method Switch(a: Action)
      requires Valid() && SwitchStep(w, me, a).Some?
      modifies this
      ensures Valid() && w == SwitchStep(old(w), me, a).value
    {
      StepIsSwitch(h, w, me, a);
      hide *;
      Act(a);
    }

    method Prepare(a: Action)
      requires Valid() && PublishStep(h, w, me, a).Some?
      modifies this
      ensures Valid() && w == PublishStep(h, old(w), me, a).value
    {
      StepIsPublish(h, w, me, a);
      hide *;
      Act(a);
    }

    /** `copyTree`: every entry in walking order, the manifest entries of the files appended. */
    method CopyTree(walk: seq<Path>, fault: Option<nat>) returns (ok: bool)
      requires Valid() && CopyStarts(w, me) && WalksAll(walk, w.work.tree.value)
      modifies this
      ensures Valid()
      ensures ok <==> fault.None? || fault.value >= |walk|
      ensures if ok then w == CopiedWorld(h, old(w), me, walk)
              else fault.value <= |walk| && w == CopiedWorld(h, old(w), me, walk[..fault.value])
    {
      hide *;
      CopiedNothing(h, w, me);
      assert walk[..0] == [] && walk[..|walk|] == walk;
      for k := 0 to |walk|
        invariant Valid() && w == CopiedWorld(h, old(w), me, walk[..k])
        invariant fault.Some? ==> fault.value >= k
      {
        if fault == Some(k) {
          return false;
        }
        CopyStep(h, old(w), me, walk, k);
        Act(CopyOne(walk[k]));
      }
      ok := true;
    }

    /** `atomicCurrent`: rename over the link, and once more after removing it. */
    method AtomicCurrent(faults: SwitchFaults) returns (ok: bool)
      requires Valid() && Pc().Swapping? && Pc().attempt.First?
      modifies this
      ensures Valid() && ok == SwitchWorks(faults) && w == AfterAtomic(old(w), me, faults)
    {
      hide Inv, SwitchStep, PublishStep, EditStep, Step, AfterAtomic, SwitchWorks, PcOf;
      AtomicSteps(w, me, faults);
      if faults.link {
        Switch(NoLink);
        LinkFailed(faults);
        return false;
      }
      if faults.rename {
        AtomicRetry(w, me, faults);
      }
      Switch(Swap(!faults.rename));
      if faults.rename {
        Switch(Swap(!faults.remove));
        Switch(Swap(!faults.again));
      }
      ok := SwitchWorks(faults);
    }

    /** `restoreCurrent`, after a failed commit. */
    method RestoreCurrent(faults: SwitchFaults)
      requires Valid() && (Pc().Unlinking? || (Pc().Swapping? && Pc().attempt.First? && Pc().goal.Back?))
      modifies this
      ensures Valid() && Ended(old(w), w, me) && w.writer == old(w.writer)
      ensures w.store == AfterRestore(old(w).store, if old(Pc()).Swapping? then Some(old(Pc()).target) else None, faults)
    {
      if Pc().Unlinking? {
        hide Inv, PublishStep, EditStep, Step;
        Switch(Unlink(!faults.remove));
      } else {
        hide Inv, SwitchStep, PublishStep, EditStep, Step;
        var restored := AtomicCurrent(faults);
      }
    }

    /** From the written rows on: the link, the commit, and the undo. */
    method CommitSwitch(faults: LinkFaults) returns (ok: bool)
      requires Valid() && Pc().Written?
      modifies this
      ensures Valid() && Ended(old(w), w, me) && w.store.dirs == old(w).store.dirs
      ensures ok == SwitchCommits(faults)
      ensures ok ==> w.writer == None && w.store == CommittedStore(old(w).store, old(Pc()))
      ensures !ok ==> w.store.db == old(w).store.db && w.store.marks == old(w).store.marks
      ensures w.store.link == LinkAfter(old(w).store.link, old(Pc()).target, faults)
    {
      hide Inv, PublishStep, EditStep, Step, AfterSwitch, SwitchWorks, LinkAfterSwitch;
      Switch(ReadLink(!faults.readlink));
      ghost var before := w;
      ok := AtomicCurrent(faults.switch);
      AfterSwitchFails(before, me, faults.switch);
      if !ok {
        return;
      }
      Switch(Commit(!faults.commit));
      if faults.commit {
        RestoredLink(w.store, if faults.readlink then None else old(w).store.link, faults.undo);
        RestoreCurrent(faults.undo);
        ok := false;
      }
    }

    /** From the mutex to the empty staging directory. */
    method RefreshAndStage(id: string, refreshed: Tree, faults: PublishFaults) returns (ok: bool)
      requires Valid() && Pc() == Opened(Publishing) && Fresh(w.store, id) && Refreshes(w.work.tree, refreshed)
      modifies this
      ensures Valid() && SameRecords(old(w), w) && SameNumbered(old(w).store.dirs, w.store.dirs)
      ensures ok == (!faults.lookup && HasPack(old(w).work.tree) && !faults.refresh && !faults.count && !faults.stage)
      ensures ok ==>
                && CopyStarts(w, me) && Pc() == Copying(id, |w.store.db.rows| + 1, {}, [])
                && w.work == old(w).work.(tree := Some(refreshed), settled := refreshed)
                && w.store.dirs == old(w).store.dirs[StageName(id) := Release(map[], None)]
      ensures !ok ==> Pc() == Closing(None) && w.store.dirs == old(w).store.dirs
    {
      hide Inv, SwitchStep, EditStep, Step, ValidTree;
      if faults.lookup || !HasPack(w.work.tree) {
        Prepare(Abort);
        return false;
      }
      Prepare(Refresh(refreshed, !faults.refresh));
      if faults.refresh {
        return false;
      }
      if faults.count || faults.stage {
        Prepare(Abort);
        return false;
      }
      CountIsNumber(h, w);
      StageNameHasDot(id);
      Prepare(Stage(id));
      ok := true;
    }

    /** From the empty staging directory to the numbered one. */
    method FillAndPromote(walk: seq<Path>, faults: PublishFaults) returns (m: Option<Manifest>)
      requires Valid() && CopyStarts(w, me) && WalksAll(walk, w.work.tree.value)
      modifies this
      ensures Valid() && SameRecords(old(w), w) && w.work == old(w).work
      ensures m.Some? <==> (faults.copy.None? || faults.copy.value >= |walk|) && !faults.manifest && !faults.rename
                           && Decimal(old(Pc()).number) !in old(w).store.dirs
      ensures m.Some? ==>
                && m.value == ManifestOf(h, w.work.tree.value, walk, old(Pc()).id, old(Pc()).number)
                && Pc() == Promoted(m.value)
                && Decimal(m.value.number) in w.store.dirs
                && w.store.dirs[Decimal(m.value.number)] == Release(w.work.tree.value, Some(m.value))
      ensures m.None? ==> Pc().Closing?
      ensures NumberedBut(old(w).store.dirs, w.store.dirs, Decimal(old(Pc()).number), m.Some?)
    {
      hide Inv, SwitchStep, PublishStep, EditStep, Step, SameNumbered, NumberedBut, CopiedWorld, WalksAll;
      ghost var before, name, tree := w.store.dirs, Decimal(Pc().number), w.work.tree.value;
      StageIsNotFinal(Pc().id, Pc().number);
      ghost var reached := if faults.copy.None? || faults.copy.value >= |walk| then walk else walk[..faults.copy.value];
      CopiedFacts(h, w, me, reached);
      var copied := CopyTree(walk, faults.copy);
      ghost var middle := w.store.dirs;
      if !copied {
        Stop();
        NothingAdded(before, w.store.dirs, name);
        return None;
      }
      AllIsCopied(tree, walk);
      m := SealAndPromote(faults);
      ThenAdded(before, middle, w.store.dirs, name, m.Some?);
    }

    method Stop()
      requires Valid() && Pc().Copying?
      modifies this
      ensures Valid() && Pc().Closing? && w == To(old(w), me, Pc())
    {
      hide Inv, SwitchStep, EditStep, Step;
      Prepare(Abort);
    }

    /** The manifest, and the rename to the numbered directory. */
    method SealAndPromote(faults: PublishFaults) returns (m: Option<Manifest>)
      requires Valid() && Pc().Copying? && w.work.tree.Some? && Pc().copied == w.work.tree.value.Keys
      requires StageName(Pc().id) in w.store.dirs && w.store.dirs[StageName(Pc().id)] == Release(w.work.tree.value, None)
      modifies this
      ensures Valid() && SameRecords(old(w), w) && w.work == old(w).work
      ensures m.Some? <==> !faults.manifest && !faults.rename && Decimal(old(Pc()).number) !in old(w).store.dirs
      ensures m.Some? ==>
                && m.value == Manifest(old(Pc()).id, old(Pc()).number, Sort(old(Pc()).entries), h(DigestInput(old(Pc()).entries)))
                && Pc() == Promoted(m.value)
                && Decimal(m.value.number) in w.store.dirs
                && w.store.dirs[Decimal(m.value.number)] == Release(w.work.tree.value, Some(m.value))
      ensures m.None? ==> Pc().Closing?
      ensures NumberedBut(old(w).store.dirs, w.store.dirs, Decimal(old(Pc()).number), m.Some?)
    {
      hide Inv, SwitchStep, EditStep, Step, StageName, Decimal, AllDigits, Sort, DigestInput;
      StageNameHasDot(Pc().id);
      StageIsNotFinal(Pc().id, Pc().number);
      Prepare(CopyDone);
      if faults.manifest {
        Prepare(Abort);
        return None;
      }
      Prepare(Seal);
      if faults.rename || Decimal(Pc().manifest.number) in w.store.dirs {
        Prepare(Abort);
        return None;
      }
      m := Some(Pc().manifest);
      Prepare(Promote);
    }

    /** `Publish`. It succeeds exactly when nothing fails and the number's directory is free; then the row
        is added, the link names its directory, and the directory holds the refreshed tree. On an
        error the rows are as before, and so is the link unless a compensating operation failed; yet
        the numbered directory stays exactly if the publish got past its rename. */
    method Publish(id: string, refreshed: Tree, walk: seq<Path>, faults: PublishFaults) returns (r: Result<Manifest>)
      requires Valid() && Pc().Idle? && w.lock.None?
      requires Fresh(w.store, id) && Refreshes(w.work.tree, refreshed) && WalksAll(walk, refreshed)
      modifies this
      ensures Valid() && Pc().Idle? && w.lock.None?
      ensures r.Ok? <==>
                && !faults.lookup && old(w).work.tree.Some? && ["pack.toml"] in old(w).work.tree.value && !faults.refresh
                && !faults.count && !faults.stage && (faults.copy.None? || faults.copy.value >= |walk|) && !faults.manifest
                && !faults.rename && Decimal(|old(w).store.db.rows| + 1) !in old(w).store.dirs
                && !faults.insert && old(w).writer.None?
                && !faults.link.switch.link && !(faults.link.switch.rename && faults.link.switch.again) && !faults.link.commit
      ensures r.Ok? ==>
                var n, dir := |old(w).store.db.rows| + 1, Decimal(|old(w).store.db.rows| + 1);
                && w.store.db == Db(old(w).store.db.rows + [Row(id, n, dir, r.value.digest)], Some(id))
                && w.store.link == Some(dir) && dir in w.store.dirs && w.store.dirs[dir] == Release(refreshed, Some(r.value))
                && w.work.tree == Some(refreshed)
      ensures r.Err? && (faults.link.switch.link
                     || (faults.link.commit && !faults.link.readlink && faults.link.switch == SwitchFaults(false, false, false, false)
                         && faults.link.undo == SwitchFaults(false, false, false, false))) ==>
                w.store.link == old(w).store.link
      ensures r.Ok? ==> r.value == ManifestOf(h, refreshed, walk, id, |old(w).store.db.rows| + 1)
                        && Published(old(w).store, w.store, r.value, refreshed)
      ensures r.Err? ==> w.store.db == old(w).store.db && w.store.marks == old(w).store.marks
      ensures LinkOutcome(old(w).store, w.store, Decimal(|old(w).store.db.rows| + 1), Switches(old(w), walk, faults), faults.link)
      ensures NumberedBut(old(w).store.dirs, w.store.dirs, Decimal(|old(w).store.db.rows| + 1), CanPromote(old(w), walk, faults))
    {
      hide Inv, Step, PcOf, Fresh, Refreshes, WalksAll, CanPromote, SwitchCommits, LinkOutcome, LinkAfter, ManifestOf, Decimal, AllDigits, Recorded;
      NumberHasDigits(|w.store.db.rows| + 1);
      PublishConditions(w, walk, faults);
      PlainUndoKeeps(w.store.link, Decimal(0), faults.link);
      ghost var name := Decimal(|w.store.db.rows| + 1);
      var promoted := Snapshot(id, refreshed, walk, faults);
      if promoted.None? {
        OutcomeOfLink(h, old(w).store, w, name, false, faults.link);
        return Err;
      }
      var recorded := Record(faults);
      OutcomeOfLink(h, old(w).store, w, name, !faults.insert && old(w).writer.None?, faults.link);
      r := if recorded then Ok(promoted.value) else Err;
    }

    /** From the mutex to the promoted directory. */
    method Snapshot(id: string, refreshed: Tree, walk: seq<Path>, faults: PublishFaults) returns (m: Option<Manifest>)
      requires Valid() && Pc().Idle? && w.lock.None?
      requires Fresh(w.store, id) && Refreshes(w.work.tree, refreshed) && WalksAll(walk, refreshed)
      modifies this
      ensures Valid() && w.store.db == old(w).store.db && w.store.marks == old(w).store.marks && w.store.link == old(w).store.link
      ensures m.Some? <==> CanPromote(old(w), walk, faults)
      ensures m.Some? ==>
                && m.value == ManifestOf(h, refreshed, walk, id, |w.store.db.rows| + 1) && Pc() == Promoted(m.value)
                && m.value.number == |w.store.db.rows| + 1 && m.value.id == id && w.work.tree == Some(refreshed)
                && Decimal(m.value.number) in w.store.dirs
                && w.store.dirs[Decimal(m.value.number)] == Release(refreshed, Some(m.value)) && w.writer == old(w).writer
      ensures m.None? ==> Pc().Idle? && w.lock.None?
      ensures NumberedBut(old(w).store.dirs, w.store.dirs, Decimal(|w.store.db.rows| + 1), m.Some?)
    {
      hide Inv, SwitchStep, PublishStep, EditStep, Step, CopyStarts, Fresh, Refreshes, WalksAll, HasPack;
      TakeLock(Publishing);
      StageIsNotFinal(id, |w.store.db.rows| + 1);
      var staged := RefreshAndStage(id, refreshed, faults);
      if !staged {
        Leave(None);
        return None;
      }
      m := FillAndPromote(walk, faults);
      if m.None? {
        Leave(faults.cleanup);
      }
    }

    /** From the promoted directory on: the row, the link, the commit. */
    method Record(faults: PublishFaults) returns (ok: bool)
      requires Valid() && Pc().Promoted?
      modifies this
      ensures Valid() && Pc().Idle? && w.lock.None? && w.work == old(w).work
      ensures ok == (!faults.insert && old(w).writer.None? && SwitchCommits(faults.link))
      ensures ok ==> var m, dir := old(Pc()).manifest, Decimal(old(Pc()).manifest.number);
                && w.store.db == Db(old(w).store.db.rows + [Row(m.id, m.number, dir, m.digest)], Some(m.id))
                && w.store.link == Some(dir) && !w.store.faulted
      ensures SameNumbered(old(w).store.dirs, w.store.dirs)
      ensures !ok ==> w.store.db == old(w).store.db && w.store.marks == old(w).store.marks
      ensures w.store.link == if faults.insert || old(w).writer.Some? then old(w).store.link
                              else LinkAfter(old(w).store.link, Decimal(old(Pc()).manifest.number), faults.link)
    {
      hide Inv, SwitchStep, PublishStep, EditStep, Step, SwitchCommits, LinkAfter;
      if faults.insert || w.writer.Some? {
        GiveUp();
        return false;
      }
      InsertRow();
      ok := CommitSwitch(faults.link);
      Leave(None);
    }

    /** `Rollback`. It succeeds exactly when there is a revision of that number and nothing fails; then it is
        the current one and the link names its directory. No directory changes. */
    method Rollback(number: int, faults: RollbackFaults) returns (ok: bool)
      requires Valid() && Pc().Idle? && w.lock.None?
      modifies this
      ensures Valid() && Pc().Idle? && w.lock.None?
      ensures ok <==> 1 <= number <= |old(w).store.db.rows| && !faults.lookup && !faults.update && old(w).writer.None?
                      && !faults.link.switch.link && !(faults.link.switch.rename && faults.link.switch.again)
                      && !faults.link.commit
      ensures !ok && (faults.link.switch.link
                     || (faults.link.commit && !faults.link.readlink && faults.link.switch == SwitchFaults(false, false, false, false)
                         && faults.link.undo == SwitchFaults(false, false, false, false))) ==>
                w.store.link == old(w).store.link
      ensures ok ==> var row := old(w).store.db.rows[number - 1];
                && row.number == number && row.dir == Decimal(number)
                && w.store.db == old(w).store.db.(current := Some(row.id)) && w.store.marks == old(w).store.marks
                && w.store.link == Some(row.dir) && !w.store.faulted
      ensures !ok ==> w.store.db == old(w).store.db && w.store.marks == old(w).store.marks
      ensures LinkOutcome(old(w).store, w.store, if number >= 0 then Decimal(number) else "",
                          !faults.lookup && 1 <= number <= |old(w).store.db.rows| && !faults.update && old(w).writer.None?,
                          faults.link)
      ensures w.work == old(w).work
      ensures SameNumbered(old(w).store.dirs, w.store.dirs)
    {
      hide Inv, SwitchStep, PublishStep, EditStep, Step, SwitchCommits, RowByNumber, LinkOutcome, LinkAfter, Decimal, AllDigits, SameNumbered;
      NumbersOf(h, w, number);
      CommitConditions(faults.link);
      PlainUndoKeeps(w.store.link, Decimal(0), faults.link);
      AllNumbered(w.store.dirs);
      TakeLock(RollingBack(number));
      ghost var target := if number >= 0 then Decimal(number) else "";
      if faults.lookup || RowByNumber(w.store.db.rows, number).None? || faults.update || w.writer.Some? {
        GiveUp();
        OutcomeOfLink(h, old(w).store, w, target, false, faults.link);
        return false;
      }
      UpdateCurrent();
      ok := CommitSwitch(faults.link);
      Leave(None);
      OutcomeOfLink(h, old(w).store, w, target, true, faults.link);
    }

    method UpdateCurrent()
      requires Valid() && Pc().Opened? && Pc().op.RollingBack? && w.writer.None?
      requires RowByNumber(w.store.db.rows, Pc().op.number).Some?
      modifies this
      ensures Valid() && w == WithCurrent(old(w), me)
    {
      hide Inv, PublishStep, EditStep, Step, RowByNumber;
      Switch(Write);
    }

    method TakeLock(op: Op)
      requires Valid() && Pc().Idle? && w.lock.None?
      modifies this
      ensures Valid() && w == To(old(w), me, Opened(op)).(lock := Some(me))
    {
      hide Inv, SwitchStep, EditStep, Step;
      Prepare(Lock(op));
    }

    /** The deferred calls: the staging directory is removed, the transaction ended, the mutex freed. */
    method Leave(left: Option<Release>)
      requires Valid() && Pc().Closing?
      modifies this
      ensures Valid() && Pc().Idle? && w.lock.None? && w.work == old(w).work
      ensures w.store == old(w).store.(dirs := w.store.dirs)
      ensures SameNumbered(old(w).store.dirs, w.store.dirs)
    {
      hide Inv, PublishStep, EditStep, Step;
      ClosingIsStage(h, w, me);
      Switch(Close(left));
    }

    method GiveUp()
      requires Valid() && (Pc().Promoted? || Pc().Opened?)
      modifies this
      ensures Valid() && Pc().Idle? && w.lock.None? && w.store == old(w).store && w.work == old(w).work
    {
      hide Inv, EditStep, Step;
      Prepare(Abort);
      Switch(Close(None));
    }

    method InsertRow()
      requires Valid() && Pc().Promoted? && w.writer.None?
      modifies this
      ensures Valid() && w == WithRow(old(w), me)
    {
      hide Inv, PublishStep, EditStep, Step;
      Switch(Write);
    }
  }

  function WithRow(w: World, c: Client): World
    requires PcOf(w, c).Promoted?
  {
    var m := PcOf(w, c).manifest;
    To(w, c, Written(Decimal(m.number),
                     Db(w.store.db.rows + [Row(m.id, m.number, Decimal(m.number), m.digest)], Some(m.id)),
                     Some(Mark(|w.work.log|, w.work.settled, w.work.stray)))).(writer := Some(c))
  }

  function WithCurrent(w: World, c: Client): World
    requires PcOf(w, c).Opened? && PcOf(w, c).op.RollingBack? && RowByNumber(w.store.db.rows, PcOf(w, c).op.number).Some?
  {
    var row := RowByNumber(w.store.db.rows, PcOf(w, c).op.number).value;
    To(w, c, Written(row.dir, w.store.db.(current := Some(row.id)), None)).(writer := Some(c))
  }

  /** A publish that gets past its rename. */
  ghost predicate CanPromote(w: World, walk: seq<Path>, faults: PublishFaults) {
    && !faults.lookup && HasPack(w.work.tree) && !faults.refresh && !faults.count && !faults.stage
    && (faults.copy.None? || faults.copy.value >= |walk|) && !faults.manifest && !faults.rename
    && Decimal(|w.store.db.rows| + 1) !in w.store.dirs
  }

  /** A publish that gets to switching the link. */
  ghost predicate Switches(w: World, walk: seq<Path>, faults: PublishFaults) {
    CanPromote(w, walk, faults) && !faults.insert && w.writer.None?
  }

  ghost predicate CanPublish(w: World, walk: seq<Path>, faults: PublishFaults) {
    Switches(w, walk, faults) && SwitchCommits(faults.link)
  }

  /** The link after an operation that reached its switch or not; when a failed one leaves it as it was;
      and when a link that agreed with the current revision still does. */
  ghost predicate LinkOutcome(before: Store, after: Store, target: string, reached: bool, faults: LinkFaults) {
    var kept := !reached || LinkKept(before.link, target, faults);
    && after.link == (if reached then LinkAfter(before.link, target, faults) else before.link)
    && (!(reached && SwitchCommits(faults)) ==> (after.link == before.link <==> kept))
    && (before.link == Recorded(before.db) ==>
        (after.link == Recorded(after.db) <==> (reached && SwitchCommits(faults)) || kept))
  }

  lemma OutcomeOfLink(h: Hash, before: Store, after: World, target: string, reached: bool, faults: LinkFaults)
    requires Inv(h, after) && after.lock.None?
    requires after.store.link == if reached then LinkAfter(before.link, target, faults) else before.link
    requires if reached && SwitchCommits(faults) then !after.store.faulted else after.store.db == before.db
    ensures LinkOutcome(before, after.store, target, reached, faults)
    ensures KeptByPlainUndo(faults) && !(reached && SwitchCommits(faults)) ==> after.store.link == before.link
  {
    PlainUndoKeeps(before.link, target, faults);
    hide Core, LockOk, LinkAfter, LinkKept, Recorded, KeptByPlainUndo;
    if reached && SwitchCommits(faults) {
      LinkAfterCommit(before.link, target, faults);
    } else if reached {
      LinkKeptExactly(before.link, target, faults);
    }
  }

  lemma CommitConditions(faults: LinkFaults)
    ensures SwitchCommits(faults) <==> !faults.switch.link && !(faults.switch.rename && faults.switch.again) && !faults.commit
  {
  }

  lemma PublishConditions(w: World, walk: seq<Path>, faults: PublishFaults)
    ensures CanPublish(w, walk, faults) <==>
              && !faults.lookup && w.work.tree.Some? && ["pack.toml"] in w.work.tree.value && !faults.refresh
              && !faults.count && !faults.stage && (faults.copy.None? || faults.copy.value >= |walk|) && !faults.manifest
              && !faults.rename && Decimal(|w.store.db.rows| + 1) !in w.store.dirs
              && !faults.insert && w.writer.None?
              && !faults.link.switch.link && !(faults.link.switch.rename && faults.link.switch.again) && !faults.link.commit
    ensures CanPublish(w, walk, faults) <==> Switches(w, walk, faults) && SwitchCommits(faults.link)
    ensures Switches(w, walk, faults) <==> CanPromote(w, walk, faults) && !faults.insert && w.writer.None?
  {
    hide Decimal;
  }

  /** No numbered directory is added, removed or changed. */
  ghost predicate SameNumbered(before: map<string, Release>, after: map<string, Release>) {
    forall d | AllDigits(d) :: (d in after <==> d in before) && (d in before ==> after[d] == before[d])
  }

  /** No numbered directory is added, removed or changed, but that one is added if so said. */
  ghost predicate NumberedBut(before: map<string, Release>, after: map<string, Release>, name: string, added: bool) {
    && (added ==> name in after && name !in before)
    && forall d | AllDigits(d) && !(added && d == name) :: (d in after <==> d in before) && (d in before ==> after[d] == before[d])
  }

  lemma NothingAdded(before: map<string, Release>, after: map<string, Release>, name: string)
    requires SameNumbered(before, after)
    ensures NumberedBut(before, after, name, false)
  {
  }

  lemma ThenAdded(before: map<string, Release>, copied: map<string, Release>, after: map<string, Release>, name: string, added: bool)
    requires SameNumbered(before, copied) && NumberedBut(copied, after, name, added) && AllDigits(name)
    ensures NumberedBut(before, after, name, added)
  {
  }

  ghost predicate Published(before: Store, after: Store, m: Manifest, tree: Tree) {
    var dir := Decimal(m.number);
    && after.db == Db(before.db.rows + [Row(m.id, m.number, dir, m.digest)], Some(m.id))
    && after.link == Some(dir) && !after.faulted
    && dir in after.dirs && after.dirs[dir] == Release(tree, Some(m))
  }

  lemma ClosingIsStage(h: Hash, w: World, c: Client)
    requires Inv(h, w) && PcOf(w, c).Closing?
    ensures w.lock == Some(c) && (PcOf(w, c).stage.Some? ==> !AllDigits(PcOf(w, c).stage.value))
  {
    hide Core, TreeRest, LinkRest;
  }

  lemma NumbersOf(h: Hash, w: World, number: int)
    requires Inv(h, w)
    ensures RowByNumber(w.store.db.rows, number) ==
            if 1 <= number <= |w.store.db.rows| then Some(w.store.db.rows[number - 1]) else None
    ensures 1 <= number <= |w.store.db.rows| ==>
              w.store.db.rows[number - 1].number == number && w.store.db.rows[number - 1].dir == Decimal(number)
  {
    hide StoreOk, HolderOk, MarksOk, WorkOk, Decimal, RowByNumber, TreeRest, LinkRest, LockOk, ServedDir;
    RowsAreNumbered(h, w.store.dirs, w.store.db, w.store.marks);
    FoundByNumber(w.store.db.rows, number, 1);
  }

  lemma AllNumbered(dirs: map<string, Release>)
    ensures SameNumbered(dirs, dirs)
  {
  }

  ghost predicate Fresh(store: Store, id: string) {
    StageName(id) !in store.dirs && RowById(store.db.rows, id).None?
  }

  /** Packwiz rewrites only `pack.toml` and `index.toml`. */
  ghost predicate Refreshes(tree: Option<Tree>, refreshed: Tree) {
    ValidTree(refreshed) && (tree.Some? ==> tree.value - PACK_FILES == refreshed - PACK_FILES)
  }

  predicate HasPack(tree: Option<Tree>) {
    tree.Some? && ["pack.toml"] in tree.value
  }

  function ManifestOf(h: Hash, tree: Tree, walk: seq<Path>, id: string, number: nat): Manifest {
    Manifest(id, number, Sort(EntriesOf(h, tree, walk)), h(DigestInput(EntriesOf(h, tree, walk))))
  }

  /** Rows, link and mutex are as before. */
  ghost predicate SameRecords(before: World, after: World) {
    && after.store.db == before.store.db && after.store.link == before.store.link && after.store.marks == before.store.marks
    && after.store.faulted == before.store.faulted && after.writer == before.writer && after.lock == before.lock
  }

  lemma CountIsNumber(h: Hash, w: World)
    requires Inv(h, w)
    ensures MaxNumber(w.store.db.rows) == |w.store.db.rows|
  {
    hide Core, HolderOk;
    MaxOfCore(h, w.work, w.store);
  }

  lemma NumberHasDigits(number: nat)
    ensures AllDigits(Decimal(number))
  {
  }

  lemma StageIsNotFinal(id: string, number: nat)
    ensures StageName(id) != Decimal(number)
  {
    StageNameHasDot(id);
  }

  /** The client has come to the end of its operation. */
  ghost predicate Ended(before: World, after: World, c: Client) {
    after.pcs == before.pcs[c := Closing(None)] && after.lock == before.lock && after.work == before.work
  }

  function CommittedStore(store: Store, pc: Pc): Store
    requires pc.Written?
  {
    store.(db := pc.next, marks := Appended(store.marks, pc.mark), link := Some(pc.target), faulted := false)
  }

  lemma AfterSwitchFails(w: World, c: Client, faults: SwitchFaults)
    requires PcOf(w, c).Swapping? && PcOf(w, c).goal.Forward?
    ensures var after := AfterAtomic(w, c, faults);
            && after.store.db == w.store.db && after.store.marks == w.store.marks && after.store.dirs == w.store.dirs
            && after.writer == w.writer && after.store.link == LinkAfterSwitch(w.store.link, PcOf(w, c).target, faults)
            && (SwitchWorks(faults) ==> after.store == w.store.(link := Some(PcOf(w, c).target)))
  {
  }

  lemma RestoredLink(store: Store, previous: Option<string>, faults: SwitchFaults)
    ensures var after := AfterRestore(store, previous, faults);
            && after.db == store.db && after.marks == store.marks && after.dirs == store.dirs
            && after.link == LinkAfterRestore(store.link, previous, faults)
  {
  }

  /** A client is where it moved last. */
  lemma ToIsLast(w: World, c: Client, x: Pc, y: Pc)
    ensures w.pcs[c := x][c := y] == w.pcs[c := y]
  {
  }

  function AfterAtomic(w: World, c: Client, faults: SwitchFaults): World
    requires PcOf(w, c).Swapping?
  {
    var pc := PcOf(w, c);
    To(w, c, if SwitchWorks(faults) && pc.goal.Forward? then Committing(pc.target, pc.goal) else Closing(None))
    .(store := AfterSwitch(w.store, pc.target, pc.goal, faults))
  }

  lemma AtomicSteps(w: World, c: Client, faults: SwitchFaults)
    requires PcOf(w, c).Swapping? && PcOf(w, c).attempt.First?
    ensures faults.link ==> SwitchStep(w, c, NoLink) == Some(AfterAtomic(w, c, faults))
    ensures !faults.link && !faults.rename ==> SwitchStep(w, c, Swap(true)) == Some(AfterAtomic(w, c, faults))
  {
  }

  lemma AtomicRetry(w: World, c: Client, faults: SwitchFaults)
    requires PcOf(w, c).Swapping? && PcOf(w, c).attempt.First? && !faults.link && faults.rename
    ensures var first := SwitchStep(w, c, Swap(false));
            && first.Some?
            && var second := SwitchStep(first.value, c, Swap(!faults.remove));
               && second.Some? && SwitchStep(second.value, c, Swap(!faults.again)) == Some(AfterAtomic(w, c, faults))
  {
    var pc := PcOf(w, c);
    var end := PcOf(AfterAtomic(w, c, faults), c);
    ToIsLast(w, c, pc.(attempt := Clear), pc.(attempt := Second));
    ToIsLast(w, c, pc.(attempt := Second), end);
  }

  lemma LinkFailed(faults: SwitchFaults)
    requires faults.link
    ensures !SwitchWorks(faults)
  {
  }

  // ---- copying ----

  function CopiedTree(tree: Tree, walk: seq<Path>): Tree {
    if walk == [] then map[]
    else
      var p := walk[|walk| - 1];
      var before := CopiedTree(tree, walk[..|walk| - 1]);
      if p in tree then before[p := tree[p]] else before
  }

  ghost predicate CopyStarts(w: World, c: Client) {
    && PcOf(w, c).Copying? && PcOf(w, c).copied == {} && PcOf(w, c).entries == [] && w.work.tree.Some?
    && var stage := StageName(PcOf(w, c).id); stage in w.store.dirs && w.store.dirs[stage] == Release(map[], None)
  }

  /** The world when the entries of `walk` are copied. */
  ghost function CopiedWorld(h: Hash, w: World, c: Client, walk: seq<Path>): World
    requires CopyStarts(w, c)
  {
    var id, tree := PcOf(w, c).id, w.work.tree.value;
    To(w, c, Copying(id, PcOf(w, c).number, (set p | p in walk), EntriesOf(h, tree, walk)))
    .(store := WithDir(w.store, StageName(id), Release(CopiedTree(tree, walk), None)))
  }

  lemma CopiedFacts(h: Hash, w: World, c: Client, walk: seq<Path>)
    requires CopyStarts(w, c)
    ensures var after, id, tree := CopiedWorld(h, w, c, walk), PcOf(w, c).id, w.work.tree.value;
            && PcOf(after, c) == Copying(id, PcOf(w, c).number, (set p | p in walk), EntriesOf(h, tree, walk))
            && StageName(id) in after.store.dirs && after.store.dirs[StageName(id)] == Release(CopiedTree(tree, walk), None)
            && SameRecords(w, after) && after.work == w.work && SameNumbered(w.store.dirs, after.store.dirs)
            && forall d | d != StageName(id) :: d in after.store.dirs <==> d in w.store.dirs
  {
    StageNameHasDot(PcOf(w, c).id);
  }

  lemma CopiedNothing(h: Hash, w: World, c: Client)
    requires CopyStarts(w, c)
    ensures CopiedWorld(h, w, c, []) == w
  {
    assert (set p: Path | p in []) == {};
    assert w.store.dirs[StageName(PcOf(w, c).id) := Release(map[], None)] == w.store.dirs;
    assert w.pcs[c := PcOf(w, c)] == w.pcs;
  }

  lemma CopyStep(h: Hash, w: World, c: Client, walk: seq<Path>, k: nat)
    requires CopyStarts(w, c) && WalksAll(walk, w.work.tree.value) && k < |walk|
    ensures Step(h, CopiedWorld(h, w, c, walk[..k]), c, CopyOne(walk[k])) == Some(CopiedWorld(h, w, c, walk[..k + 1]))
  {
    hide SwitchStep, EditStep;
    var p, before := walk[k], walk[..k];
    var after := walk[..k + 1];
    assert after[..k] == before;
    assert p in walk;
    assert (set q | q in after) == (set q | q in before) + {p};
    var now := CopiedWorld(h, w, c, before);
    assert PcOf(now, c).Copying? && p !in PcOf(now, c).copied;
    assert PublishStep(h, now, c, CopyOne(p)).Some?;
    var next := PublishStep(h, now, c, CopyOne(p)).value;
    assert next.store.dirs == CopiedWorld(h, w, c, walk[..k + 1]).store.dirs;
    assert next.pcs == CopiedWorld(h, w, c, walk[..k + 1]).pcs;
  }

  lemma {:induction false} CopiedTreeHas(tree: Tree, walk: seq<Path>, q: Path)
    ensures q in CopiedTree(tree, walk) <==> q in walk && q in tree
    ensures q in CopiedTree(tree, walk) ==> CopiedTree(tree, walk)[q] == tree[q]
  {
    if walk != [] {
      CopiedTreeHas(tree, walk[..|walk| - 1], q);
      assert walk == walk[..|walk| - 1] + [walk[|walk| - 1]];
    }
  }

  lemma AllIsCopied(tree: Tree, walk: seq<Path>)
    requires WalksAll(walk, tree)
    ensures CopiedTree(tree, walk) == tree && (set p | p in walk) == tree.Keys
  {
    forall q
      ensures q in CopiedTree(tree, walk) <==> q in tree
      ensures q in tree ==> CopiedTree(tree, walk)[q] == tree[q]
    {
      CopiedTreeHas(tree, walk, q);
    }
  }
}

/** What every run of the release store keeps. */
module ReleaseSafety {
  import opened Text
  import opened Digest
  import opened Trees
  import opened Releases

  type Hash = string -> string

  // ---- the invariant ----

  /** The entries list exactly the files of the tree among some paths. */
  ghost predicate Lists(h: Hash, tree: Tree, among: set<Path>, entries: seq<FileEntry>) {
    forall x :: x in entries <==>
      exists p :: p in among && p in tree && tree[p].File? && x == EntryOf(h, p, tree[p].data)
  }

  /** A release whose manifest is complete: every file, sorted, with the digest over them. */
  ghost predicate Whole(h: Hash, r: Release) {
    && r.manifest.Some? && ValidTree(r.tree)
    && var m := r.manifest.value;
       Sorted(m.files) && Lists(h, r.tree, r.tree.Keys, m.files) && m.digest == h(Print(m.files))
  }

  ghost predicate RowOk(h: Hash, dirs: map<string, Release>, row: Row, number: nat, tree: Tree) {
    && row.number == number && row.dir == Decimal(number) && row.dir in dirs
    && Whole(h, dirs[row.dir]) && dirs[row.dir].tree == tree
    && dirs[row.dir].manifest.value.number == number && dirs[row.dir].manifest.value.id == row.id
    && dirs[row.dir].manifest.value.digest == row.digest
  }

  ghost predicate DistinctIds(rows: seq<Row>) {
    forall i, j | 0 <= i < j < |rows| :: rows[i].id != rows[j].id
  }

  /** Rows are numbered 1, 2, ..., and each has its complete release directory. */
  ghost predicate StoreOk(h: Hash, dirs: map<string, Release>, db: Db, marks: seq<Mark>) {
    && |marks| == |db.rows| && DistinctIds(db.rows)
    && (forall i | 0 <= i < |db.rows| :: RowOk(h, dirs, db.rows[i], i + 1, marks[i].tree))
    && (db.current.Some? ==> RowById(db.rows, db.current.value).Some?)
  }

  /** The content of the working tree when nothing is at work: what the last completed edit left, or
      what a failed undo left after it. */
  function ContentAt(log: seq<Tree>, after: nat, stray: Stray): Tree
    requires 0 < after <= |log|
  {
    if stray.Half? then stray.tree else log[after - 1]
  }

  /** A release holds the content that was in the working tree. */
  ghost predicate MarksOk(marks: seq<Mark>, log: seq<Tree>) {
    forall i | 0 <= i < |marks| ::
      && 0 < marks[i].after <= |log| && !marks[i].stray.Lost?
      && SameContent(ContentAt(log, marks[i].after, marks[i].stray), marks[i].tree)
  }

  ghost predicate ServedDir(h: Hash, dirs: map<string, Release>, name: string) {
    AllDigits(name) && name in dirs && Whole(h, dirs[name])
  }

  ghost predicate Core(h: Hash, work: Work, store: Store) {
    && StoreOk(h, store.dirs, store.db, store.marks) && MarksOk(store.marks, work.log)
    && (store.link.Some? ==> ServedDir(h, store.dirs, store.link.value))
    && WorkOk(work)
  }

  ghost predicate WorkOk(work: Work) {
    && work.log != [] && (!work.stray.Lost? ==> SameContent(ContentAt(work.log, |work.log|, work.stray), work.settled))
    && ValidTree(work.settled) && (work.tree.Some? ==> ValidTree(work.tree.value))
  }

  ghost predicate TreeRest(work: Work) {
    work.tree == if work.stray.Lost? then None else Some(work.settled)
  }

  /** There is a working tree, and nothing is at work on it. */
  ghost predicate Settled(work: Work) {
    TreeRest(work) && work.tree.Some?
  }

  /** The link and the current revision agree. */
  ghost predicate LinkRest(store: Store) {
    !store.faulted ==> store.link == Recorded(store.db)
  }

  ghost predicate ManifestOk(h: Hash, tree: Tree, m: Manifest, id: string, number: nat) {
    m.id == id && m.number == number && Whole(h, Release(tree, Some(m)))
  }

  ghost predicate NextOk(h: Hash, work: Work, store: Store, target: string, next: Db, mark: Option<Mark>) {
    && StoreOk(h, store.dirs, next, Appended(store.marks, mark))
    && MarksOk(Appended(store.marks, mark), work.log)
    && (mark.Some? ==> mark.value == Mark(|work.log|, work.settled, work.stray))
    && store.db.rows <= next.rows
    && Recorded(next) == Some(target) && ServedDir(h, store.dirs, target)
  }

  ghost predicate NewId(db: Db, id: string, number: nat) {
    RowById(db.rows, id).None? && number == |db.rows| + 1
  }

  ghost predicate PreviousOk(h: Hash, store: Store, previous: Option<string>) {
    && (previous.Some? ==> ServedDir(h, store.dirs, previous.value))
    && (!store.faulted ==> previous == Recorded(store.db))
  }

  /** What holds before the SQL statements of a publish, from the refresh on. */
  ghost predicate Publishable(h: Hash, work: Work, store: Store, m: Manifest) {
    && Settled(work) && LinkRest(store)
    && NewId(store.db, m.id, m.number) && ManifestOk(h, work.settled, m, m.id, m.number)
  }

  /** What holds while the owner of the mutex is at `pc`. */
  ghost predicate HolderOk(h: Hash, work: Work, store: Store, pc: Pc) {
    match pc
    case Opened(_) => TreeRest(work) && LinkRest(store)
    case Refreshed => Settled(work) && LinkRest(store)
    case Copying(id, number, copied, entries) =>
      && Settled(work) && LinkRest(store) && NewId(store.db, id, number)
      && copied <= work.settled.Keys && UniquePaths(entries) && Lists(h, work.settled, copied, entries)
      && StageName(id) in store.dirs
      && store.dirs[StageName(id)].tree == (map p | p in copied && p in work.settled :: work.settled[p])
    case Staged(id, m) =>
      && Publishable(h, work, store, m) && id == m.id
      && StageName(id) in store.dirs && store.dirs[StageName(id)].tree == work.settled
    case Sealed(id, m) =>
      && Publishable(h, work, store, m) && id == m.id
      && StageName(id) in store.dirs && store.dirs[StageName(id)] == Release(work.settled, Some(m))
    case Promoted(m) =>
      && Publishable(h, work, store, m)
      && Decimal(m.number) in store.dirs && store.dirs[Decimal(m.number)] == Release(work.settled, Some(m))
    case Written(target, next, mark) =>
      TreeRest(work) && LinkRest(store) && NextOk(h, work, store, target, next, mark)
    case Swapping(target, attempt, Forward(next, previous, mark)) =>
      && TreeRest(work) && NextOk(h, work, store, target, next, mark) && PreviousOk(h, store, previous)
      && (!store.faulted ==> store.link == Recorded(store.db) || (attempt.Second? && store.link.None?))
    case Swapping(target, attempt, Back) =>
      TreeRest(work) && PreviousOk(h, store, Some(target))
    case Committing(target, Forward(next, previous, mark)) =>
      && TreeRest(work) && NextOk(h, work, store, target, next, mark) && PreviousOk(h, store, previous)
      && store.link == Some(target)
    case Committing(_, Back) => false
    case Unlinking => TreeRest(work) && PreviousOk(h, store, None)
    case Closing(stage) => TreeRest(work) && LinkRest(store) && (stage.Some? ==> !AllDigits(stage.value))
    case Entered => TreeRest(work) && LinkRest(store)
    case Editing(backup) => LinkRest(store) && BackedUp(work, backup)
    case Moving(backup) => LinkRest(store) && BackedUp(work, backup)
    case Restoring(backup, half) => LinkRest(store) && BackedUp(work, backup) && ValidTree(half)
    case Leaving => TreeRest(work) && LinkRest(store)
    case _ => false
  }

  ghost predicate BackedUp(work: Work, backup: Tree) {
    !work.stray.Lost? && backup == work.settled
  }

  ghost predicate LockOk(w: World) {
    && (forall c | c in w.pcs :: Critical(w.pcs[c]) ==> w.lock == Some(c))
    && (w.lock.Some? ==> Critical(PcOf(w, w.lock.value)))
  }

  ghost predicate Inv(h: Hash, w: World) {
    && LockOk(w) && Core(h, w.work, w.store)
    && (w.lock.None? ==> TreeRest(w.work) && LinkRest(w.store))
    && (w.lock.Some? ==> HolderOk(h, w.work, w.store, PcOf(w, w.lock.value)))
  }

  /** A project as `Create` or `Import` leaves it: a tree, and nothing published. */
  ghost predicate Initial(w: World) {
    && w.lock.None? && w.writer.None? && w.pcs == map[] && w.store == Store(map[], None, Db([], None), [], false)
    && exists tree :: ValidTree(tree) && w.work == Work(Some(tree), tree, [tree], Intact)
  }

  lemma InitialIsOk(h: Hash, w: World)
    requires Initial(w)
    ensures Inv(h, w)
  {
  }

  // ---- directories and rows ----

  /** Every numbered directory is still there, unchanged. */
  ghost predicate Keeps(before: map<string, Release>, after: map<string, Release>) {
    forall d | d in before && AllDigits(d) :: d in after && after[d] == before[d]
  }

  lemma StageNameHasDot(id: string)
    ensures !AllDigits(StageName(id))
  {
    assert StageName(id)[0] == '.';
  }

  lemma StageNamesDiffer(a: string, b: string)
    ensures StageName(a) == StageName(b) ==> a == b
  {
    assert StageName(a)[1..|StageName(a)| - 8] == a && StageName(b)[1..|StageName(b)| - 8] == b;
  }

  lemma StoreSurvives(h: Hash, before: map<string, Release>, after: map<string, Release>, db: Db, marks: seq<Mark>)
    requires Keeps(before, after) && StoreOk(h, before, db, marks)
    ensures StoreOk(h, after, db, marks)
  {
    forall i | 0 <= i < |db.rows|
      ensures RowOk(h, after, db.rows[i], i + 1, marks[i].tree)
    {
      assert RowOk(h, before, db.rows[i], i + 1, marks[i].tree);
    }
  }

  lemma {:induction false} MaxIsCount(h: Hash, dirs: map<string, Release>, rows: seq<Row>, marks: seq<Mark>)
    requires |marks| == |rows| && forall i | 0 <= i < |rows| :: RowOk(h, dirs, rows[i], i + 1, marks[i].tree)
    ensures MaxNumber(rows) == |rows|
    decreases |rows|
  {
    hide RowOk;
    if rows != [] {
      var n := |rows| - 1;
      assert RowOk(h, dirs, rows[n], n + 1, marks[n].tree);
      RowNumber(h, dirs, rows[n], n + 1, marks[n].tree);
      MaxIsCount(h, dirs, rows[..n], marks[..n]);
    }
  }

  lemma RowNumber(h: Hash, dirs: map<string, Release>, row: Row, number: nat, tree: Tree)
    requires RowOk(h, dirs, row, number, tree)
    ensures row.number == number && row.dir == Decimal(number) && ServedDir(h, dirs, row.dir)
  {
  }

  lemma {:induction false} FoundById(rows: seq<Row>, i: nat)
    requires i < |rows| && DistinctIds(rows)
    ensures RowById(rows, rows[i].id) == Some(rows[i])
    decreases |rows|
  {
    if i > 0 {
      FoundById(rows[1..], i - 1);
    }
  }

  lemma {:induction false} NotFoundById(rows: seq<Row>, id: string)
    ensures RowById(rows, id).None? <==> forall r | r in rows :: r.id != id
    ensures RowById(rows, id).Some? ==> RowById(rows, id).value in rows && RowById(rows, id).value.id == id
  {
    if rows != [] {
      NotFoundById(rows[1..], id);
      assert rows == [rows[0]] + rows[1..];
    }
  }

  /** The row of a number among rows numbered from `first` on. */
  lemma {:induction false} FoundByNumber(rows: seq<Row>, number: int, first: int)
    requires forall i | 0 <= i < |rows| :: rows[i].number == first + i
    ensures RowByNumber(rows, number) ==
            if first <= number < first + |rows| then Some(rows[number - first]) else None
    decreases |rows|
  {
    if rows != [] {
      FoundByNumber(rows[1..], number, first + 1);
    }
  }

  lemma RowsAreNumbered(h: Hash, dirs: map<string, Release>, db: Db, marks: seq<Mark>)
    requires StoreOk(h, dirs, db, marks)
    ensures forall i | 0 <= i < |db.rows| ::
              db.rows[i].number == i + 1 && db.rows[i].dir == Decimal(i + 1) && ServedDir(h, dirs, db.rows[i].dir)
  {
    hide RowOk, ServedDir, Decimal;
    forall i | 0 <= i < |db.rows|
      ensures db.rows[i].number == i + 1 && db.rows[i].dir == Decimal(i + 1) && ServedDir(h, dirs, db.rows[i].dir)
    {
      assert RowOk(h, dirs, db.rows[i], i + 1, marks[i].tree);
      RowNumber(h, dirs, db.rows[i], i + 1, marks[i].tree);
    }
  }

  // ---- what the steps of a publish establish ----

  lemma OneMoreCopied(h: Hash, tree: Tree, copied: set<Path>, entries: seq<FileEntry>, p: Path)
    requires ValidTree(tree) && copied <= tree.Keys && p in tree && p !in copied
    requires UniquePaths(entries) && Lists(h, tree, copied, entries)
    ensures var next := if tree[p].File? then entries + [EntryOf(h, p, tree[p].data)] else entries;
            UniquePaths(next) && Lists(h, tree, copied + {p}, next)
  {
    if tree[p].File? {
      var e := EntryOf(h, p, tree[p].data);
      forall i | 0 <= i < |entries|
        ensures entries[i].path != e.path
      {
        assert entries[i] in entries;
        var q :| q in copied && q in tree && tree[q].File? && entries[i] == EntryOf(h, q, tree[q].data);
        if Join(p) == Join(q) {
          JoinDecidesPath(p, q);
        }
      }
      assert forall x :: x in entries + [e] <==> x in entries || x == e;
    }
  }

  lemma AllCopied(h: Hash, tree: Tree, entries: seq<FileEntry>, id: string, number: nat)
    requires ValidTree(tree) && UniquePaths(entries) && Lists(h, tree, tree.Keys, entries)
    ensures ManifestOk(h, tree, Manifest(id, number, Sort(entries), h(DigestInput(entries))), id, number)
  {
    SortSorts(entries);
    assert forall x :: x in Sort(entries) <==> x in Elements(Sort(entries));
    assert forall x :: x in entries <==> x in Elements(entries);
  }

  lemma RowAdded(h: Hash, work: Work, store: Store, row: Row)
    requires StoreOk(h, store.dirs, store.db, store.marks) && RowById(store.db.rows, row.id).None?
    requires RowOk(h, store.dirs, row, |store.db.rows| + 1, work.settled)
    ensures StoreOk(h, store.dirs, Db(store.db.rows + [row], Some(row.id)), store.marks + [Mark(|work.log|, work.settled, work.stray)])
    ensures RowById(store.db.rows + [row], row.id) == Some(row)
  {
    hide RowOk;
    var rows := store.db.rows + [row];
    NotFoundById(store.db.rows, row.id);
    assert forall i | 0 <= i < |store.db.rows| :: store.db.rows[i] in store.db.rows;
    assert DistinctIds(rows);
    FoundById(rows, |store.db.rows|);
  }

  lemma PromotedRow(h: Hash, work: Work, store: Store, m: Manifest)
    requires HolderOk(h, work, store, Promoted(m))
    ensures var row := Row(m.id, m.number, Decimal(m.number), m.digest);
            RowOk(h, store.dirs, row, m.number, work.settled) && ServedDir(h, store.dirs, row.dir)
    ensures RowById(store.db.rows, m.id).None? && m.number == |store.db.rows| + 1 && !work.stray.Lost?
  {
    hide RowById, LinkRest;
  }

  lemma MarkAdded(work: Work, store: Store)
    requires MarksOk(store.marks, work.log) && WorkOk(work) && !work.stray.Lost?
    ensures MarksOk(store.marks + [Mark(|work.log|, work.settled, work.stray)], work.log)
  {
    hide SameContent, ValidTree;
  }

  lemma PublishedNext(h: Hash, work: Work, store: Store, m: Manifest)
    requires Core(h, work, store) && HolderOk(h, work, store, Promoted(m))
    ensures var row := Row(m.id, m.number, Decimal(m.number), m.digest);
            NextOk(h, work, store, row.dir, Db(store.db.rows + [row], Some(row.id)), Some(Mark(|work.log|, work.settled, work.stray)))
  {
    hide HolderOk, RowOk, StoreOk, RowById, ServedDir, MarksOk, WorkOk;
    var row := Row(m.id, m.number, Decimal(m.number), m.digest);
    PromotedRow(h, work, store, m);
    RowAdded(h, work, store, row);
    MarkAdded(work, store);
  }

  lemma RolledBackNext(h: Hash, work: Work, store: Store, number: int)
    requires Core(h, work, store) && RowByNumber(store.db.rows, number).Some?
    ensures var row := RowByNumber(store.db.rows, number).value;
            NextOk(h, work, store, row.dir, store.db.(current := Some(row.id)), None)
  {
    hide RowOk, ServedDir, Decimal, MarksOk, WorkOk;
    RowsAreNumbered(h, store.dirs, store.db, store.marks);
    FoundByNumber(store.db.rows, number, 1);
    FoundById(store.db.rows, number - 1);
  }

  // ---- every step keeps the invariant ----

  /** The owner of the mutex moves to `pc` and keeps the mutex. */
  lemma HolderMoves(h: Hash, w: World, next: World, c: Client, pc: Pc)
    requires LockOk(w) && w.lock == Some(c) && next.lock == w.lock && next.pcs == w.pcs[c := pc]
    requires Critical(pc) && Core(h, next.work, next.store) && HolderOk(h, next.work, next.store, pc)
    ensures Inv(h, next)
  {
    hide Core, HolderOk;
  }

  lemma OwnerOnly(h: Hash, w: World, c: Client)
    requires Inv(h, w) && Critical(PcOf(w, c))
    ensures w.lock == Some(c) && HolderOk(h, w.work, w.store, PcOf(w, c)) && Core(h, w.work, w.store) && LockOk(w)
  {
    hide Core, HolderOk;
  }

  /** A step that only writes below a staging name, or adds a numbered directory. */
  lemma CoreWithDirs(h: Hash, work: Work, store: Store, dirs: map<string, Release>)
    requires Core(h, work, store) && Keeps(store.dirs, dirs)
    ensures Core(h, work, store.(dirs := dirs))
  {
    hide Whole, StoreOk, MarksOk;
    StoreSurvives(h, store.dirs, dirs, store.db, store.marks);
  }

  lemma LockKeeps(h: Hash, w: World, c: Client, a: Action)
    requires Inv(h, w) && (a.Lock? || a.Enter? || a.Begin? || a.Finish?)
    requires Step(h, w, c, a).Some?
    ensures Inv(h, Step(h, w, c, a).value)
  {
    hide Core, TreeRest, LinkRest;
  }

  lemma PreparationKeeps(h: Hash, w: World, c: Client, a: Action)
    requires Inv(h, w) && (a.Abort? || a.Refresh?) && PublishStep(h, w, c, a).Some?
    ensures Inv(h, PublishStep(h, w, c, a).value)
  {
    hide Inv, LockOk, StoreOk, MarksOk, Whole, Lists, NewId, ManifestOk, NextOk, ServedDir, Recorded;
    OwnerOnly(h, w, c);
    var next := PublishStep(h, w, c, a).value;
    var pc := PcOf(w, c);
    if a.Abort? && StageOf(pc).Some? {
      StageNameHasDot(if pc.Copying? then pc.id else if pc.Staged? then pc.id else pc.id);
    }
    HolderMoves(h, w, next, c, PcOf(next, c));
  }

  lemma MaxOfCore(h: Hash, work: Work, store: Store)
    requires Core(h, work, store)
    ensures MaxNumber(store.db.rows) == |store.db.rows|
  {
    hide RowOk;
    MaxIsCount(h, store.dirs, store.db.rows, store.marks);
  }

  lemma StageKeeps(h: Hash, w: World, c: Client, id: string)
    requires Inv(h, w) && PublishStep(h, w, c, Stage(id)).Some?
    ensures Inv(h, PublishStep(h, w, c, Stage(id)).value)
  {
    hide Inv, LockOk, Core, Recorded;
    OwnerOnly(h, w, c);
    var next := PublishStep(h, w, c, Stage(id)).value;
    StageNameHasDot(id);
    MaxOfCore(h, w.work, w.store);
    CoreWithDirs(h, w.work, w.store, next.store.dirs);
    HolderMoves(h, w, next, c, PcOf(next, c));
  }

  lemma CopyKeeps(h: Hash, w: World, c: Client, p: Path)
    requires Inv(h, w) && PublishStep(h, w, c, CopyOne(p)).Some?
    ensures Inv(h, PublishStep(h, w, c, CopyOne(p)).value)
  {
    hide Inv, LockOk, StoreOk, MarksOk, ServedDir, Recorded, Lists, UniquePaths, NewId;
    OwnerOnly(h, w, c);
    var next := PublishStep(h, w, c, CopyOne(p)).value;
    var pc := PcOf(w, c);
    StageNameHasDot(pc.id);
    OneMoreCopied(h, w.work.settled, pc.copied, pc.entries, p);
    CoreWithDirs(h, w.work, w.store, next.store.dirs);
    hide Core;
    HolderMoves(h, w, next, c, PcOf(next, c));
  }

  lemma CopiedKeeps(h: Hash, w: World, c: Client)
    requires Inv(h, w) && PublishStep(h, w, c, CopyDone).Some?
    ensures Inv(h, PublishStep(h, w, c, CopyDone).value)
  {
    hide Inv, LockOk, Core, Recorded, Lists, UniquePaths, NewId, ManifestOk, ValidTree;
    OwnerOnly(h, w, c);
    SettledIsValid(h, w.work, w.store);
    var next := PublishStep(h, w, c, CopyDone).value;
    var pc := PcOf(w, c);
    AllCopied(h, w.work.settled, pc.entries, pc.id, pc.number);
    HolderMoves(h, w, next, c, PcOf(next, c));
  }

  lemma SettledIsValid(h: Hash, work: Work, store: Store)
    requires Core(h, work, store)
    ensures ValidTree(work.settled)
  {
  }

  lemma PromotionKeeps(h: Hash, w: World, c: Client, a: Action)
    requires Inv(h, w) && (a.Seal? || a.Promote?) && PublishStep(h, w, c, a).Some?
    ensures Inv(h, PublishStep(h, w, c, a).value)
  {
    hide Inv, LockOk, Core, Publishable;
    OwnerOnly(h, w, c);
    var next := PublishStep(h, w, c, a).value;
    var pc := PcOf(w, c);
    StageNameHasDot(if pc.Staged? then pc.id else pc.id);
    CoreWithDirs(h, w.work, w.store, next.store.dirs);
    StillPublishable(h, w.work, w.store, next.store.dirs, if pc.Staged? then pc.manifest else pc.manifest);
    HolderMoves(h, w, next, c, PcOf(next, c));
  }

  lemma StillPublishable(h: Hash, work: Work, store: Store, dirs: map<string, Release>, m: Manifest)
    ensures Publishable(h, work, store, m) ==> Publishable(h, work, store.(dirs := dirs), m)
  {
  }

  lemma WriteKeeps(h: Hash, w: World, c: Client)
    requires Inv(h, w) && SwitchStep(w, c, Write).Some?
    ensures Inv(h, SwitchStep(w, c, Write).value)
  {
    hide Inv, LockOk, Core, NextOk, Recorded, NewId, ManifestOk;
    OwnerOnly(h, w, c);
    var next := SwitchStep(w, c, Write).value;
    var pc := PcOf(w, c);
    if pc.Promoted? {
      PublishedNext(h, w.work, w.store, pc.manifest);
    } else {
      RolledBackNext(h, w.work, w.store, pc.op.number);
    }
    HolderMoves(h, w, next, c, PcOf(next, c));
  }

  lemma ReadLinkKeeps(h: Hash, w: World, c: Client, ok: bool)
    requires Inv(h, w) && SwitchStep(w, c, ReadLink(ok)).Some?
    ensures Inv(h, SwitchStep(w, c, ReadLink(ok)).value)
  {
    hide Inv, LockOk, StoreOk, MarksOk, ServedDir, Recorded;
    OwnerOnly(h, w, c);
    var next := SwitchStep(w, c, ReadLink(ok)).value;
    HolderMoves(h, w, next, c, PcOf(next, c));
  }

  lemma SwapKeeps(h: Hash, w: World, c: Client, a: Action)
    requires Inv(h, w) && (a.NoLink? || a.Swap? || a.Unlink?) && SwitchStep(w, c, a).Some?
    ensures Inv(h, SwitchStep(w, c, a).value)
  {
    hide Inv, LockOk, StoreOk, MarksOk, ServedDir, Recorded, WorkOk, TreeRest;
    OwnerOnly(h, w, c);
    var next := SwitchStep(w, c, a).value;
    HolderMoves(h, w, next, c, PcOf(next, c));
  }

  lemma CommitKeeps(h: Hash, w: World, c: Client, ok: bool)
    requires Inv(h, w) && SwitchStep(w, c, Commit(ok)).Some?
    ensures Inv(h, SwitchStep(w, c, Commit(ok)).value)
  {
    hide Inv, LockOk, StoreOk, MarksOk, ServedDir, Recorded, WorkOk, TreeRest;
    OwnerOnly(h, w, c);
    var next := SwitchStep(w, c, Commit(ok)).value;
    HolderMoves(h, w, next, c, PcOf(next, c));
  }

  lemma CloseKeeps(h: Hash, w: World, c: Client, left: Option<Release>)
    requires Inv(h, w) && SwitchStep(w, c, Close(left)).Some?
    ensures Inv(h, SwitchStep(w, c, Close(left)).value)
  {
    hide Core, TreeRest, Recorded;
    OwnerOnly(h, w, c);
    CoreWithDirs(h, w.work, w.store, SwitchStep(w, c, Close(left)).value.store.dirs);
  }

  lemma EditKeeps(h: Hash, w: World, c: Client, a: Action)
    requires Inv(h, w) && EditStep(w, c, a).Some? && Critical(PcOf(w, c)) && !a.Leave? && !a.Keep?
    ensures Inv(h, EditStep(w, c, a).value)
  {
    hide Inv, LockOk, StoreOk, ServedDir, LinkRest, SameContent, MarksOk, ValidTree;
    OwnerOnly(h, w, c);
    var next := EditStep(w, c, a).value;
    SameAsItself(next.work.settled);
    HolderMoves(h, w, next, c, PcOf(next, c));
  }

  lemma SameAsItself(tree: Tree)
    ensures SameContent(tree, tree)
  {
  }

  lemma KeepKeeps(h: Hash, w: World, c: Client)
    requires Inv(h, w) && EditStep(w, c, Keep).Some?
    ensures Inv(h, EditStep(w, c, Keep).value)
  {
    hide Inv, LockOk, StoreOk, ServedDir, LinkRest;
    OwnerOnly(h, w, c);
    var next := EditStep(w, c, Keep).value;
    HolderMoves(h, w, next, c, PcOf(next, c));
  }

  lemma LeaveKeeps(h: Hash, w: World, c: Client)
    requires Inv(h, w) && EditStep(w, c, Leave).Some?
    ensures Inv(h, EditStep(w, c, Leave).value)
  {
    hide Core, TreeRest, LinkRest;
    OwnerOnly(h, w, c);
  }

  lemma StepKeeps(h: Hash, w: World, c: Client, a: Action)
    requires Inv(h, w) && Step(h, w, c, a).Some?
    ensures Inv(h, Step(h, w, c, a).value)
  {
    hide Inv;
    match a
    case Lock(_) => LockKeeps(h, w, c, a);
    case Enter => LockKeeps(h, w, c, a);
    case Begin => LockKeeps(h, w, c, a);
    case Finish => LockKeeps(h, w, c, a);
    case Abort => PreparationKeeps(h, w, c, a);
    case Refresh(_, _) => PreparationKeeps(h, w, c, a);
    case Stage(id) => StageKeeps(h, w, c, id);
    case CopyOne(p) => CopyKeeps(h, w, c, p);
    case CopyDone => CopiedKeeps(h, w, c);
    case Seal => PromotionKeeps(h, w, c, a);
    case Promote => PromotionKeeps(h, w, c, a);
    case Write => WriteKeeps(h, w, c);
    case ReadLink(ok) => ReadLinkKeeps(h, w, c, ok);
    case NoLink => SwapKeeps(h, w, c, a);
    case Swap(_) => SwapKeeps(h, w, c, a);
    case Unlink(_) => SwapKeeps(h, w, c, a);
    case Commit(ok) => CommitKeeps(h, w, c, ok);
    case Close(left) => CloseKeeps(h, w, c, left);
    case Keep => KeepKeeps(h, w, c);
    case Leave => LeaveKeeps(h, w, c);
    case _ => EditKeeps(h, w, c, a);
  }
}

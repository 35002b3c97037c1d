/** The release store and the working tree of one project as a state machine
    (service/internal/publishing/publisher.go, service/internal/projects/manager.go).

    A step is one filesystem or database operation of one client; every such operation may fail.
    Clients run `Publish`, `Rollback` or an edit through `MutateAndCommit`; the project mutex is the
    field `lock` and SQLite's write lock the field `writer`. */
module Releases {
  import opened Text
  import opened Digest
  import opened Trees

  type Client = nat

  datatype Manifest = Manifest(id: string, number: nat, files: seq<FileEntry>, digest: string)

  /** A directory below `<slug>/releases`; the manifest is its `revision.json`. */
  datatype Release = Release(tree: Tree, manifest: Option<Manifest>)

  datatype Row = Row(id: string, number: nat, dir: string, digest: string)

  /** The committed rows of `revisions`, oldest first, and `projects.current_revision_id`. */
  datatype Db = Db(rows: seq<Row>, current: Option<string>)

  function StageName(id: string): string {
    "." + id + ".staging"
  }

  /** `COALESCE(MAX(revision_number),0)`. */
  function MaxNumber(rows: seq<Row>): nat {
    if rows == [] then 0
    else
      var m := MaxNumber(rows[..|rows| - 1]);
      if rows[|rows| - 1].number > m then rows[|rows| - 1].number else m
  }

  function RowByNumber(rows: seq<Row>, number: int): Option<Row> {
    if rows == [] then None
    else if rows[0].number == number then Some(rows[0])
    else RowByNumber(rows[1..], number)
  }

  function RowById(rows: seq<Row>, id: string): Option<Row> {
    if rows == [] then None else if rows[0].id == id then Some(rows[0]) else RowById(rows[1..], id)
  }

  /** The directory of the row that `current_revision_id` names. */
  function Recorded(db: Db): Option<string> {
    match db.current
    case None => None
    case Some(id) => match RowById(db.rows, id)
      case None => None
      case Some(row) => Some(row.dir)
  }

  function EntryOf(h: string -> string, p: Path, data: string): FileEntry {
    FileEntry(Join(p), h(data), |data|)
  }

  // ---- clients ----

  datatype Op = Publishing | RollingBack(number: int)

  /** What undos that failed since the last completed edit left behind: the half-applied tree in the
      working directory, or no working directory. */
  datatype Stray = Intact | Half(tree: Tree) | Lost

  /** What the run so far says about a release: how many trees the completed edits had left before
      it, the initial tree included, the working tree as its own refresh left it, and what a failed
      undo had put there in between. */
  datatype Mark = Mark(after: nat, tree: Tree, stray: Stray)

  /** The three operations of `atomicCurrent` after the new link is made. */
  datatype Attempt = First | Clear | Second

  datatype Goal =
    | Forward(next: Db, previous: Option<string>, mark: Option<Mark>)
    | Back

  datatype Pc =
    | Idle
    | Opened(op: Op)
    | Refreshed
    | Copying(id: string, number: nat, copied: set<Path>, entries: seq<FileEntry>)
    | Staged(id: string, manifest: Manifest)
    | Sealed(id: string, manifest: Manifest)
    | Promoted(manifest: Manifest)
    | Written(target: string, next: Db, mark: Option<Mark>)
    | Swapping(target: string, attempt: Attempt, goal: Goal)
    | Committing(target: string, goal: Goal)
    | Unlinking
    | Closing(stage: Option<string>)
    | Waiting
    | Entered
    | Editing(backup: Tree)
    | Moving(backup: Tree)
    | Restoring(backup: Tree, half: Tree)
    | Leaving
    | Finishing

  predicate Critical(pc: Pc) {
    !pc.Idle? && !pc.Waiting? && !pc.Finishing?
  }

  /** The working directory; the other fields record the run and influence nothing: the tree as the
      last edit, refresh or failed undo left it, the trees the completed edits left, and what failed
      undos left since the last of these. */
  datatype Work = Work(tree: Option<Tree>, settled: Tree, log: seq<Tree>, stray: Stray)

  /** The directories below `<slug>/releases`, the one the link `<slug>/current` names, and the rows.
      `marks` and `faulted` record the run: one mark a row, and whether a compensating operation has
      failed since the last commit. */
  datatype Store = Store(dirs: map<string, Release>, link: Option<string>, db: Db, marks: seq<Mark>, faulted: bool)

  datatype World = World(lock: Option<Client>, writer: Option<Client>, pcs: map<Client, Pc>, work: Work, store: Store)

  datatype Action =
    | Lock(op: Op) | Abort | Refresh(tree: Tree, ok: bool) | Stage(id: string) | CopyOne(path: Path) | CopyDone
    | Seal | Promote | Write | ReadLink(ok: bool) | NoLink | Swap(ok: bool) | Commit(ok: bool) | Unlink(ok: bool)
    | Close(left: Option<Release>)
    | Begin | Enter | Refuse | Backup | Edit(result: Option<Tree>) | Keep | Fail
    | MoveAway(ok: bool) | Restore(ok: bool, undone: bool) | Leave | Finish

  function PcOf(w: World, c: Client): Pc {
    if c in w.pcs then w.pcs[c] else Idle
  }

  function To(w: World, c: Client, pc: Pc): World {
    w.(pcs := w.pcs[c := pc])
  }

  function StageOf(pc: Pc): Option<string> {
    match pc
    case Copying(id, _, _, _) => Some(StageName(id))
    case Staged(id, _) => Some(StageName(id))
    case Sealed(id, _) => Some(StageName(id))
    case _ => None
  }

  function WithDir(store: Store, name: string, r: Release): Store {
    store.(dirs := store.dirs[name := r])
  }

  /** `tx.Rollback`, deferred by every operation. */
  function EndTransaction(w: World, c: Client): World {
    w.(writer := if w.writer == Some(c) then None else w.writer)
  }

  function Appended(marks: seq<Mark>, mark: Option<Mark>): seq<Mark> {
    if mark.Some? then marks + [mark.value] else marks
  }

  /** The first half of `Publish`, which touches the working tree and the staging directory. */
  function PublishStep(h: string -> string, w: World, c: Client, a: Action): Option<World> {
    var pc, work, store := PcOf(w, c), w.work, w.store;
    match a
    case Lock(op) =>
      if pc.Idle? && w.lock.None? then Some(To(w, c, Opened(op)).(lock := Some(c))) else None
    case Abort =>
      if pc.Opened? || pc.Refreshed? || pc.Copying? || pc.Staged? || pc.Sealed? || pc.Promoted?
      then Some(To(w, c, Closing(StageOf(pc)))) else None
    case Refresh(tree, ok) =>
      if pc == Opened(Publishing) && work.tree.Some? && ["pack.toml"] in work.tree.value
         && work.tree.value - PACK_FILES == tree - PACK_FILES && ValidTree(tree)
      then Some(To(w, c, if ok then Refreshed else Closing(None)).(work := work.(tree := Some(tree), settled := tree)))
      else None
    case Stage(id) =>
      if pc.Refreshed? && StageName(id) !in store.dirs && RowById(store.db.rows, id).None?
      then Some(To(w, c, Copying(id, MaxNumber(store.db.rows) + 1, {}, []))
                .(store := WithDir(store, StageName(id), Release(map[], None)))) else None
    case CopyOne(p) =>
      if pc.Copying? && work.tree.Some? && p in work.tree.value && p !in pc.copied && StageName(pc.id) in store.dirs then
        var node, stage := work.tree.value[p], StageName(pc.id);
        var held := store.dirs[stage];
        var entries := if node.File? then pc.entries + [EntryOf(h, p, node.data)] else pc.entries;
        Some(To(w, c, Copying(pc.id, pc.number, pc.copied + {p}, entries))
             .(store := WithDir(store, stage, held.(tree := held.tree[p := node]))))
      else None
    case CopyDone =>
      if pc.Copying? && work.tree.Some? && pc.copied == work.tree.value.Keys
      then Some(To(w, c, Staged(pc.id, Manifest(pc.id, pc.number, Sort(pc.entries), h(DigestInput(pc.entries)))))) else None
    case Seal =>
      if pc.Staged? && StageName(pc.id) in store.dirs
      then Some(To(w, c, Sealed(pc.id, pc.manifest)).(store := WithDir(store, StageName(pc.id),
                  store.dirs[StageName(pc.id)].(manifest := Some(pc.manifest))))) else None
    case Promote =>
      // os.Rename refuses an existing directory
      if pc.Sealed? && StageName(pc.id) in store.dirs && Decimal(pc.manifest.number) !in store.dirs then
        var moved := store.dirs[StageName(pc.id)];
        Some(To(w, c, Promoted(pc.manifest))
             .(store := store.(dirs := (store.dirs - {StageName(pc.id)})[Decimal(pc.manifest.number) := moved])))
      else None
    case _ => None
  }

  /** The second half of `Publish`, which `Rollback` shares: rows, link, commit, clean-up. */
  function SwitchStep(w: World, c: Client, a: Action): Option<World> {
    var pc, store := PcOf(w, c), w.store;
    match a
    case Write =>
      if w.writer.Some? then None
      else if pc.Promoted? then
        var dir := Decimal(pc.manifest.number);
        var row := Row(pc.manifest.id, pc.manifest.number, dir, pc.manifest.digest);
        Some(To(w, c, Written(dir, Db(store.db.rows + [row], Some(row.id)),
                              Some(Mark(|w.work.log|, w.work.settled, w.work.stray)))).(writer := Some(c)))
      else if pc.Opened? && pc.op.RollingBack? && RowByNumber(store.db.rows, pc.op.number).Some? then
        var row := RowByNumber(store.db.rows, pc.op.number).value;
        Some(To(w, c, Written(row.dir, store.db.(current := Some(row.id)), None)).(writer := Some(c)))
      else None
    case ReadLink(ok) =>
      if pc.Written?
      then Some(To(w, c, Swapping(pc.target, First, Forward(pc.next, if ok then store.link else None, pc.mark)))
                .(store := store.(faulted := store.faulted || (!ok && store.link.Some?)))) else None
    case NoLink =>
      if pc.Swapping? && pc.attempt.First?
      then Some(To(w, c, Closing(None)).(store := store.(faulted := store.faulted || pc.goal.Back?))) else None
    case Swap(ok) =>
      if !pc.Swapping? then None
      else if pc.attempt.Clear? then
        Some(To(w, c, pc.(attempt := Second)).(store := if ok then store.(link := None) else store))
      else if ok then
        Some(To(w, c, if pc.goal.Forward? then Committing(pc.target, pc.goal) else Closing(None))
             .(store := store.(link := Some(pc.target))))
      else if pc.attempt.First? then Some(To(w, c, pc.(attempt := Clear)))
      else Some(To(w, c, Closing(None)).(store := store.(faulted := true)))
    case Commit(ok) =>
      if !pc.Committing? || !pc.goal.Forward? then None
      else if ok then
        Some(To(w, c, Closing(None)).(writer := None, store := store.(
             db := pc.goal.next, marks := Appended(store.marks, pc.goal.mark), faulted := false)))
      else
        Some(To(w, c, match pc.goal.previous case None => Unlinking case Some(p) => Swapping(p, First, Back))
             .(writer := None))
    case Unlink(ok) =>
      if pc.Unlinking?
      then Some(To(w, c, Closing(None)).(store := if ok then store.(link := None)
                else store.(faulted := store.faulted || store.link.Some?))) else None
    case Close(left) =>
      if pc.Closing? then
        var dirs := if pc.stage.None? then store.dirs
                    else if left.Some? then store.dirs[pc.stage.value := left.value]
                    else store.dirs - {pc.stage.value};
        Some(EndTransaction(To(w, c, Idle).(lock := None, store := store.(dirs := dirs)), c))
      else None
    case _ => None
  }

  /** The working directory after an undo that failed. */
  function LeftBehind(work: Work, tree: Option<Tree>): Work {
    match tree
    case Some(half) => work.(tree := tree, settled := half, stray := Half(half))
    case None => work.(tree := None, stray := Lost)
  }

  /** An edit: SQL statements first, then the mutex, the backup, the callback, the commit or the undo. */
  function EditStep(w: World, c: Client, a: Action): Option<World> {
    var pc, work := PcOf(w, c), w.work;
    match a
    case Begin => if pc.Idle? && w.writer.None? then Some(To(w, c, Waiting).(writer := Some(c))) else None
    case Enter => if pc.Waiting? && w.lock.None? then Some(To(w, c, Entered).(lock := Some(c))) else None
    case Refuse => if pc.Entered? then Some(To(w, c, Leaving)) else None
    case Backup => if pc.Entered? && work.tree.Some? then Some(To(w, c, Editing(work.tree.value))) else None
    case Edit(result) =>
      if pc.Editing? && (result.Some? ==> ValidTree(result.value))
      then Some(To(w, c, pc).(work := work.(tree := result))) else None
    case Keep =>
      if pc.Editing? && work.tree.Some?
      then Some(To(w, c, Leaving).(writer := None, work := work.(log := work.log + [work.tree.value],
                                                                   settled := work.tree.value, stray := Intact))) else None
    case Fail => if pc.Editing? then Some(To(w, c, Moving(pc.backup))) else None
    case MoveAway(ok) =>
      if !pc.Moving? || (ok && work.tree.None?) then None
      else if ok then Some(To(w, c, Restoring(pc.backup, work.tree.value)).(work := work.(tree := None)))
      else Some(To(w, c, Leaving).(work := LeftBehind(work, work.tree)))
    case Restore(ok, undone) =>
      if !pc.Restoring? then None
      else if ok then Some(To(w, c, Leaving).(work := work.(tree := Some(pc.backup))))
      else Some(To(w, c, Leaving).(work := LeftBehind(work, if undone then Some(pc.half) else None)))
    case Leave => if pc.Leaving? then Some(To(w, c, Finishing).(lock := None)) else None
    case Finish => if pc.Finishing? then Some(EndTransaction(To(w, c, Idle), c)) else None
    case _ => None
  }

  function Step(h: string -> string, w: World, c: Client, a: Action): Option<World> {
    match PublishStep(h, w, c, a)
    case Some(next) => Some(next)
    case None => match SwitchStep(w, c, a)
      case Some(next) => Some(next)
      case None => EditStep(w, c, a)
  }
}

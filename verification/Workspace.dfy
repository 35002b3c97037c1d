/** The edit protocol every endpoint shares (service/internal/projects/manager.go,
    `MutateAndCommit`): back up, apply, commit, or undo. */
module Workspace {
  import opened Text
  import opened Trees

  /** What the callback leaves: its error, the working directory (or none), and the rows that the
      open transaction would commit. */
  datatype Applied<R> = Applied(ok: bool, tree: Option<Tree>, rows: R)

  type Edit<!R> = (Tree, R) -> Applied<R>

  /** Which operations of one call fail: the first three before the callback, then the commit, and in the
      undo removing an old `<directory>.failed`, moving the working directory there, moving the backup
      back, moving the working directory back instead, and removing `.failed` again. */
  datatype Faults = Faults(
    lookup: bool, tempDir: bool, copy: bool, commit: bool, clear: bool, move: bool, restore: bool, undo: bool, tidy: bool)

  /** Success, an ordinary error before or after the callback, and the two errors that say the undo
      itself failed. */
  datatype Outcome = Done | Refused | RolledBack | MoveFailed | RestoreFailed

  /** The call fails before the callback. */
  predicate Refuses(tree: Option<Tree>, faults: Faults) {
    tree.None? || faults.lookup || faults.tempDir || faults.copy
  }

  /** The working directory cannot be moved out of the way: there is none, or the place is taken. */
  predicate CannotMove(left: Option<Tree>, failed: Option<Tree>, faults: Faults) {
    left.None? || (failed.Some? && faults.clear) || faults.move
  }

  /** The undo of a failed edit works, if there is a working directory. */
  predicate UndoWorks(failed: Option<Tree>, faults: Faults) {
    !(failed.Some? && faults.clear) && !faults.move && !faults.restore
  }

  class Project<R> {
    /** The working directory, `<directory>.failed` beside it, and the committed rows. */
    var tree: Option<Tree>
    var failed: Option<Tree>
    var rows: R

    constructor (tree: Option<Tree>, rows: R)
      ensures this.tree == tree && this.rows == rows && this.failed == None
    {
      this.tree, this.failed, this.rows := tree, None, rows;
    }

    /** Atomic in tree and rows, apart from the two reported undo errors; which outcome occurs depends on
        the faults and on what the callback returns and leaves, and `RolledBack` needs a working directory. */
    method MutateAndCommit(pending: R, edit: Edit<R>, faults: Faults) returns (outcome: Outcome)
      modifies this
      ensures outcome.Refused? <==> old(tree).None? || faults.lookup || faults.tempDir || faults.copy
      ensures outcome.Refused? ==> tree == old(tree) && failed == old(failed) && rows == old(rows)
      ensures !outcome.Refused? ==>
                var applied := edit(old(tree).value, pending);
                var cleared := old(failed).None? || !faults.clear;
                var moves := applied.tree.Some? && cleared && !faults.move;
                && (outcome.Done? <==> applied.ok && !faults.commit)
                && (outcome.MoveFailed? <==> !outcome.Done? && !moves)
                && (outcome.RestoreFailed? <==> !outcome.Done? && moves && faults.restore)
                && (outcome.RolledBack? <==> !outcome.Done? && moves && !faults.restore)
                && rows == (if outcome.Done? then applied.rows else old(rows))
                && tree == (match outcome
                            case RolledBack => old(tree)
                            case RestoreFailed => if faults.undo then None else applied.tree
                            case _ => applied.tree)
                && failed == (match outcome
                              case Done => old(failed)
                              case MoveFailed => if faults.clear then old(failed) else None
                              case RestoreFailed => if faults.undo then applied.tree else None
                              case _ => if faults.tidy then applied.tree else None)
    {
      if faults.lookup || faults.tempDir || faults.copy || tree.None? {
        return Refused;
      }
      var backup := tree.value;
      var result := edit(tree.value, pending);
      tree := result.tree;
      if result.ok && !faults.commit {
        rows := result.rows;
        return Done;
      }
      if !faults.clear {
        failed := None;
      }
      if tree.None? || failed.Some? || faults.move {
        return MoveFailed;
      }
      failed, tree := tree, None;
      if faults.restore {
        if !faults.undo {
          tree, failed := failed, None;
        }
        return RestoreFailed;
      }
      tree := Some(backup);
      if !faults.tidy {
        failed := None;
      }
      outcome := RolledBack;
    }
  }

  // ---- the largest edit: replacing the project by an archive (service/internal/api/imports.go) ----

  /** How far `replaceProjectFromArchive` gets: deleting the directory, creating and filling it, the
      two Packwiz runs, and the rows. */
  datatype Reached<R> =
    | DeleteStops(left: Tree)
    | NothingCopied
    | CopyStops(part: Tree)
    | PackwizStops(part: Tree)
    | SyncStops(part: Tree, partRows: R)
    | Replaced(new_: Tree, rows: R)

  function ReplaceEdit<R>(reached: Reached<R>): Edit<R> {
    (tree: Tree, pending: R) =>
      match reached
      case DeleteStops(left) => Applied(false, Some(left), pending)
      case NothingCopied => Applied(false, None, pending)
      case CopyStops(part) => Applied(false, Some(part), pending)
      case PackwizStops(part) => Applied(false, Some(part), pending)
      case SyncStops(part, rows) => Applied(false, Some(part), rows)
      case Replaced(new_, rows) => Applied(true, Some(new_), rows)
  }

  /** What a failed edit leaves where its undo fails: what the callback left, or nothing where the move
      back fails too. */
  function AfterFailedUndo(left: Option<Tree>, failed: Option<Tree>, faults: Faults): Option<Tree> {
    if !CannotMove(left, failed, faults) && faults.undo then None else left
  }

  /** A failed replacement gives the project back exactly when the callback did not run, or the copy got
      as far as creating the working directory and the undo works; where the undo works, a copy that
      did not get there loses the tree, because the backup goes with the call. */
  method ReplaceProject<R>(project: Project<R>, pending: R, reached: Reached<R>, faults: Faults) returns (outcome: Outcome)
    modifies project
    ensures outcome.Refused? <==> Refuses(old(project.tree), faults)
    ensures outcome.Done? <==> !outcome.Refused? && reached.Replaced? && !faults.commit
    ensures outcome.Done? ==> project.tree == Some(reached.new_) && project.rows == reached.rows
    ensures !outcome.Done? ==> project.rows == old(project.rows)
    ensures outcome.RolledBack? <==>
              !outcome.Refused? && !outcome.Done? && !reached.NothingCopied? && UndoWorks(old(project.failed), faults)
    ensures !outcome.Done? ==>
              project.tree == if outcome.Refused? || outcome.RolledBack? then old(project.tree)
                              else AfterFailedUndo(TreeOf(reached), old(project.failed), faults)
    ensures !outcome.Done? && !outcome.Refused? && UndoWorks(old(project.failed), faults) ==>
              (project.tree == old(project.tree) <==> !reached.NothingCopied?)
    ensures !outcome.Refused? && reached.NothingCopied? ==> project.tree == None && outcome.MoveFailed?
  {
    outcome := project.MutateAndCommit(pending, ReplaceEdit(reached), faults);
  }

  function TreeOf<R>(reached: Reached<R>): Option<Tree> {
    match reached
    case DeleteStops(left) => Some(left)
    case NothingCopied => None
    case CopyStops(part) => Some(part)
    case PackwizStops(part) => Some(part)
    case SyncStops(part, _) => Some(part)
    case Replaced(new_, _) => Some(new_)
  }
}

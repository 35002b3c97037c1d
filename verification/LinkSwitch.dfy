/** The link `current` through one operation (service/internal/publishing/publisher.go,
    `atomicCurrent` and `restoreCurrent`), as a function of what fails. */
module LinkSwitch {
  import opened Text

  /** Which operations of `atomicCurrent` fail: making the new link, the rename, removing `current`,
      and the second rename. */
  datatype SwitchFaults = SwitchFaults(link: bool, rename: bool, remove: bool, again: bool)

  /** What fails between the SQL statements and the end: reading the old link, the switch, the commit,
      and the operations that put the old link back. */
  datatype LinkFaults = LinkFaults(readlink: bool, switch: SwitchFaults, commit: bool, undo: SwitchFaults)

  predicate SwitchWorks(faults: SwitchFaults) {
    !faults.link && (!faults.rename || !faults.again)
  }

  predicate SwitchCommits(faults: LinkFaults) {
    SwitchWorks(faults.switch) && !faults.commit
  }

  /** The link after `atomicCurrent`. */
  function LinkAfterSwitch(link: Option<string>, target: string, faults: SwitchFaults): Option<string> {
    if faults.link then link
    else if SwitchWorks(faults) then Some(target)
    else if faults.remove then link
    else None
  }

  /** The link after `restoreCurrent`; no previous link is an empty one. */
  function LinkAfterRestore(link: Option<string>, previous: Option<string>, faults: SwitchFaults): Option<string> {
    match previous
    case None => if faults.remove then link else None
    case Some(p) => LinkAfterSwitch(link, p, faults)
  }

  /** The link at the end of a publish or rollback that reached its switch. */
  function LinkAfter(link: Option<string>, target: string, faults: LinkFaults): Option<string> {
    var switched := LinkAfterSwitch(link, target, faults.switch);
    if SwitchWorks(faults.switch) && faults.commit
    then LinkAfterRestore(switched, if faults.readlink then None else link, faults.undo)
    else switched
  }

  /** When an operation that fails leaves the link as it was: it could not make the new link; or both
      renames failed and there was no link to lose, or it could not be removed; or the commit failed
      and the undo worked, or had nothing to change. */
  predicate LinkKept(link: Option<string>, target: string, faults: LinkFaults) {
    if faults.switch.link then true
    else if !SwitchWorks(faults.switch) then link.None? || faults.switch.remove
    else match link
      case None => !faults.undo.remove
      case Some(l) =>
        if faults.readlink then faults.undo.remove && l == target
        else SwitchWorks(faults.undo) || (l == target && (faults.undo.link || faults.undo.remove))
  }

  /** Nothing but the commit fails, or the new link cannot be made. */
  predicate KeptByPlainUndo(faults: LinkFaults) {
    || faults.switch.link
    || (faults.commit && !faults.readlink && faults.switch == SwitchFaults(false, false, false, false)
        && faults.undo == SwitchFaults(false, false, false, false))
  }

  lemma PlainUndoKeeps(link: Option<string>, target: string, faults: LinkFaults)
    ensures KeptByPlainUndo(faults) <==>
              || faults.switch.link
              || (faults.commit && !faults.readlink && faults.switch == SwitchFaults(false, false, false, false)
                  && faults.undo == SwitchFaults(false, false, false, false))
    ensures KeptByPlainUndo(faults) ==> LinkKept(link, target, faults)
  {
  }

  lemma LinkKeptExactly(link: Option<string>, target: string, faults: LinkFaults)
    requires !SwitchCommits(faults)
    ensures LinkAfter(link, target, faults) == link <==> LinkKept(link, target, faults)
  {
  }

  lemma LinkAfterCommit(link: Option<string>, target: string, faults: LinkFaults)
    requires SwitchCommits(faults)
    ensures LinkAfter(link, target, faults) == Some(target)
  {
  }
}

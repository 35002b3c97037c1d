/** Installing and reverting the startup integration of a game server
    (extension/app/PackwizIntegrationController.php): the saved command, the startup command and two
    files on the server are changed one after another, and undone by hand when a step fails. */
module Startup {
  import opened Text

  const WRAPPER := "bash ./packwiz-start.sh"

  /** `saved` is the stored key, empty when absent; `script` and `jar` are the two files. */
  datatype State = State(saved: string, startup: string, script: Option<string>, jar: bool)

  /** How a deletion of both files ends: a failing one may have removed either. */
  datatype Deletion = Deleted | DeletionFails(script: bool, jar: bool)

  /** The steps of a request that fail. A failing write or startup change changes nothing. */
  datatype InstallFaults = InstallFaults(
    plan: bool, running: bool, download: bool, putJar: bool, putScript: bool, chmod: bool, save: bool,
    apply: bool, record: bool, undo: bool, deletion: Deletion, forget: bool)

  datatype RevertFaults = RevertFaults(running: bool, restore: bool, deletion: Deletion, forget: bool, record: bool)

  datatype Outcome =
    | Done
    | Refused              // nothing was changed
    | Unprepared           // stopped before the command was saved
    | Undone               // failed, and undone
    | UndoFailed           // failed, and the undo failed too
    | Stopped              // a revert stopped on the way
    | Unrecorded           // reverted, but the manager does not know

  // ---- the script ----

  function Flat(command: string): string {
    if command == "" then ""
    else (if command[0] == '\r' || command[0] == '\n' then " " else [command[0]]) + Flat(command[1..])
  }

  function Escaped(url: string): string {
    if url == "" then ""
    else (if url[0] == '\'' then "'\"'\"'" else [url[0]]) + Escaped(url[1..])
  }

  function Head(): string {
    "#!/usr/bin/env bash\nset -Eeuo pipefail\njava -jar packwiz-installer-bootstrap.jar -g -s server "
  }

  function Tail(startup: string): string {
    "\nexec " + Flat(startup) + "\n"
  }

  function Script(url: string, startup: string): string {
    Head() + "'" + Escaped(url) + "'" + Tail(startup)
  }

  datatype Quoting = Bare | Single | Double

  /** The first word of a shell line without expansions, and the rest of the line; None when a quote is
      left open (quote removal, POSIX Shell Command Language, section 2.2). */
  function Word(s: string, q: Quoting): Option<(string, string)> {
    if s == "" then (if q.Bare? then Some(("", "")) else None)
    else if q.Bare? && (s[0] == ' ' || s[0] == '\n') then Some(("", s))
    else if s[0] == '\'' && !q.Double? then Word(s[1..], if q.Bare? then Single else Bare)
    else if s[0] == '"' && !q.Single? then Word(s[1..], if q.Bare? then Double else Bare)
    else match Word(s[1..], q)
      case None => None
      case Some((word, rest)) => Some(([s[0]] + word, rest))
  }

  lemma WordStep(c: char, s: string, q: Quoting)
    requires !(q.Bare? && (c == ' ' || c == '\n'))
    ensures Word([c] + s, q) ==
            if c == '\'' && !q.Double? then Word(s, if q.Bare? then Single else Bare)
            else if c == '"' && !q.Single? then Word(s, if q.Bare? then Double else Bare)
            else match Word(s, q) case None => None case Some((word, rest)) => Some(([c] + word, rest))
  {
    assert ([c] + s)[1..] == s;
  }

  lemma WordEnds(rest: string)
    requires rest != "" && rest[0] == '\n'
    ensures Word(rest, Bare) == Some(("", rest))
  {
  }

  lemma {:induction false} QuotedUrl(url: string, rest: string)
    requires rest != "" && rest[0] == '\n'
    ensures Word(Escaped(url) + ("'" + rest), Single) == Some((url, rest))
  {
    hide Word;
    if url == "" {
      WordEnds(rest);
      WordStep('\'', rest, Single);
      assert Escaped(url) + ("'" + rest) == ['\''] + rest;
    } else {
      QuotedUrl(url[1..], rest);
      assert url == [url[0]] + url[1..];
      var more := Escaped(url[1..]) + ("'" + rest);
      if url[0] == '\'' {
        ReopenedQuote(more);
        assert Escaped(url) + ("'" + rest) == "'\"'\"'" + more;
      } else {
        WordStep(url[0], more, Single);
        assert Escaped(url) + ("'" + rest) == [url[0]] + more;
      }
    }
  }

  lemma ReopenedQuote(more: string)
    requires Word(more, Single).Some?
    ensures var (word, rest) := Word(more, Single).value; Word("'\"'\"'" + more, Single) == Some(("'" + word, rest))
  {
    hide Word;
    WordStep('\'', more, Bare);
    WordStep('"', "'" + more, Double);
    WordStep('\'', "\"'" + more, Double);
    WordStep('"', "'\"'" + more, Bare);
    WordStep('\'', "\"'\"'" + more, Single);
    assert "\"'" + more == ['"'] + ("'" + more);
    assert "'\"'" + more == ['\''] + ("\"'" + more);
    assert "\"'\"'" + more == ['"'] + ("'\"'" + more);
    assert "'\"'\"'" + more == ['\''] + ("\"'\"'" + more);
  }

  /** Whatever the pack URL holds, the shell passes it on to the installer as one argument, and a new line
      begins after it. */
  lemma ScriptPassesTheUrl(url: string, startup: string)
    ensures "#!/usr/bin/env bash\nset -Eeuo pipefail\njava -jar packwiz-installer-bootstrap.jar -g -s server " <= Script(url, startup)
    ensures Word(Script(url, startup)[|Head()|..], Bare) == Some((url, Tail(startup))) && Tail(startup)[0] == '\n'
  {
    assert Head() == "#!/usr/bin/env bash\nset -Eeuo pipefail\njava -jar packwiz-installer-bootstrap.jar -g -s server ";
    hide Head, Flat, Word;
    var quoted := Escaped(url) + ("'" + Tail(startup));
    assert Script(url, startup) == Head() + (['\''] + quoted);
    QuotedUrl(url, Tail(startup));
    WordStep('\'', quoted, Bare);
  }

  // ---- one request ----

  /** What an install request may leave. */
  predicate Installs(s: State, url: string, outcome: Outcome, t: State) {
    match outcome
    case Done =>
      s.saved == "" && t == State(s.startup, WRAPPER, Some(Script(url, s.startup)), true)
    case Refused => t == s
    case Unprepared => s.saved == "" && t.saved == "" && t.startup == s.startup
    case Undone => s.saved == "" && t == State("", s.startup, None, false)
    case UndoFailed =>
      && s.saved == "" && t.saved == s.startup
      && (t.startup == s.startup || (t.startup == WRAPPER && t.script == Some(Script(url, s.startup)) && t.jar))
    case _ => false
  }

  /** What a revert request may leave. */
  predicate Reverts(s: State, outcome: Outcome, t: State) {
    match outcome
    case Done => s.saved != "" && t == State("", s.saved, None, false)
    case Unrecorded => s.saved != "" && t == State("", s.saved, None, false)
    case Refused => t == s
    case Stopped => s.saved != "" && t.saved == s.saved && (t.startup == s.saved || t == s)
    case _ => false
  }

  class Server {
    var saved: string
    var startup: string
    var script: Option<string>
    var jar: bool

    constructor (startup: string)
      ensures View() == State("", startup, None, false)
    {
      this.saved, this.startup, this.script, this.jar := "", startup, None, false;
    }

    function View(): State
      reads this
    {
      State(saved, startup, script, jar)
    }

    method Delete(deletion: Deletion) returns (ok: bool)
      modifies this`script, this`jar
      ensures ok <==> deletion.Deleted?
      ensures ok ==> script == None && !jar
    {
      if deletion.Deleted? || deletion.script {
        script := None;
      }
      if deletion.Deleted? || deletion.jar {
        jar := false;
      }
      ok := deletion.Deleted?;
    }

    method Install(url: string, faults: InstallFaults) returns (outcome: Outcome)
      modifies this
      ensures Installs(old(View()), url, outcome, View())
      ensures outcome.Done? <==>
                && old(saved) == "" && !faults.plan && !faults.running && !faults.download && !faults.putJar
                && !faults.putScript && !faults.chmod && !faults.save && !faults.apply && !faults.record
      ensures outcome.Refused? <==> old(saved) != "" || faults.plan || faults.running || faults.download
      ensures outcome.Unprepared? <==>
                !outcome.Refused? && (faults.putJar || faults.putScript || faults.chmod || faults.save)
      ensures outcome.UndoFailed? <==>
                && !outcome.Refused? && !outcome.Unprepared? && !outcome.Done?
                && ((!faults.apply && faults.undo) || faults.deletion.DeletionFails? || faults.forget)
    {
      hide Script;
      if faults.plan || saved != "" || faults.running || faults.download {
        return Refused;
      }
      var original := startup;
      if faults.putJar {
        return Unprepared;
      }
      jar := true;
      if faults.putScript {
        return Unprepared;
      }
      script := Some(Script(url, startup));
      if faults.chmod || faults.save {
        return Unprepared;
      }
      saved := startup;
      var applied := false;
      if !faults.apply {
        startup := WRAPPER;
        applied := true;
        if !faults.record {
          return Done;
        }
      }
      if applied {
        if faults.undo {
          return UndoFailed;
        }
        startup := original;
      }
      var deleted := Delete(faults.deletion);
      if !deleted || faults.forget {
        return UndoFailed;
      }
      saved := "";
      outcome := Undone;
    }

    method Revert(faults: RevertFaults) returns (outcome: Outcome)
      modifies this
      ensures Reverts(old(View()), outcome, View())
      ensures outcome.Refused? <==> old(saved) == "" || faults.running
      ensures outcome.Done? || outcome.Unrecorded? <==>
                !outcome.Refused? && !faults.restore && faults.deletion.Deleted? && !faults.forget
      ensures outcome.Unrecorded? ==> faults.record
      ensures outcome.Done? ==> !faults.record
    {
      var original := saved;
      if original == "" || faults.running {
        return Refused;
      }
      if faults.restore {
        return Stopped;
      }
      startup := original;
      var deleted := Delete(faults.deletion);
      if !deleted || faults.forget {
        return Stopped;
      }
      saved := "";
      outcome := if faults.record then Unrecorded else Done;
    }
  }

  // ---- every run of requests ----

  datatype Request = Install(url: string) | Revert

  datatype Served = Served(request: Request, outcome: Outcome)

  predicate Serves(s: State, e: Served, t: State) {
    match e.request
    case Install(url) => Installs(s, url, e.outcome, t)
    case Revert => Reverts(s, e.outcome, t)
  }

  /** The states of a run from a server without the integration; files may lie around. */
  ghost predicate IsRun(original: string, states: seq<State>, served: seq<Served>) {
    && |states| == |served| + 1
    && states[0].saved == "" && states[0].startup == original
    && forall i | 0 <= i < |served| :: Serves(states[i], served[i], states[i + 1])
  }

  /** The original command is in force with nothing saved, or it is saved, and in force itself or through
      the wrapper, whose script ends in it. */
  ghost predicate Kept(original: string, s: State) {
    || (s.saved == "" && s.startup == original)
    || (s.saved == original != "" &&
        (s.startup == original ||
         (s.startup == "bash ./packwiz-start.sh" && s.script.Some? && EndsIn(s.script.value, original))))
  }

  /** The last line of the script runs the command, with its line breaks turned into spaces. */
  ghost predicate EndsIn(script: string, command: string) {
    exists before, flat ::
      && script == before + "\nexec " + flat + "\n" && |flat| == |command|
      && forall i | 0 <= i < |command| :: flat[i] == if command[i] == '\r' || command[i] == '\n' then ' ' else command[i]
  }

  lemma {:induction false} FlatPointwise(command: string)
    ensures |Flat(command)| == |command|
    ensures forall i | 0 <= i < |command| ::
              Flat(command)[i] == if command[i] == '\r' || command[i] == '\n' then ' ' else command[i]
  {
    if command != "" {
      FlatPointwise(command[1..]);
    }
  }

  lemma ScriptEndsIn(url: string, command: string)
    ensures EndsIn(Script(url, command), command)
  {
    FlatPointwise(command);
    hide Flat, Head, Escaped;
    var before := Head() + "'" + Escaped(url) + "'";
    assert Script(url, command) == before + "\nexec " + Flat(command) + "\n";
  }

  lemma ServingKeeps(original: string, s: State, e: Served, t: State)
    requires original != "" && Kept(original, s) && Serves(s, e, t)
    ensures Kept(original, t)
  {
    hide Script, EndsIn;
    if e.request.Install? {
      ScriptEndsIn(e.request.url, s.startup);
    }
  }

  lemma {:induction false} OriginalIsNeverLost(original: string, states: seq<State>, served: seq<Served>, i: nat)
    requires original != "" && IsRun(original, states, served) && i < |states|
    ensures Kept(original, states[i])
  {
    hide Kept, Serves, Installs, Reverts, Script, Head, Tail, EndsIn;
    if i > 0 {
      OriginalIsNeverLost(original, states, served, i - 1);
      ServingKeeps(original, states[i - 1], served[i - 1], states[i]);
    } else {
      assert Kept(original, states[0]) by { KeptAtFirst(original, states[0]); }
    }
  }

  lemma KeptAtFirst(original: string, s: State)
    requires s.saved == "" && s.startup == original
    ensures Kept(original, s)
  {
  }

  /** A revert that gets through puts the original command back, whatever failed before, and leaves
      nothing behind. */
  lemma RevertBringsTheOriginalBack(original: string, states: seq<State>, served: seq<Served>, i: nat)
    requires original != "" && IsRun(original, states, served) && i < |served|
    requires served[i].request.Revert? && (served[i].outcome.Done? || served[i].outcome.Unrecorded?)
    ensures states[i + 1] == State("", original, None, false)
  {
    hide Installs, Script, Head, Tail, EndsIn;
    OriginalIsNeverLost(original, states, served, i);
    assert Serves(states[i], served[i], states[i + 1]);
  }

  /** Installing over any command and reverting is a run, and ends where it began. */
  lemma InstallAndRevert(original: string, url: string)
    requires original != ""
    ensures var installed := State(original, "bash ./packwiz-start.sh", Some(Script(url, original)), true);
            var first := State("", original, None, false);
            IsRun(original, [first, installed, first], [Served(Install(url), Done), Served(Revert, Done)])
  {
    hide Script;
  }

  /** An empty command cannot be saved, because an empty key reads as absent: the command survives every
      run exactly when it is not empty. */
  lemma OnlyTheEmptyCommandIsLost(original: string)
    ensures original != "" <==>
            forall states, served, i | IsRun(original, states, served) && 0 <= i < |states| :: Kept(original, states[i])
  {
    hide Script;
    if original != "" {
      forall states, served, i | IsRun(original, states, served) && 0 <= i < |states|
        ensures Kept(original, states[i])
      {
        OriginalIsNeverLost(original, states, served, i);
      }
    } else {
      var installed := State("", WRAPPER, Some(Script("", "")), true);
      var states, served := [State("", "", None, false), installed], [Served(Install(""), Done)];
      assert IsRun("", states, served) && !Kept("", states[1]);
    }
  }
}

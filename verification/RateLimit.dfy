/** The mutation rate limiter (service/internal/api/api.go, `rateMutations`): one counting window for
    each actor, thirty requests a minute. */
module RateLimit {
  /** Nanoseconds, as `time.Duration`. */
  const MINUTE: int := 60_000_000_000

  const LIMIT: nat := 30

  datatype Window = Window(at: int, count: nat)

  datatype Request = Request(method_: string, actor: string, now: int)

  /** Every method but GET and HEAD counts. */
  predicate Mutation(r: Request) {
    r.method_ != "GET" && r.method_ != "HEAD"
  }

  /** The name an actor is counted under. */
  function Key(actor: string): string {
    if actor == "" then "unknown" else actor
  }

  type Table = map<string, Window>

  /** The window of a mutation; a missing entry is the zero time, ages ago. */
  function Counted(values: Table, r: Request): Window {
    if Key(r.actor) in values && r.now - values[Key(r.actor)].at < MINUTE
    then Window(values[Key(r.actor)].at, values[Key(r.actor)].count + 1)
    else Window(r.now, 1)
  }

  function Step(values: Table, r: Request): Table {
    if Mutation(r) then values[Key(r.actor) := Counted(values, r)] else values
  }

  predicate Passes(values: Table, r: Request) {
    Mutation(r) ==> Counted(values, r).count <= LIMIT
  }

  class Limiter {
    var values: Table

    constructor ()
      ensures values == map[]
    {
      values := map[];
    }

    method Serve(r: Request) returns (passed: bool)
      modifies this
      ensures values == Step(old(values), r)
      ensures passed == Passes(old(values), r)
    {
      if r.method_ == "GET" || r.method_ == "HEAD" {
        return true;
      }
      var key := r.actor;
      if key == "" {
        key := "unknown";
      }
      var v := Window(0, 0);
      if key in values {
        v := values[key];
      }
      if key !in values || r.now - v.at >= MINUTE {
        v := Window(r.now, 0);
      }
      v := v.(count := v.count + 1);
      values := values[key := v];
      passed := v.count <= LIMIT;
    }
  }

  // ---- runs: requests in the order in which they take the lock ----

  function After(run: seq<Request>): Table {
    if run == [] then map[] else Step(After(run[..|run| - 1]), run[|run| - 1])
  }

  /** Request `i` of the run passes. */
  predicate Passed(run: seq<Request>, i: nat)
    requires i < |run|
  {
    Passes(After(run[..i]), run[i])
  }

  ghost predicate InClockOrder(run: seq<Request>) {
    forall i, j | 0 <= i < j < |run| :: run[i].now <= run[j].now
  }

  /** The same actor; no name at all counts as `unknown`. */
  predicate SameActor(a: string, b: string) {
    a == b || ((a == "" || a == "unknown") && (b == "" || b == "unknown"))
  }

  lemma KeyDecidesActor(a: string, b: string)
    ensures Key(a) == Key(b) <==> SameActor(a, b)
  {
  }

  /** How many of one actor's mutations pass in the minute from `from` on. */
  function PassedWithin(run: seq<Request>, actor: string, from: int): nat {
    if run == [] then 0
    else
      var r := run[|run| - 1];
      PassedWithin(run[..|run| - 1], actor, from) +
      if r.method_ != "GET" && r.method_ != "HEAD" && SameActor(r.actor, actor)
         && from <= r.now < from + 60_000_000_000 && Passed(run, |run| - 1)
      then 1 else 0
  }

  predicate SameWindow(a: Table, b: Table, key: string) {
    (key in a <==> key in b) && (key in a ==> a[key] == b[key])
  }

  lemma StepsAreSeparate(a: Table, b: Table, r: Request, key: string)
    requires SameWindow(a, b, key)
    ensures SameWindow(Step(a, r), Step(b, r), key)
  {
  }

  lemma OthersStepAside(values: Table, q: Request, key: string)
    requires !(Mutation(q) && Key(q.actor) == key)
    ensures SameWindow(Step(values, q), values, key)
  {
  }

  lemma {:induction false} WindowsAreSeparate(run: seq<Request>, q: Request, more: seq<Request>, key: string)
    requires !(Mutation(q) && Key(q.actor) == key)
    ensures SameWindow(After(run + [q] + more), After(run + more), key)
    decreases |more|
  {
    hide SameWindow, Step;
    if more == [] {
      assert run + [] == run && run + [q] + [] == run + [q] && (run + [q])[..|run|] == run;
      OthersStepAside(After(run), q, key);
    } else {
      var before, r := more[..|more| - 1], more[|more| - 1];
      WindowsAreSeparate(run, q, before, key);
      LastOf(run + [q], before, r);
      LastOf(run, before, r);
      assert more == before + [r];
      StepsAreSeparate(After(run + [q] + before), After(run + before), r, key);
    }
  }

  lemma LastOf(run: seq<Request>, before: seq<Request>, r: Request)
    ensures After(run + (before + [r])) == Step(After(run + before), r)
  {
    hide Step;
    var all := run + (before + [r]);
    assert all[..|all| - 1] == run + before && all[|all| - 1] == r;
  }

  /** A request of another actor, or one that only reads, can be taken out of the past anywhere: what is
      decided afterwards stays the same. */
  lemma ActorsDoNotInterfere(run: seq<Request>, q: Request, more: seq<Request>, r: Request)
    requires q.method_ == "GET" || q.method_ == "HEAD"
             || (q.actor != r.actor && !((q.actor == "" || q.actor == "unknown") && (r.actor == "" || r.actor == "unknown")))
    ensures Passes(After(run + [q] + more), r) == Passes(After(run + more), r)
  {
    KeyDecidesActor(q.actor, r.actor);
    WindowsAreSeparate(run, q, more, Key(r.actor));
  }

  /** The mutations of one actor, in their order. */
  function Own(run: seq<Request>, actor: string): seq<Request> {
    if run == [] then []
    else
      var r := run[|run| - 1];
      Own(run[..|run| - 1], actor) + if r.method_ != "GET" && r.method_ != "HEAD" && SameActor(r.actor, actor) then [r] else []
  }

  /** Two runs with the same mutations of an actor decide that actor's next request alike. */
  lemma OwnMutationsDecide(one: seq<Request>, other: seq<Request>, r: Request)
    requires Own(one, r.actor) == Own(other, r.actor)
    ensures Passes(After(one), r) == Passes(After(other), r)
  {
    hide Own;
    OwnWindow(one, r.actor);
    OwnWindow(other, r.actor);
  }

  lemma {:induction false} OwnWindow(run: seq<Request>, actor: string)
    ensures SameWindow(After(run), After(Own(run, actor)), Key(actor))
  {
    hide SameWindow, Step;
    if run == [] {
      WindowIsItself(After([]), Key(actor));
    } else {
      var before, r := run[..|run| - 1], run[|run| - 1];
      var own := Own(before, actor);
      OwnWindow(before, actor);
      StepsAreSeparate(After(before), After(own), r, Key(actor));
      KeyDecidesActor(r.actor, actor);
      if r.method_ != "GET" && r.method_ != "HEAD" && SameActor(r.actor, actor) {
        assert Own(run, actor) == own + [r] && (own + [r])[..|own|] == own;
      } else {
        OthersStepAside(After(own), r, Key(actor));
        SameWindowTwice(Step(After(before), r), Step(After(own), r), After(own), Key(actor));
        assert Own(run, actor) == own;
      }
    }
  }

  lemma WindowIsItself(a: Table, key: string)
    ensures SameWindow(a, a, key)
  {
  }

  lemma SameWindowTwice(a: Table, b: Table, c: Table, key: string)
    requires SameWindow(a, b, key) && SameWindow(b, c, key)
    ensures SameWindow(a, c, key)
  {
  }

  /** What only reads always passes. */
  lemma ReadsPass(values: Table, r: Request)
    requires r.method_ == "GET" || r.method_ == "HEAD"
    ensures Passes(values, r) && Step(values, r) == values
  {
  }

  /** What an actor's window says about the run: every request in it is less than a minute older than
      its start, and the passed ones are counted. */
  ghost predicate Describes(run: seq<Request>, actor: string, last: int) {
    if Key(actor) !in After(run) then forall from :: PassedWithin(run, actor, from) == 0
    else
      var w := After(run)[Key(actor)];
      && w.at <= last && w.count >= 1
      && PassedWithin(run, actor, w.at) == (if w.count <= LIMIT then w.count else LIMIT)
      && (forall from | last < from || w.at + MINUTE <= from :: PassedWithin(run, actor, from) == 0)
      && (forall from | w.at < from :: PassedWithin(run, actor, from) < (if w.count <= LIMIT then w.count else LIMIT))
      && (forall from | from <= w.at < from + MINUTE ::
            PassedWithin(run, actor, from) < LIMIT + (if w.count <= LIMIT then w.count else LIMIT))
      && (forall from :: PassedWithin(run, actor, from) < 2 * LIMIT)
  }

  lemma {:induction false} WindowDescribesRun(run: seq<Request>, actor: string, last: int)
    requires InClockOrder(run) && forall r | r in run :: r.now <= last
    ensures Describes(run, actor, last)
  {
    if run != [] {
      var before, r := run[..|run| - 1], run[|run| - 1];
      assert forall i | 0 <= i < |before| :: before[i] == run[i];
      WindowDescribesRun(before, actor, r.now);
      assert r in run;
      DescribesStep(run, actor, last);
    }
  }

  lemma DescribesStep(run: seq<Request>, actor: string, last: int)
    requires run != [] && Describes(run[..|run| - 1], actor, run[|run| - 1].now) && run[|run| - 1].now <= last
    ensures Describes(run, actor, last)
  {
    var before, r := run[..|run| - 1], run[|run| - 1];
    KeyDecidesActor(r.actor, actor);
    var counts := Mutation(r) && Key(r.actor) == Key(actor) && Passes(After(before), r);
    forall from
      ensures PassedWithin(run, actor, from) ==
              PassedWithin(before, actor, from) + (if counts && from <= r.now < from + MINUTE then 1 else 0)
    {
    }
  }

  /** At most 59 of an actor's mutations pass in any one minute, at window borders included: one less
      than two full windows, because the request that opens the earlier window is outside. */
  lemma AtMost59PerMinute(run: seq<Request>, actor: string, from: int)
    requires InClockOrder(run)
    ensures PassedWithin(run, actor, from) <= 59
  {
    if run != [] {
      WindowDescribesRun(run, actor, run[|run| - 1].now);
    }
  }

  /** A request is refused exactly when it is a mutation and thirty of the same actor's passed since the
      actor's window began, less than a minute ago. */
  lemma RefusedMeansThirtyPassed(run: seq<Request>, r: Request)
    requires InClockOrder(run) && forall q | q in run :: q.now <= r.now
    ensures var key := if r.actor == "" then "unknown" else r.actor;
            !Passes(After(run), r) <==>
            && r.method_ != "GET" && r.method_ != "HEAD"
            && key in After(run) && r.now < After(run)[key].at + 60_000_000_000
            && PassedWithin(run, r.actor, After(run)[key].at) == 30
  {
    WindowDescribesRun(run, r.actor, r.now);
  }

  /** An actor's windows begin at least a minute apart. */
  lemma {:induction false} WindowsAreAMinuteApart(run: seq<Request>, i: nat, key: string)
    requires i <= |run| && InClockOrder(run) && key in After(run[..i])
    ensures key in After(run)
    ensures var first, second := After(run[..i])[key].at, After(run)[key].at;
            second == first || second >= first + MINUTE
    decreases |run|
  {
    if i == |run| {
      assert run[..i] == run;
    } else {
      var before := run[..|run| - 1];
      assert before[..i] == run[..i];
      WindowsAreAMinuteApart(before, i, key);
    }
  }

  /** One actor: a first request, 29 just before the window ends, thirty as it ends. */
  function BorderRun(actor: string): seq<Request> {
    seq(60, i => Request("POST", actor, if i == 0 then 0 else if i < 30 then MINUTE - 1 else MINUTE))
  }

  /** The bound is reached: 59 pass within a minute. */
  lemma BoundIsReached(actor: string)
    ensures InClockOrder(BorderRun(actor))
    ensures PassedWithin(BorderRun(actor), actor, MINUTE - 1) == 59
  {
    BorderPrefix(actor, 60);
    assert BorderRun(actor)[..60] == BorderRun(actor);
  }

  lemma {:induction false} BorderPrefix(actor: string, n: nat)
    requires n <= 60
    ensures var key, run := Key(actor), BorderRun(actor)[..n];
            && PassedWithin(run, actor, MINUTE - 1) == (if n == 0 then 0 else n - 1)
            && (key in After(run) <==> n > 0)
            && (n > 0 ==> After(run)[key] == if n <= 30 then Window(0, n) else Window(MINUTE, n - 30))
  {
    if n > 0 {
      BorderPrefix(actor, n - 1);
      assert BorderRun(actor)[..n][..n - 1] == BorderRun(actor)[..n - 1];
    }
  }
}

/** The retrying event bus (backend/app/core/event_bus.py): the handlers of an event run concurrently,
    each is tried up to MAX_RETRIES + 1 times, and what fails for good is reported and kept in a
    Redis list of the newest thousand failures. */
module EventBus {
  import opened Basics

  const MAX_RETRIES: nat := 2
  const KEPT_FAILURES: nat := 1000

  type Error = nat

  // What attempt k (from 1) of handler i raises; None is success.
  type Outcomes = (nat, nat) -> Option<Error>

  datatype Failure = Failure(handler: nat, error: Error, attempts: nat)

  predicate AlwaysFails(o: Outcomes, i: nat) {
    forall k :: 1 <= k <= 3 ==> o(i, k).Some?
  }

  predicate FirstSuccess(o: Outcomes, i: nat, k: nat) {
    1 <= k <= 3 && o(i, k).None? && forall j :: 1 <= j < k ==> o(i, j).Some?
  }

  // The failures emit has to report for the first n handlers, in registration order.
  function Expected(o: Outcomes, n: nat): seq<Failure> {
    if n == 0 then []
    else if AlwaysFails(o, n - 1) then
      Expected(o, n - 1) + [Failure(n - 1, o(n - 1, MAX_RETRIES + 1).value, MAX_RETRIES + 1)]
    else Expected(o, n - 1)
  }

  // ---- Concurrent handlers: any task may take the next step ----

  datatype Task =
    | Trying(attempt: nat)
    | Sleeping(attempt: nat)   // that attempt failed, another follows
    | Pushing                  // LPUSH of the failure
    | Trimming                 // LTRIM 0 999
    | Succeeded(attempt: nat)
    | Failed(failure: Failure, skipped: bool)  // skipped: its failure was pushed but not trimmed

  // How Redis answers the commands that store one failure.
  datatype Reply = Answers | Fails | FailsAfterPush | FailsAfterTrim  // then the EXPIRE

  // list: the Redis list, newest first. history: every failure ever pushed, newest first.
  datatype Bus = Bus(tasks: seq<Task>, list: seq<nat>, history: seq<nat>)

  function Trim(list: seq<nat>): seq<nat> {
    list[..Min(|list|, KEPT_FAILURES)]
  }

  function FailureOf(o: Outcomes, i: nat): Failure {
    Failure(i, match o(i, MAX_RETRIES + 1) case Some(e) => e case None => 0, MAX_RETRIES + 1)
  }

  // An attempt ends, or the pause after it.
  function Next(o: Outcomes, i: nat, t: Task): Task {
    match t
    case Trying(k) => if o(i, k).None? then Succeeded(k) else if k <= MAX_RETRIES then Sleeping(k) else Pushing
    case Sleeping(k) => Trying(k + 1)
    case _ => t
  }

  // One step of task i; redis(i) is how its failure is stored.
  function Step(o: Outcomes, redis: nat -> Reply, b: Bus, i: nat): Bus {
    if i >= |b.tasks| then b else
    match b.tasks[i]
    case Trying(_) => b.(tasks := b.tasks[i := Next(o, i, b.tasks[i])])
    case Sleeping(_) => b.(tasks := b.tasks[i := Next(o, i, b.tasks[i])])
    case Pushing =>
      if redis(i).Fails? then b.(tasks := b.tasks[i := Failed(FailureOf(o, i), false)])
      else Bus(b.tasks[i := Trimming], [i] + b.list, [i] + b.history)
    case Trimming =>
      var skipped := redis(i).FailsAfterPush?;
      b.(list := if skipped then b.list else Trim(b.list), tasks := b.tasks[i := Failed(FailureOf(o, i), skipped)])
    case _ => b
  }

  // A schedule: which task steps, last choice outermost.
  datatype Run = Start(handlers: nat, list: seq<nat>) | Then(before: Run, task: nat)

  function Exec(o: Outcomes, redis: nat -> Reply, run: Run): Bus {
    match run
    case Start(n, list) => Bus(seq(n, _ => Trying(1)), list, list)
    case Then(before, i) => Step(o, redis, Exec(o, redis, before), i)
  }

  function Handlers(run: Run): nat {
    match run
    case Start(n, _) => n
    case Then(before, _) => Handlers(before)
  }

  predicate Finished(t: Task) {
    t.Succeeded? || t.Failed?
  }

  // [f for f in outcomes if f is not None]
  function Report(tasks: seq<Task>): seq<Failure> {
    if tasks == [] then []
    else
      var last := tasks[|tasks| - 1];
      Report(tasks[..|tasks| - 1]) + if last.Failed? then [last.failure] else []
  }

  // What a task has been through.
  ghost predicate Told(o: Outcomes, i: nat, t: Task) {
    match t
    case Trying(k) => 1 <= k <= MAX_RETRIES + 1 && forall j :: 1 <= j < k ==> o(i, j).Some?
    case Sleeping(k) => 1 <= k <= MAX_RETRIES && forall j :: 1 <= j <= k ==> o(i, j).Some?
    case Pushing => AlwaysFails(o, i)
    case Trimming => AlwaysFails(o, i)
    case Succeeded(k) => FirstSuccess(o, i, k)
    case Failed(f, _) => AlwaysFails(o, i) && f == FailureOf(o, i)
  }

  ghost predicate Settled(o: Outcomes, i: nat, t: Task) {
    (t.Succeeded? && FirstSuccess(o, i, t.attempt)) || (t.Failed? && AlwaysFails(o, i))
  }

  lemma {:induction false} TasksTold(o: Outcomes, redis: nat -> Reply, run: Run)
    ensures var tasks := Exec(o, redis, run).tasks;
            |tasks| == Handlers(run) && forall i :: 0 <= i < |tasks| ==> Told(o, i, tasks[i])
  {
    if run.Then? {
      TasksTold(o, redis, run.before);
    }
  }

  lemma {:induction false} ReportIsExpected(o: Outcomes, tasks: seq<Task>)
    requires forall i :: 0 <= i < |tasks| ==> Told(o, i, tasks[i]) && Finished(tasks[i])
    ensures Report(tasks) == Expected(o, |tasks|)
  {
    if tasks != [] {
      var n := |tasks| - 1;
      ReportIsExpected(o, tasks[..n]);
      assert Told(o, n, tasks[n]);
    }
  }

  /** Under every schedule: once all handlers have finished, each was run until its first success or
      MAX_RETRIES + 1 times, and emit reports exactly those that always failed, in registration
      order. */
  lemma EmitReportsFailures(o: Outcomes, redis: nat -> Reply, run: Run)
    requires forall t <- Exec(o, redis, run).tasks :: Finished(t)
    ensures Report(Exec(o, redis, run).tasks) == Expected(o, Handlers(run))
    ensures |Exec(o, redis, run).tasks| == Handlers(run)
    ensures forall i :: 0 <= i < Handlers(run) ==> Settled(o, i, Exec(o, redis, run).tasks[i])
  {
    TasksTold(o, redis, run);
    ReportIsExpected(o, Exec(o, redis, run).tasks);
  }

  // ---- Termination ----

  // Steps a task still has to take at most.
  function Left(t: Task): nat {
    match t
    case Trying(k) => 2 * (if k <= MAX_RETRIES then MAX_RETRIES + 1 - k else 0) + 3
    case Sleeping(k) => 2 * (if k <= MAX_RETRIES then MAX_RETRIES + 1 - k else 0) + 2
    case Pushing => 2
    case Trimming => 1
    case _ => 0
  }

  function TotalLeft(tasks: seq<Task>): nat {
    if tasks == [] then 0 else Left(tasks[0]) + TotalLeft(tasks[1..])
  }

  lemma {:induction false} TotalLeftUpdate(tasks: seq<Task>, i: nat, t: Task)
    requires i < |tasks|
    ensures TotalLeft(tasks[i := t]) == TotalLeft(tasks) - Left(tasks[i]) + Left(t)
  {
    if i > 0 {
      TotalLeftUpdate(tasks[1..], i - 1, t);
      assert tasks[i := t][1..] == tasks[1..][i - 1 := t];
    }
  }

  lemma {:induction false} TotalLeftBound(n: nat)
    ensures TotalLeft(seq(n, _ => Trying(1))) == 7 * n
  {
    if n > 0 {
      TotalLeftBound(n - 1);
      assert seq(n, _ => Trying(1))[1..] == seq(n - 1, _ => Trying(1));
    }
  }

  // Choices of the schedule that found a task not finished yet.
  function Effective(o: Outcomes, redis: nat -> Reply, run: Run): nat {
    match run
    case Start(_, _) => 0
    case Then(before, i) =>
      var b := Exec(o, redis, before);
      Effective(o, redis, before) + if i < |b.tasks| && !Finished(b.tasks[i]) then 1 else 0
  }

  /** No schedule keeps emit busy for more than seven steps a handler. */
  lemma {:induction false} EmitTerminates(o: Outcomes, redis: nat -> Reply, run: Run)
    ensures Effective(o, redis, run) + TotalLeft(Exec(o, redis, run).tasks) <= 7 * Handlers(run)
  {
    match run
    case Start(n, _) => TotalLeftBound(n);
    case Then(before, i) =>
      EmitTerminates(o, redis, before);
      TasksTold(o, redis, before);
      var tasks := Exec(o, redis, before).tasks;
      if i < |tasks| {
        assert Told(o, i, tasks[i]);
        TotalLeftUpdate(tasks, i, Exec(o, redis, run).tasks[i]);
        assert Finished(tasks[i]) ==> Exec(o, redis, run).tasks == tasks;
      }
  }

  // ---- The list of failures ----

  // The task has pushed its failure and not trimmed the list, or not yet.
  predicate Pushed(t: Task) {
    t.Trimming? || (t.Failed? && t.skipped)
  }

  function Untrimmed(tasks: seq<Task>): nat {
    if tasks == [] then 0 else (if Pushed(tasks[0]) then 1 else 0) + Untrimmed(tasks[1..])
  }

  lemma {:induction false} UntrimmedUpdate(tasks: seq<Task>, i: nat, t: Task)
    requires i < |tasks|
    ensures Untrimmed(tasks[i := t]) == Untrimmed(tasks) - (if Pushed(tasks[i]) then 1 else 0) + if Pushed(t) then 1 else 0
  {
    if i > 0 {
      UntrimmedUpdate(tasks[1..], i - 1, t);
      assert tasks[i := t][1..] == tasks[1..][i - 1 := t];
    }
  }

  // list is the newest part of history, and holds at least the newest thousand.
  ghost predicate Newest(list: seq<nat>, history: seq<nat>) {
    list <= history && |list| >= Min(|history|, 1000)
  }

  lemma PushKeepsNewest(list: seq<nat>, history: seq<nat>, i: nat)
    requires Newest(list, history)
    ensures Newest([i] + list, [i] + history) && Newest(Trim(list), history)
  {
  }

  lemma {:induction false} NothingTrimmed(n: nat)
    ensures Untrimmed(seq(n, _ => Trying(1))) == 0
  {
    if n > 0 {
      NothingTrimmed(n - 1);
      assert seq(n, _ => Trying(1))[1..] == seq(n - 1, _ => Trying(1));
    }
  }

  /** However the pushes and trims of concurrent handlers interleave, the newest thousand failures are
      never dropped, and the list exceeds a thousand only by handlers between their two commands and
      handlers whose trim failed. */
  lemma {:induction false} NewestFailuresKept(o: Outcomes, redis: nat -> Reply, run: Run)
    requires |FirstList(run)| <= KEPT_FAILURES
    ensures var b := Exec(o, redis, run);
            Newest(b.list, b.history) && |b.list| <= 1000 + Untrimmed(b.tasks)
  {
    match run
    case Start(n, _) => NothingTrimmed(n);
    case Then(before, i) =>
      NewestFailuresKept(o, redis, before);
      var b := Exec(o, redis, before);
      if i < |b.tasks| {
        UntrimmedUpdate(b.tasks, i, Exec(o, redis, run).tasks[i]);
        assert b.tasks[i := b.tasks[i]] == b.tasks;
        PushKeepsNewest(b.list, b.history, i);
      }
  }

  function FirstList(run: Run): seq<nat> {
    match run
    case Start(_, list) => list
    case Then(before, _) => FirstList(before)
  }

  // ---- _redact_kwargs ----

  const REDACT_KEYS: set<string> := {"content", "message", "body", "password", "token"}
  const REDACTED: string := "[REDACTED]"

  // A Python value as far as redaction looks into it: nested dicts, anything else is a leaf.
  datatype Value = Leaf(text: string) | Dict(items: Items)
  datatype Items = Nil | Item(key: string, value: Value, rest: Items)

  function Redact(items: Items): Items {
    match items
    case Nil => Nil
    case Item(k, v, rest) =>
      Item(k, if k in REDACT_KEYS then Leaf(REDACTED) else if v.Dict? then Dict(Redact(v.items)) else v, Redact(rest))
  }

  function Lookup(items: Items, key: string): Option<Value> {
    match items
    case Nil => None
    case Item(k, v, rest) => if k == key then Some(v) else Lookup(rest, key)
  }

  // The value at a path of keys.
  function At(items: Items, path: seq<string>): Option<Value>
    requires path != []
    decreases |path|
  {
    var v := Lookup(items, path[0]);
    if |path| == 1 then v
    else if v.Some? && v.value.Dict? then At(v.value.items, path[1..])
    else None
  }

  predicate SensitiveKey(key: string) {
    key == "content" || key == "message" || key == "body" || key == "password" || key == "token"
  }

  predicate Sensitive(path: seq<string>) {
    exists k <- path :: SensitiveKey(k)
  }

  lemma SensitiveCons(key: string, rest: seq<string>)
    ensures Sensitive([key] + rest) <==> SensitiveKey(key) || Sensitive(rest)
    ensures SensitiveKey(key) <==> key in REDACT_KEYS
  {
    var path := [key] + rest;
    assert path[0] == key && forall k <- rest :: k in path;
    assert forall k <- path :: k == key || k in rest;
    hide SensitiveKey;
    if k :| k in rest && SensitiveKey(k) {
      assert k in path;
    }
    if SensitiveKey(key) {
      assert key in path;
    }
  }

  lemma {:induction false} RedactLookup(items: Items, key: string)
    ensures var v, r := Lookup(items, key), Lookup(Redact(items), key);
      && (v.None? <==> r.None?)
      && (v.Some? && key in REDACT_KEYS ==> r == Some(Leaf(REDACTED)))
      && (v.Some? && key !in REDACT_KEYS ==> r == Some(if v.value.Dict? then Dict(Redact(v.value.items)) else v.value))
  {
    if items.Item? && items.key != key {
      RedactLookup(items.rest, key);
    }
  }

  /** The `kwargs` of a stored failure; the entry carries `original_kwargs` as well, the same values as
      they were, for the retry. Redaction leaves nothing but the marker at or below a sensitive key at any
      depth of dicts, keeps every other leaf, and adds no path. */
  lemma {:induction false} RedactionHidesExactly(items: Items, path: seq<string>)
    requires path != []
    ensures Sensitive(path) ==> At(Redact(items), path) in {None, Some(Leaf("[REDACTED]"))}
    ensures Sensitive(path) && !Sensitive(path[..|path| - 1]) && At(items, path).Some? ==>
      At(Redact(items), path) == Some(Leaf("[REDACTED]"))
    ensures !Sensitive(path) && At(items, path).Some? && At(items, path).value.Leaf? ==>
      At(Redact(items), path) == At(items, path)
    ensures At(items, path).None? ==> At(Redact(items), path).None?
    decreases |path|
  {
    RedactLookup(items, path[0]);
    var v := Lookup(items, path[0]);
    assert path == [path[0]] + path[1..];
    SensitiveCons(path[0], path[1..]);
    if |path| > 1 && v.Some? && v.value.Dict? {
      RedactionHidesExactly(v.value.items, path[1..]);
      assert path[..|path| - 1] == [path[0]] + path[1..][..|path| - 2];
      SensitiveCons(path[0], path[1..][..|path| - 2]);
    }
  }

  // ---- The code ----

  // b continues a by steps of other tasks than i.
  predicate OthersStep(a: Run, b: Run, i: nat) {
    a == b || (b.Then? && b.task != i && OthersStep(a, b.before, i))
  }

  lemma {:induction false} OthersLeaveTask(o: Outcomes, redis: nat -> Reply, a: Run, b: Run, i: nat)
    requires OthersStep(a, b, i)
    ensures var was, now := Exec(o, redis, a), Exec(o, redis, b);
      && Handlers(a) == Handlers(b) && |was.tasks| == |now.tasks| && (i < |was.tasks| ==> now.tasks[i] == was.tasks[i])
      && forall x <- was.history :: x in now.history
  {
    if a != b {
      OthersLeaveTask(o, redis, a, b.before, i);
    }
  }

  // What _run_handler returned once its task is finished.
  function Returned(t: Task): Option<Failure> {
    if t.Failed? then Some(t.failure) else None
  }

  /** One emit: `run` is the schedule so far, and the methods take the steps of their task. */
  class Emission {
    const o: Outcomes
    const redis: nat -> Reply
    var list: seq<nat>  // the Redis list
    ghost var run: Run

    ghost function Now(): Bus
      reads this
    {
      Exec(o, redis, run)
    }

    ghost predicate Valid()
      reads this
    {
      list == Now().list
    }

    // Task i is running and stands at t.
    ghost predicate At(i: nat, t: Task)
      reads this
    {
      Valid() && i < |Now().tasks| && Now().tasks[i] == t
    }

    constructor (o: Outcomes, redis: nat -> Reply, handlers: nat, list: seq<nat>)
      ensures Valid() && run == Run.Start(handlers, list) && this.o == o && this.redis == redis
    {
      this.o, this.redis, this.list, run := o, redis, list, Run.Start(handlers, list);
    }

    // Other handlers step.
    method Interference(i: nat)
      requires Valid()
      modifies this
      ensures Valid() && OthersStep(old(run), run, i)
    {
    }

    method Await(i: nat)
      requires Valid()
      modifies this
      ensures Valid() && Handlers(run) == Handlers(old(run))
      ensures i < |old(Now()).tasks| ==> At(i, old(Now()).tasks[i])
      ensures forall x <- old(Now().history) :: x in Now().history
    {
      ghost var before := run;
      Interference(i);
      OthersLeaveTask(o, redis, before, run, i);
    }

    // The step that goes with what the handler just did; it leaves the list alone.
    ghost method TakeStep(i: nat, t: Task)
      requires At(i, t) && (t.Trying? || t.Sleeping?)
      modifies this`run
      ensures At(i, Next(o, i, t)) && Handlers(run) == Handlers(old(run))
    {
      run := Run.Then(run, i);
    }

    /** LPUSH, LTRIM, EXPIRE. The result says that all were answered; the failure may be in the list without. */
    method PersistFailedEvent(i: nat) returns (stored: bool)
      requires At(i, Pushing)
      modifies this
      ensures At(i, Failed(FailureOf(o, i), redis(i).FailsAfterPush?)) && Handlers(run) == Handlers(old(run))
      ensures stored == redis(i).Answers? && (redis(i) != Fails ==> i in Now().history)
    {
      if redis(i).Fails? {
        run := Run.Then(run, i);
        return false;
      }
      list := [i] + list;
      run := Run.Then(run, i);
      assert Now().history[0] == i;
      Await(i);
      if !redis(i).FailsAfterPush? {
        list := Trim(list);
      }
      stored := redis(i).Answers?;
      run := Run.Then(run, i);
    }

    /** _run_handler, with other handlers stepping at every await: it ends in the step machine's final
        state of its task and returns the failure recorded there. */
    method RunHandler(i: nat) returns (failure: Option<Failure>, ghost attempts: nat)
      requires At(i, Trying(1))
      modifies this
      ensures Valid() && Handlers(run) == Handlers(old(run))
      ensures failure.None? ==> At(i, Succeeded(attempts)) && FirstSuccess(o, i, attempts)
      ensures failure.Some? ==>
        At(i, Failed(failure.value, redis(i).FailsAfterPush?)) && AlwaysFails(o, i) && failure.value == FailureOf(o, i)
      ensures failure.Some? && redis(i) != Fails ==> i in Now().history
    {
      hide Step, Exec;
      var lastExc := 0;
      attempts := 0;
      for attempt := 1 to MAX_RETRIES + 2
        invariant At(i, if attempt <= MAX_RETRIES + 1 then Trying(attempt) else Pushing)
        invariant Handlers(run) == Handlers(old(run))
        invariant forall k :: 1 <= k < attempt ==> o(i, k).Some?
        invariant attempt > 1 ==> o(i, attempt - 1) == Some(lastExc)
      {
        attempts := attempt;
        Await(i);
        TakeStep(i, Trying(attempt));
        match o(i, attempt) {
          case None => return None, attempts;
          case Some(exc) => lastExc := exc;
        }
        if attempt <= MAX_RETRIES {
          Await(i);
          TakeStep(i, Sleeping(attempt));
        }
      }
      var stored := PersistFailedEvent(i);
      failure := Some(Failure(i, lastExc, MAX_RETRIES + 1));
    }

    /** The end of emit: what the handlers returned, however they were scheduled, is filtered into the
        report of exactly those that always failed, in registration order. */
    method Emit(outcomes: seq<Option<Failure>>) returns (failures: seq<Failure>)
      requires Valid() && |outcomes| == |Now().tasks|
      requires forall i :: 0 <= i < |outcomes| ==> Finished(Now().tasks[i]) && outcomes[i] == Returned(Now().tasks[i])
      ensures failures == Expected(o, Handlers(run))
    {
      failures := [];
      for i := 0 to |outcomes|
        invariant failures == Report(Now().tasks[..i])
      {
        assert Now().tasks[..i + 1][..i] == Now().tasks[..i];
        if outcomes[i].Some? {
          failures := failures + [outcomes[i].value];
        }
      }
      assert Now().tasks[..|outcomes|] == Now().tasks;
      EmitReportsFailures(o, redis, run);
    }
  }
}

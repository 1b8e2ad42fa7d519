/** Retryable handlers (backend/app/event_handlers.py) under the event bus's retries: the fan-out that
    marks its dedup keys after sending, and a handler that marks before sending.

    create_notification (backend/app/services/notification.py) returns normally without creating anything
    once its target has had a hundred notifications in a minute. */
module Notifications {
  import opened Basics
  import EventBus

  const MAX_RETRIES: nat := EventBus.MAX_RETRIES

  type UserId = nat
  type EmitId = nat
  type Pair = (UserId, UserId)  // (admin, applicant)

  // What one call of create_notification does. SentThenFails: the row is in, and reading it back raises.
  datatype Creation = Sent | Skipped | Fails | SentThenFails

  predicate Delivers(c: Creation) {
    c.Sent? || c.SentThenFails?
  }

  predicate Raises(c: Creation) {
    c.Fails? || c.SentThenFails?
  }

  // ---- application.created: notify every admin, mark after success ----

  datatype Phase = Fetching | Creating | Marking | Checking | Done(ok: bool)

  // One emit: the attempt it is at, the admins that attempt fetched, the one it is at, and whether one failed.
  datatype Emit = Emit(applicant: UserId, attempt: nat, admins: seq<UserId>, at: nat, failed: bool, phase: Phase)

  /** notified and skipped are history: who has had a notification for which applicant, and for whom one was
      skipped. keys: the dedup keys alive in Redis. */
  datatype Office = Office(notified: set<Pair>, skipped: set<Pair>, keys: set<Pair>, emits: map<EmitId, Emit>)

  datatype Command =
    | Begin(e: EmitId, applicant: UserId)
    | Fetch(e: EmitId, admins: Option<seq<UserId>>)  // None: the query raises
    | Create(e: EmitId, outcome: Creation)
    | Mark(e: EmitId, redisUp: bool)                 // SET NX after a create that returned
    | Check(e: EmitId, redisUp: bool)                // EXISTS after a create that raised
    | Expire(key: Pair)

  predicate At(o: Office, e: EmitId, phase: Phase) {
    e in o.emits && o.emits[e].phase == phase && (phase.Fetching? || o.emits[e].at < |o.emits[e].admins|)
  }

  predicate Legal(o: Office, c: Command) {
    match c
    case Begin(e, _) => e !in o.emits
    case Fetch(e, _) => At(o, e, Fetching)
    case Create(e, _) => At(o, e, Creating)
    case Mark(e, _) => At(o, e, Marking)
    case Check(e, _) => At(o, e, Checking)
    case Expire(_) => true
  }

  // The admin being notified, and for whom.
  function Current(m: Emit): Pair
    requires m.at < |m.admins|
  {
    (m.admins[m.at], m.applicant)
  }

  // The handler has raised.
  function Retried(m: Emit): Emit {
    if m.attempt <= MAX_RETRIES then m.(attempt := m.attempt + 1, phase := Fetching) else m.(phase := Done(false))
  }

  function Fetched(m: Emit, admins: Option<seq<UserId>>): Emit {
    if admins.None? then Retried(m)
    else m.(admins := admins.value, at := 0, failed := false, phase := if admins.value == [] then Done(true) else Creating)
  }

  // On to the next admin; after the last the handler raises if one has failed.
  function Next(m: Emit, bad: bool): Emit {
    var later := m.(at := m.at + 1, failed := m.failed || bad);
    if later.at < |m.admins| then later.(phase := Creating)
    else if later.failed then Retried(later)
    else later.(phase := Done(true))
  }

  // A command that is not legal does nothing.
  function Apply(o: Office, c: Command): Office {
    if !Legal(o, c) then o else
    match c
    case Begin(e, applicant) => o.(emits := o.emits[e := Emit(applicant, 1, [], 0, false, Fetching)])
    case Fetch(e, admins) => o.(emits := o.emits[e := Fetched(o.emits[e], admins)])
    case Create(e, outcome) =>
      var m := o.emits[e];
      Office(if Delivers(outcome) then o.notified + {Current(m)} else o.notified,
             if outcome.Skipped? then o.skipped + {Current(m)} else o.skipped, o.keys,
             o.emits[e := m.(phase := if Raises(outcome) then Checking else Marking)])
    case Mark(e, redisUp) =>
      var m := o.emits[e];
      o.(keys := if redisUp then o.keys + {Current(m)} else o.keys, emits := o.emits[e := Next(m, false)])
    case Check(e, redisUp) =>
      var m := o.emits[e];
      o.(emits := o.emits[e := Next(m, !(redisUp && Current(m) in o.keys))])
    case Expire(p) => o.(keys := o.keys - {p})
  }

  type Run = RunOf<Command>

  const EMPTY: Office := Office({}, {}, {}, map[])

  function Exec(run: Run): Office {
    match run
    case Start => EMPTY
    case Then(before, c) => Apply(Exec(before), c)
  }

  ghost predicate LegalRun(run: Run) {
    run.Then? ==> LegalRun(run.before) && Legal(Exec(run.before), run.cmd)
  }

  /** What the steps of one admin do: creating adds a notification exactly if the row goes in, and remembers a skip
      exactly if the rate limit skipped it; marking sets the key if Redis answers; checking counts the admin as failed
      unless Redis answers and the key is there. */
  lemma StepsInFields(o: Office, e: EmitId, outcome: Creation, redisUp: bool)
    requires e in o.emits && o.emits[e].at < |o.emits[e].admins|
    ensures var m, next := o.emits[e], Apply(o, Create(e, outcome));
      m.phase == Creating ==>
        && (forall p :: p in next.notified <==>
              p in o.notified || (p == (m.admins[m.at], m.applicant) && outcome in {Sent, SentThenFails}))
        && (forall p :: p in next.skipped <==> p in o.skipped || (p == (m.admins[m.at], m.applicant) && outcome == Skipped))
        && next.keys == o.keys && next.emits[e].failed == m.failed
        && next.emits[e].phase == if outcome in {Fails, SentThenFails} then Checking else Marking
    ensures var m, next := o.emits[e], Apply(o, Mark(e, redisUp));
      m.phase == Marking ==>
        && next.keys == (if redisUp then o.keys + {(m.admins[m.at], m.applicant)} else o.keys)
        && next.notified == o.notified && next.skipped == o.skipped && next.emits[e] == Next(m, false)
    ensures var m, next := o.emits[e], Apply(o, Check(e, redisUp));
      m.phase == Checking ==>
        && next.keys == o.keys && next.notified == o.notified && next.skipped == o.skipped
        && next.emits[e] == Next(m, !redisUp || (m.admins[m.at], m.applicant) !in o.keys)
  {
  }

  // A create for the admin returned normally, or put a notification in.
  predicate Served(o: Office, p: Pair) {
    p in o.notified || p in o.skipped
  }

  ghost predicate Progress(o: Office, m: Emit) {
    && m.at <= |m.admins|
    && (m.phase.Marking? ==> m.at < |m.admins| && Served(o, Current(m)))
    && (!m.failed && !m.phase.Fetching? && m.phase != Done(false) ==>
          forall i :: 0 <= i < m.at ==> Served(o, (m.admins[i], m.applicant)))
    && (m.phase == Done(true) ==> !m.failed && m.at == |m.admins|)
  }

  ghost predicate Inv(o: Office) {
    && (forall p <- o.keys :: Served(o, p))
    && forall e <- o.emits :: Progress(o, o.emits[e])
  }

  lemma StepKeepsInv(o: Office, c: Command)
    requires Inv(o) && Legal(o, c)
    ensures Inv(Apply(o, c))
  {
    var next := Apply(o, c);
    assert forall p :: Served(o, p) ==> Served(next, p);
    forall e <- next.emits
      ensures Progress(next, next.emits[e])
    {
      if e in o.emits {
        assert Progress(o, o.emits[e]);
      }
    }
  }

  lemma {:induction false} RunKeepsInv(run: Run)
    requires LegalRun(run)
    ensures Inv(Exec(run))
  {
    if run.Then? {
      RunKeepsInv(run.before);
      StepKeepsInv(Exec(run.before), run.cmd);
    }
  }

  ghost predicate Ended(o: Office, e: EmitId, ok: bool) {
    e in o.emits && o.emits[e].phase == Done(ok)
  }

  ghost predicate AllNotified(o: Office, m: Emit) {
    forall a <- m.admins :: (a, m.applicant) in o.notified
  }

  // For some admin of the successful attempt a notification was skipped, and none was ever created.
  ghost predicate SomeOnlySkipped(o: Office, m: Emit) {
    exists a <- m.admins :: (a, m.applicant) in o.skipped && (a, m.applicant) !in o.notified
  }

  /** However emits overlap and keys expire: when an emit ends ok, each admin its last attempt fetched has had
      a notification for the applicant or was skipped. */
  lemma OkServesAll(run: Run, e: EmitId)
    requires LegalRun(run) && Ended(Exec(run), e, true)
    ensures forall a <- Exec(run).emits[e].admins :: Served(Exec(run), (a, Exec(run).emits[e].applicant))
  {
    RunKeepsInv(run);
    var o := Exec(run);
    var m := o.emits[e];
    assert Progress(o, m);
    forall a <- m.admins
      ensures Served(o, (a, m.applicant))
    {
      var i :| 0 <= i < |m.admins| && m.admins[i] == a;
    }
  }

  /** An emit that ends ok has notified every admin its last attempt fetched, if and only if none of them was
      skipped without ever having had a notification for the applicant. */
  lemma OkNotifiesIff(run: Run, e: EmitId)
    requires LegalRun(run) && Ended(Exec(run), e, true)
    ensures AllNotified(Exec(run), Exec(run).emits[e]) <==> !SomeOnlySkipped(Exec(run), Exec(run).emits[e])
  {
    OkServesAll(run, e);
  }

  /** One admin, past the rate limit: the emit ends ok at its first attempt, the dedup key is set, and there is
      no notification. */
  lemma SkippedCountsAsSent() returns (run: Run)
    ensures LegalRun(run) && Ended(Exec(run), 0, true) && Exec(run).emits[0].admins == [1]
    ensures Exec(run).keys == {(1, 7)} && Exec(run).notified == {}
  {
    var admins: seq<UserId> := [1];
    var r1 := Then(Start, Begin(0, 7));
    var r2 := Then(r1, Fetch(0, Some(admins)));
    var r3 := Then(r2, Create(0, Skipped));
    run := Then(r3, Mark(0, true));
    assert LegalRun(r1) && Exec(r1) == Office({}, {}, {}, map[0 := Emit(7, 1, [], 0, false, Fetching)]);
    assert LegalRun(r2) && Exec(r2) == Office({}, {}, {}, map[0 := Emit(7, 1, admins, 0, false, Creating)]);
    assert LegalRun(r3) && Exec(r3) == Office({}, {(1, 7)}, {}, map[0 := Emit(7, 1, admins, 0, false, Marking)]);
  }

  // ---- The handler ----

  // What one attempt meets: the admins it fetches (None: the query fails), what creating the notification of
  // the j-th does, whether Redis answers for it.
  datatype World = World(admins: Option<seq<UserId>>, creates: nat -> Creation, redisUp: nat -> bool)

  // The query fails, or creating some admin's notification does.
  ghost predicate MayRaise(w: World) {
    w.admins.None? || exists j :: 0 <= j < |w.admins.value| && Raises(w.creates(j))
  }

  // b continues a by steps of other emits and expiring keys.
  ghost predicate OthersOnly(a: Run, b: Run, e: EmitId) {
    a == b || (b.Then? && (b.cmd.Expire? || b.cmd.e != e) && OthersOnly(a, b.before, e))
  }

  lemma {:induction false} OthersLeaveEmit(a: Run, b: Run, e: EmitId)
    requires OthersOnly(a, b, e) && e in Exec(a).emits
    ensures e in Exec(b).emits && Exec(b).emits[e] == Exec(a).emits[e]
    ensures Exec(a).notified <= Exec(b).notified && Exec(a).skipped <= Exec(b).skipped
  {
    if a != b {
      OthersLeaveEmit(a, b.before, e);
    }
  }

  class Notifier {
    var keys: set<Pair>
    ghost var notified: set<Pair>
    ghost var skipped: set<Pair>
    ghost var emits: map<EmitId, Emit>
    ghost var log: Run

    ghost function State(): Office
      reads this
    {
      Office(notified, skipped, keys, emits)
    }

    ghost predicate Valid()
      reads this
    {
      LegalRun(log) && State() == Exec(log)
    }

    constructor ()
      ensures Valid() && log == Start
    {
      keys, notified, skipped, emits, log := {}, {}, {}, map[], Start;
    }

    // Other emits of the event; keys expire after 300 s.
    method Interference(ghost e: EmitId)
      requires Valid()
      modifies this
      ensures Valid() && OthersOnly(old(log), log, e)
    {
    }

    method Await(ghost e: EmitId)
      requires Valid() && e in emits
      modifies this
      ensures Valid() && e in emits && emits[e] == old(emits)[e]
      ensures old(notified) <= notified && old(skipped) <= skipped
    {
      ghost var before := log;
      Interference(e);
      OthersLeaveEmit(before, log, e);
    }

    ghost method Record(c: Command)
      requires LegalRun(log) && Legal(Exec(log), c) && keys == Apply(Exec(log), c).keys
      modifies this`notified, this`skipped, this`emits, this`log
      ensures Valid() && log == Then(old(log), c) && State() == Apply(Exec(old(log)), c)
    {
      var next := Apply(Exec(log), c);
      notified, skipped, emits := next.notified, next.skipped, next.emits;
      log := Then(log, c);
    }

    // create_notification
    method CreateNotification(ghost e: EmitId, outcome: Creation) returns (raised: bool)
      requires Valid() && At(State(), e, Creating)
      modifies this
      ensures Valid() && e in emits && raised == Raises(outcome)
      ensures emits[e] == old(emits)[e].(phase := if raised then Checking else Marking)
      ensures Delivers(outcome) ==> Current(old(emits)[e]) in notified
      ensures outcome.Skipped? ==> Current(old(emits)[e]) in skipped
    {
      Await(e);
      Record(Create(e, outcome));
      raised := Raises(outcome);
    }

    // SET NX of the dedup key, best effort.
    method MarkSent(ghost e: EmitId, pair: Pair, redisUp: bool)
      requires Valid() && At(State(), e, Marking) && Current(emits[e]) == pair
      modifies this
      ensures Valid() && e in emits && emits[e] == Next(old(emits)[e], false)
      ensures notified == old(notified) && skipped == old(skipped) && Served(State(), pair)
      ensures keys == if redisUp then old(keys) + {pair} else old(keys)
    {
      RunKeepsInv(log);
      assert Progress(State(), emits[e]);
      if redisUp {
        keys := keys + {pair};
      }
      Record(Mark(e, redisUp));
    }

    // EXISTS of the dedup key.
    method SentBefore(ghost e: EmitId, pair: Pair, redisUp: bool) returns (known: bool)
      requires Valid() && At(State(), e, Checking) && Current(emits[e]) == pair
      modifies this`notified, this`skipped, this`emits, this`log
      ensures Valid() && e in emits && emits[e] == Next(old(emits)[e], !known)
      ensures notified == old(notified) && skipped == old(skipped) && (known ==> Served(State(), pair))
      ensures known <==> redisUp && pair in keys
    {
      RunKeepsInv(log);
      known := redisUp && pair in keys;
      Record(Check(e, redisUp));
    }

    /** One admin of the loop: failed if nothing is known to have been sent. */
    method NotifyAdmin(ghost e: EmitId, admin: UserId, applicant: UserId, outcome: Creation,
        redisUp: bool) returns (failed: bool)
      requires Valid() && At(State(), e, Creating) && Current(emits[e]) == (admin, applicant)
      modifies this
      ensures Valid() && e in emits && emits[e] == Next(old(emits)[e], failed)
      ensures Delivers(outcome) ==> (admin, applicant) in notified
      ensures outcome.Skipped? ==> (admin, applicant) in skipped && !failed
      ensures !failed ==> Served(State(), (admin, applicant))
      ensures outcome in {Sent, Skipped} ==> !failed && (redisUp ==> (admin, applicant) in keys)
      ensures outcome in {Fails, SentThenFails} ==> (failed <==> !redisUp || (admin, applicant) !in keys)
    {
      hide Exec, LegalRun;
      var raised := CreateNotification(e, outcome);
      Await(e);
      if !raised {
        MarkSent(e, (admin, applicant), redisUp);
        return false;
      }
      var known := SentBefore(e, (admin, applicant), redisUp);
      return !known;
    }

    /** One run of the handler. It raises if the admins cannot be fetched or some admin counts as failed. */
    method OnApplicationCreated(ghost e: EmitId, applicant: UserId, w: World) returns (ok: bool)
      requires Valid() && At(State(), e, Fetching) && emits[e].applicant == applicant
      modifies this
      ensures Valid() && e in emits && emits[e].applicant == applicant
      ensures ok ==> w.admins.Some? && emits[e].admins == w.admins.value && Ended(State(), e, true)
      ensures !ok ==> MayRaise(w)
      ensures !ok && old(emits)[e].attempt <= MAX_RETRIES ==>
        At(State(), e, Fetching) && emits[e].attempt == old(emits)[e].attempt + 1
      ensures !ok && old(emits)[e].attempt > MAX_RETRIES ==> Ended(State(), e, false)
    {
      Await(e);
      Record(Fetch(e, w.admins));
      if w.admins.None? {
        return false;
      }
      var admins := w.admins.value;
      var failed: seq<UserId> := [];
      ghost var attempt := emits[e].attempt;
      for j := 0 to |admins|
        invariant Valid() && e in emits
        invariant j < |admins| ==> emits[e] == Emit(applicant, attempt, admins, j, failed != [], Creating)
        invariant j == |admins| ==>
          emits[e] == if failed == [] then Emit(applicant, attempt, admins, j, false, Done(true))
                      else Retried(Emit(applicant, attempt, admins, j, true, emits[e].phase))
        invariant failed != [] ==> exists i :: 0 <= i < |admins| && Raises(w.creates(i))
      {
        var bad := NotifyAdmin(e, admins[j], applicant, w.creates(j), w.redisUp(j));
        if bad {
          failed := failed + [admins[j]];
        }
      }
      return failed == [];
    }

    ghost method BeginEmit(e: EmitId, applicant: UserId)
      requires Valid() && e !in emits
      modifies this`notified, this`skipped, this`emits, this`log
      ensures Valid() && e in emits && emits[e] == Emit(applicant, 1, [], 0, false, Fetching)
    {
      Record(Begin(e, applicant));
    }

    /** emit("application.created"). If it is ok, every admin that the attempt which succeeded fetched has had a
        notification for the applicant or was skipped, and all have had one if and only if none was only
        skipped; if not, every attempt met a failure. */
    method EmitApplicationCreated(ghost e: EmitId, applicant: UserId, worlds: nat -> World) returns (ok: bool,
        attempt: nat)
      requires Valid() && e !in emits
      modifies this
      ensures Valid() && 1 <= attempt <= MAX_RETRIES + 1 && Ended(State(), e, ok) && emits[e].applicant == applicant
      ensures ok ==> worlds(attempt).admins == Some(emits[e].admins)
      ensures ok ==> forall a <- emits[e].admins :: Served(State(), (a, applicant))
      ensures ok ==> (AllNotified(State(), emits[e]) <==> !SomeOnlySkipped(State(), emits[e]))
      ensures !ok ==> forall k :: 1 <= k <= MAX_RETRIES + 1 ==> MayRaise(worlds(k))
    {
      hide Exec, LegalRun;
      BeginEmit(e, applicant);
      ok, attempt := false, 0;
      while !ok && attempt <= MAX_RETRIES
        invariant Valid() && attempt <= MAX_RETRIES + 1 && e in emits && emits[e].applicant == applicant
        invariant !ok && attempt <= MAX_RETRIES ==> At(State(), e, Fetching) && emits[e].attempt == attempt + 1
        invariant !ok && attempt > MAX_RETRIES ==> Ended(State(), e, false)
        invariant ok ==> attempt >= 1 && Ended(State(), e, true) && worlds(attempt).admins == Some(emits[e].admins)
        invariant !ok ==> forall k :: 1 <= k <= attempt ==> MayRaise(worlds(k))
      {
        attempt := attempt + 1;
        ok := OnApplicationCreated(e, applicant, worlds(attempt));
      }
      if ok {
        OkServesAll(log, e);
        OkNotifiesIff(log, e);
      }
    }
  }

  // ---- post.deleted: mark before sending ----

  // Attempt k: does Redis answer, what does create_notification do?
  datatype Try = Try(redisUp: bool, creates: Creation)

  datatype Result = Result(raised: bool, marked: bool, sent: bool)

  // _check_idempotent, then create_notification; marked says whether the key is set.
  function OnPostDeleted(marked: bool, t: Try): Result {
    if t.redisUp && marked then Result(false, marked, false)
    else Result(Raises(t.creates), marked || t.redisUp, Delivers(t.creates))
  }

  // The attempts from the k-th on, within the lifetime of the key.
  function Retry(tries: nat -> Try, k: nat, marked: bool): Result
    requires 1 <= k <= MAX_RETRIES + 1
    decreases MAX_RETRIES + 1 - k
  {
    var r := OnPostDeleted(marked, tries(k));
    if r.raised && k <= MAX_RETRIES then
      var later := Retry(tries, k + 1, r.marked);
      later.(sent := r.sent || later.sent)
    else r
  }

  // All attempts from the i-th to before the k-th fail with nothing created.
  ghost predicate FailUntil(tries: nat -> Try, i: nat, k: nat) {
    forall j :: i <= j < k ==> tries(j).creates.Fails?
  }

  // Attempt k ends quietly with nothing sent: it is skipped, or takes the mark of an earlier attempt, or the
  // one found at the i-th, for its own.
  ghost predicate QuietAt(tries: nat -> Try, i: nat, marked: bool, k: nat) {
    tries(k).creates.Skipped? || (tries(k).redisUp && (marked || exists j :: i <= j < k && tries(j).redisUp))
  }

  lemma OneLater(tries: nat -> Try, i: nat, marked: bool, k: nat)
    requires i < k && tries(i).creates.Fails?
    ensures FailUntil(tries, i, k) <==> FailUntil(tries, i + 1, k)
    ensures QuietAt(tries, i, marked, k) <==> QuietAt(tries, i + 1, marked || tries(i).redisUp, k)
  {
  }

  lemma {:induction false} RetryLosesIff(tries: nat -> Try, i: nat, marked: bool)
    requires 1 <= i <= MAX_RETRIES + 1
    ensures var r := Retry(tries, i, marked);
      (!r.raised && !r.sent) <==>
      exists k :: i <= k <= MAX_RETRIES + 1 && FailUntil(tries, i, k) && QuietAt(tries, i, marked, k)
    decreases MAX_RETRIES + 1 - i
  {
    var first := OnPostDeleted(marked, tries(i));
    if QuietAt(tries, i, marked, i) {
      assert FailUntil(tries, i, i);
    } else if tries(i).creates.Fails? && i <= MAX_RETRIES {
      var next := i + 1;
      RetryLosesIff(tries, next, first.marked);
      if k :| i <= k <= MAX_RETRIES + 1 && FailUntil(tries, i, k) && QuietAt(tries, i, marked, k) {
        OneLater(tries, i, marked, k);
      }
      if k :| next <= k <= MAX_RETRIES + 1 && FailUntil(tries, next, k) && QuietAt(tries, next, first.marked, k) {
        OneLater(tries, i, marked, k);
      }
    } else {
      assert forall k :: i < k ==> !FailUntil(tries, i, k) || k > MAX_RETRIES + 1;
    }
  }

  /** A first delivery reports success with nothing sent if and only if, after attempts that all failed, one is
      skipped by the rate limit, or one can read Redis after an earlier one has marked the key: the retry takes
      itself for a duplicate. */
  lemma MarkFirstLosesIff(tries: nat -> Try)
    ensures var r := Retry(tries, 1, false);
      (!r.raised && !r.sent) <==> exists k :: 1 <= k <= MAX_RETRIES + 1 && FailUntil(tries, 1, k) && QuietAt(tries, 1, false, k)
  {
    RetryLosesIff(tries, 1, false);
  }

  /** Redis answers and the first send fails: the second attempt ends quietly, and nothing was sent. */
  lemma FailedSendIsLost() returns (tries: nat -> Try)
    ensures tries(1).creates.Fails? && forall k :: k >= 2 ==> tries(k) == Try(true, Sent)
    ensures var r := Retry(tries, 1, false); r.marked && !r.raised && !r.sent
  {
    tries := (k: nat) => Try(true, if k == 1 then Fails else Sent);
    assert tries(1) == Try(true, Fails) && tries(2) == Try(true, Sent);
    assert OnPostDeleted(true, tries(2)) == Result(false, true, false);
    assert Retry(tries, 2, true) == Result(false, true, false);
  }

  /** Redis answers and the target is past the rate limit: the first attempt ends quietly, nothing was sent, and
      no attempt has failed. */
  lemma SkippedSendIsLost() returns (tries: nat -> Try)
    ensures forall k :: tries(k) == Try(true, Skipped)
    ensures var r := Retry(tries, 1, false); r.marked && !r.raised && !r.sent
  {
    tries := (k: nat) => Try(true, Skipped);
    assert OnPostDeleted(false, tries(1)) == Result(false, true, false);
  }
}

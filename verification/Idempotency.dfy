/** The Idempotency-Key middleware (backend/app/middleware/idempotency.py) as a protocol on one Redis
    key, driven by any number of concurrent requests.

    A request reads the key, claims it with SET NX, runs the handler and then overwrites or deletes
    the key. Other requests may act at every `await`. `Command` lists what can change the key, a
    `Run` is any interleaving of them. */
module Idempotency {
  import opened Basics

  type RequestId = nat
  type Bytes = seq<bv8>

  const MARKER_TTL: nat := 30
  const CACHE_TTL: nat := 300
  const MAX_CACHE_SIZE: nat := 524288

  // What a client gets to see of a handler run: status code and body text.
  datatype Answer = Answer(status: int, text: string)

  datatype Value = Processing | Cached(answer: Answer)
  datatype Cell = Cell(value: Value, until: nat)

  // `running` holds the admitted requests not yet finished, with their claim times; `done` is the
  // history of handler runs that produced a response; `bypassing` holds the requests whose read of the
  // key failed and whose handler runs all the same.
  datatype Store = Store(
    now: nat, cell: Option<Cell>, running: map<RequestId, nat>, done: map<RequestId, Answer>, bypassing: set<RequestId>)

  const EMPTY: Store := Store(0, None, map[], map[], {})

  function Live(s: Store): Option<Value> {
    if s.cell.Some? && s.now < s.cell.value.until then Some(s.cell.value.value) else None
  }

  datatype Command =
    | Claim(r: RequestId)                                            // SET NX that succeeded
    | Finish(r: RequestId, answer: Answer, cacheable: bool, written: bool)  // response, then SET or DELETE
    | Crash(r: RequestId)                                            // the handler raised
    | Orphan                                                         // SET NX done, its reply lost: 500, no handler
    | Bypass(r: RequestId)                                           // GET failed: the handler runs anyway
    | EndBypass(r: RequestId)
    | Tick(seconds: nat)

  function Apply(s: Store, c: Command): Store {
    match c
    case Claim(r) => s.(cell := Some(Cell(Processing, s.now + MARKER_TTL)), running := s.running[r := s.now])
    case Finish(r, a, cacheable, written) =>
      s.(running := s.running - {r}, done := s.done[r := a],
         cell := if !written then s.cell
                 else if cacheable then Some(Cell(Cached(a), s.now + CACHE_TTL))
                 else None)
    case Crash(r) => s.(running := s.running - {r})
    case Orphan => s.(cell := Some(Cell(Processing, s.now + MARKER_TTL)))
    case Bypass(r) => s.(bypassing := s.bypassing + {r})
    case EndBypass(r) => s.(bypassing := s.bypassing - {r})
    case Tick(d) => s.(now := s.now + d)
  }

  predicate CacheableStatus(status: int) {
    200 <= status <= 299 || (400 <= status <= 499 && status != 429)
  }

  predicate Legal(s: Store, c: Command) {
    match c
    case Claim(r) => Live(s) == None && r !in s.running && r !in s.done && r !in s.bypassing
    case Finish(r, a, cacheable, _) => r in s.running && (cacheable ==> CacheableStatus(a.status))
    case Crash(r) => r in s.running
    case Orphan => Live(s) == None
    case Bypass(r) => r !in s.running && r !in s.done && r !in s.bypassing
    case EndBypass(r) => r in s.bypassing
    case Tick(_) => true
  }

  type Run = RunOf<Command>

  function Exec(run: Run): Store {
    match run
    case Start => EMPTY
    case Then(before, c) => Apply(Exec(before), c)
  }

  ghost predicate LegalRun(run: Run) {
    match run
    case Start => true
    case Then(before, c) => LegalRun(before) && Legal(Exec(before), c)
  }

  // ---- Replays ----

  // Whatever the key replays was produced by a handler run for this key.
  ghost predicate CacheIsReal(s: Store) {
    s.cell.Some? && s.cell.value.value.Cached? ==>
      exists r :: r in s.done && s.done[r] == s.cell.value.value.answer
  }

  // An identifier is used for one request only.
  predicate Disjoint(s: Store) {
    s.running.Keys !! s.done.Keys
  }

  lemma StepKeepsCacheReal(s: Store, c: Command)
    requires CacheIsReal(s) && Disjoint(s) && Legal(s, c)
    ensures CacheIsReal(Apply(s, c)) && Disjoint(Apply(s, c))
  {
    var t := Apply(s, c);
    if t.cell.Some? && t.cell.value.value.Cached? {
      if c.Finish? && c.written {
        assert t.done[c.r] == t.cell.value.value.answer;
      } else {
        var r :| r in s.done && s.done[r] == s.cell.value.value.answer;
        assert r in t.done && t.done[r] == s.done[r];
      }
    }
  }

  /** In every run, with or without expired markers, a replayed answer is the status and text of a
      handler run for this key. */
  lemma {:induction false} ReplaysAreReal(run: Run)
    requires LegalRun(run)
    ensures CacheIsReal(Exec(run)) && Disjoint(Exec(run))
  {
    if run.Then? {
      ReplaysAreReal(run.before);
      StepKeepsCacheReal(Exec(run.before), run.cmd);
    }
  }

  /** In every run an answer that is stored, and so an answer that is replayed, is a success or a client error
      other than 429: server errors and refusals for too many requests are never replayed. */
  lemma {:induction false} OnlyFinalAnswersStored(run: Run, a: Answer)
    requires LegalRun(run) && Exec(run).cell.Some? && Exec(run).cell.value.value == Cached(a)
    ensures 200 <= a.status < 300 || (400 <= a.status < 500 && a.status != 429)
  {
    if Exec(run.before).cell.Some? && Exec(run.before).cell.value.value == Cached(a) {
      OnlyFinalAnswersStored(run.before, a);
    }
  }

  /** An answer that is written is what the key replays for five minutes, if nobody interferes, and no longer; a
      claim holds the key for thirty seconds. */
  lemma WrittenLastsExactly(s: Store, r: RequestId, a: Answer, seconds: nat)
    ensures Live(Apply(Apply(s, Finish(r, a, true, true)), Tick(seconds))) == if seconds < 300 then Some(Cached(a)) else None
    ensures Live(Apply(Apply(s, Claim(r)), Tick(seconds))) == if seconds < 30 then Some(Processing) else None
  {
  }

  /** Only a claim, a response that is written and a lost claim touch the key: a handler that raises leaves its
      marker, and a bypass changes nothing. */
  lemma OnlyTheseTouchKey(s: Store, c: Command)
    ensures c.Claim? || c.Orphan? ==> Apply(s, c).cell == Some(Cell(Processing, s.now + 30))
    ensures c.Finish? && !c.written ==> Apply(s, c).cell == s.cell
    ensures c.Finish? && c.written ==>
      Apply(s, c).cell == if c.cacheable then Some(Cell(Cached(c.answer), s.now + 300)) else None
    ensures c.Crash? || c.Bypass? || c.EndBypass? || c.Tick? ==> Apply(s, c).cell == s.cell
  {
  }

  // ---- Mutual exclusion ----

  // No processing marker runs out while its request is still in flight.
  ghost predicate MarkersOutlive(run: Run) {
    && (forall r <- Exec(run).running :: Exec(run).now < Exec(run).running[r] + MARKER_TTL)
    && (run.Then? ==> MarkersOutlive(run.before))
  }

  // The one request in flight, if any, holds the live marker it wrote.
  ghost predicate Exclusive(s: Store) {
    s.running == map[] || exists r :: HoldsMarkerAlone(s, r)
  }

  predicate HoldsMarkerAlone(s: Store, r: RequestId) {
    s.running.Keys == {r} && s.cell == Some(Cell(Processing, s.running[r] + MARKER_TTL))
  }

  lemma StepKeepsExclusive(s: Store, c: Command)
    requires Exclusive(s) && Legal(s, c)
    requires forall r <- s.running :: s.now < s.running[r] + MARKER_TTL
    ensures Exclusive(Apply(s, c))
  {
    var t := Apply(s, c);
    if s.running != map[] {
      var r :| HoldsMarkerAlone(s, r);
      assert r in s.running && Live(s) == Some(Processing);
      if c.Tick? || c.Bypass? || c.EndBypass? {
        assert HoldsMarkerAlone(t, r);
      } else {
        assert t.running == map[];
      }
    } else if c.Claim? {
      assert HoldsMarkerAlone(t, c.r);
    }
  }

  lemma {:induction false} InFlightHoldsMarker(run: Run)
    requires LegalRun(run) && MarkersOutlive(run)
    ensures Exclusive(Exec(run))
  {
    if run.Then? {
      InFlightHoldsMarker(run.before);
      StepKeepsExclusive(Exec(run.before), run.cmd);
    }
  }

  // The handlers that run at this moment.
  function InFlight(s: Store): set<RequestId> {
    s.running.Keys + s.bypassing
  }

  ghost predicate OneAtATime(run: Run) {
    |InFlight(Exec(run))| <= 1 && (run.Then? ==> OneAtATime(run.before))
  }

  // A request bypasses the key only when nothing is in flight, and none is admitted while one bypasses it.
  ghost predicate BypassesAlone(run: Run) {
    run.Then? ==>
      && BypassesAlone(run.before)
      && (run.cmd.Bypass? ==> InFlight(Exec(run.before)) == {})
      && (run.cmd.Claim? ==> Exec(run.before).bypassing == {})
  }

  lemma OneMore(s: set<RequestId>, r: RequestId)
    requires r !in s
    ensures |s + {r}| <= 1 <==> s == {}
  {
    assert |s + {r}| == |s| + 1;
  }

  lemma StepInFlight(s: Store, c: Command)
    requires Legal(s, c)
    ensures c.Bypass? ==> c.r !in InFlight(s) && InFlight(Apply(s, c)) == InFlight(s) + {c.r}
    ensures c.Claim? ==> c.r !in InFlight(s) && InFlight(Apply(s, c)) == InFlight(s) + {c.r}
    ensures !c.Bypass? && !c.Claim? ==> InFlight(Apply(s, c)) <= InFlight(s)
  {
  }

  lemma StepKeepsOne(s: Store, c: Command)
    requires Exclusive(s) && Legal(s, c) && |InFlight(s)| <= 1
    requires forall r <- s.running :: s.now < s.running[r] + MARKER_TTL
    ensures |InFlight(Apply(s, c))| <= 1 <==> (c.Bypass? ==> InFlight(s) == {}) && (c.Claim? ==> s.bypassing == {})
  {
    StepInFlight(s, c);
    if c.Bypass? || c.Claim? {
      OneMore(InFlight(s), c.r);
      if c.Claim? {
        NothingHeld(s);
      }
    } else {
      hide *;
      SubsetSize(InFlight(Apply(s, c)), InFlight(s));
    }
  }

  // Without a live value in the key nothing that was admitted is in flight.
  lemma NothingHeld(s: Store)
    requires Exclusive(s) && Live(s) == None
    requires forall r <- s.running :: s.now < s.running[r] + MARKER_TTL
    ensures s.running == map[]
  {
    assert forall r :: HoldsMarkerAlone(s, r) ==> r in s.running;
  }

  /** If no marker expires while its request is in flight, handlers run one at a time, if and only if each
      request whose read fails starts when nothing is in flight and none is admitted until it ends. */
  lemma {:induction false} OneAtATimeIff(run: Run)
    requires LegalRun(run) && MarkersOutlive(run)
    ensures OneAtATime(run) <==> BypassesAlone(run)
  {
    if run.Then? {
      OneAtATimeIff(run.before);
      InFlightHoldsMarker(run.before);
      if OneAtATime(run.before) {
        StepKeepsOne(Exec(run.before), run.cmd);
      }
    } else {
      assert InFlight(EMPTY) == {};
    }
  }

  /** Whatever bypasses the key: of the admitted requests at most one is in flight, and as long as there is
      one no other can be admitted. */
  lemma AtMostOneInFlight(run: Run)
    requires LegalRun(run) && MarkersOutlive(run)
    ensures |Exec(run).running| <= 1
    ensures Exec(run).running != map[] ==> forall r: RequestId :: !Legal(Exec(run), Claim(r))
    ensures BypassesAlone(run) ==> |InFlight(Exec(run))| <= 1
  {
    InFlightHoldsMarker(run);
    OneAtATimeIff(run);
    var s := Exec(run);
    if s.running != map[] {
      var r :| HoldsMarkerAlone(s, r);
      assert r in s.running;
    }
  }

  /** Under the same condition on markers a stored answer stands: until its entry expires the key holds
      exactly that answer, no request is admitted, and the handlers that run are those that bypass it. */
  lemma {:induction false} StoredAnswerStands(a: Run, b: Run)
    requires LegalRun(b) && MarkersOutlive(b) && Within(a, b)
    requires Live(Exec(a)).Some? && Live(Exec(a)).value.Cached?
    requires Exec(b).now < Exec(a).cell.value.until
    ensures Exec(b).cell == Exec(a).cell && InFlight(Exec(b)) == Exec(b).bypassing
    ensures forall r: RequestId :: !Legal(Exec(b), Claim(r))
    ensures Exec(b).running == map[]
  {
    if a == b {
      InFlightHoldsMarker(b);
    } else {
      assert Exec(b.before).now <= Exec(b).now;
      StoredAnswerStands(a, b.before);
    }
  }

  // No handler runs at any moment from a to b.
  ghost predicate QuietSince(a: Run, b: Run) {
    InFlight(Exec(b)) == {} && (a != b && b.Then? ==> QuietSince(a, b.before))
  }

  ghost predicate NoBypassSince(a: Run, b: Run) {
    if a == b then Exec(a).bypassing == {} else b.Then? ==> NoBypassSince(a, b.before) && !b.cmd.Bypass?
  }

  /** While the entry lives no handler runs for the key, if and only if no read of the key fails. */
  lemma {:induction false} StoredAnswerQuietIff(a: Run, b: Run)
    requires LegalRun(b) && MarkersOutlive(b) && Within(a, b)
    requires Live(Exec(a)).Some? && Live(Exec(a)).value.Cached?
    requires Exec(b).now < Exec(a).cell.value.until
    ensures QuietSince(a, b) <==> NoBypassSince(a, b)
  {
    StoredAnswerStands(a, b);
    if a != b {
      assert Exec(b.before).now <= Exec(b).now;
      StoredAnswerQuietIff(a, b.before);
      StoredAnswerStands(a, b.before);
    }
  }

  /** A read that fails lets a second handler run beside the first, no marker having expired, and a handler
      run although an answer is stored. */
  lemma BypassBreaksExclusion() returns (overlap: Run, stored: Run)
    ensures LegalRun(overlap) && MarkersOutlive(overlap) && |InFlight(Exec(overlap))| == 2
    ensures LegalRun(stored) && MarkersOutlive(stored) && Live(Exec(stored)) == Some(Cached(Answer(200, "ok")))
    ensures InFlight(Exec(stored)) == {2}
  {
    assert Exec(Start) == EMPTY;
    var first := Then(Start, Claim(1));
    assert Exec(first) == Store(0, Some(Cell(Processing, MARKER_TTL)), map[1 := 0], map[], {});
    assert LegalRun(first) && MarkersOutlive(first);
    overlap := Then(first, Bypass(2));
    assert InFlight(Exec(overlap)) == {1, 2};
    stored := AnswerThenBypass(first);
  }

  lemma AnswerThenBypass(first: Run) returns (stored: Run)
    requires Exec(first) == Store(0, Some(Cell(Processing, MARKER_TTL)), map[1 := 0], map[], {})
    requires LegalRun(first) && MarkersOutlive(first)
    ensures LegalRun(stored) && MarkersOutlive(stored) && Live(Exec(stored)) == Some(Cached(Answer(200, "ok")))
    ensures InFlight(Exec(stored)) == {2}
  {
    var done := Then(first, Finish(1, Answer(200, "ok"), true, true));
    assert Exec(done).running == map[] && LegalRun(done) && MarkersOutlive(done);
    stored := Then(done, Bypass(2));
    assert Exec(stored).running == map[] && Exec(stored).bypassing == {2};
  }

  // Every request is in flight for at most `limit` seconds.
  ghost predicate Timely(run: Run, limit: nat) {
    && (forall r <- Exec(run).running :: Exec(run).now - Exec(run).running[r] <= limit)
    && (run.Then? ==> Timely(run.before, limit))
  }

  lemma {:induction false} TimelyMarkersOutlive(run: Run, limit: nat)
    requires Timely(run, limit) && limit < MARKER_TTL
    ensures MarkersOutlive(run)
  {
    if run.Then? {
      TimelyMarkersOutlive(run.before, limit);
    }
  }

  /** The time to live of the marker is exact: requests bounded by `limit` seconds exclude each other in
      all runs without overlapping bypasses, if and only if `limit` is below 30. */
  lemma MarkerTtlIsExact(limit: nat)
    ensures (forall run: Run :: LegalRun(run) && Timely(run, limit) && BypassesAlone(run) ==> |InFlight(Exec(run))| <= 1)
      <==> limit < MARKER_TTL
  {
    if limit < MARKER_TTL {
      forall run: Run | LegalRun(run) && Timely(run, limit) && BypassesAlone(run)
        ensures |InFlight(Exec(run))| <= 1
      {
        TimelyMarkersOutlive(run, limit);
        AtMostOneInFlight(run);
      }
    } else {
      var _, overlap, _ := SlowHandlerBreaksExclusion(limit);
      assert |InFlight(Exec(overlap))| > 1;
    }
  }

  predicate Keyed(run: Run) {
    run.Then? ==> Keyed(run.before) && !run.cmd.Bypass?
  }

  lemma {:induction false} KeyedNeverBypasses(run: Run)
    requires Keyed(run)
    ensures Exec(run).bypassing == {} && BypassesAlone(run)
  {
    if run.Then? {
      KeyedNeverBypasses(run.before);
    }
  }

  /** A request in flight for 30 seconds: another one is admitted beside it, and when the slow one
      then ends without a cacheable response it erases the answer the other one stored. */
  lemma SlowHandlerBreaksExclusion(limit: nat) returns (first: Run, overlap: Run, erased: Run)
    requires limit >= MARKER_TTL
    ensures LegalRun(erased) && Timely(erased, limit) && Within(overlap, erased)
    ensures LegalRun(overlap) && Timely(overlap, limit) && BypassesAlone(overlap) && |InFlight(Exec(overlap))| == 2
    ensures Live(Exec(erased.before)).Some? && Live(Exec(erased.before)).value.Cached? && Exec(erased).cell == None
  {
    first, overlap := SlowOverlap(limit);
    erased := EraseAnswer(overlap, limit);
    assert InFlight(Exec(overlap)) == {1, 2};
    KeyedNeverBypasses(overlap);
  }

  // Request 1 claims the key, its marker runs out, request 2 claims the key.
  lemma SlowOverlap(limit: nat) returns (first: Run, overlap: Run)
    requires limit >= MARKER_TTL
    ensures LegalRun(overlap) && Timely(overlap, limit) && Keyed(overlap)
    ensures Exec(overlap) == Store(MARKER_TTL, Some(Cell(Processing, 2 * MARKER_TTL)), map[1 := 0, 2 := MARKER_TTL], map[], {})
  {
    first := Then(Start, Claim(1));
    assert Exec(Start) == EMPTY;
    assert Exec(first) == Store(0, Some(Cell(Processing, MARKER_TTL)), map[1 := 0], map[], {});
    var late := Then(first, Tick(MARKER_TTL));
    assert Exec(late) == Exec(first).(now := MARKER_TTL) && LegalRun(late) && Timely(late, limit);
    overlap := Then(late, Claim(2));
  }

  // Request 2 stores its answer, request 1 ends with an error.
  lemma EraseAnswer(overlap: Run, limit: nat) returns (erased: Run)
    requires limit >= MARKER_TTL && LegalRun(overlap) && Timely(overlap, limit)
    requires Exec(overlap) == Store(MARKER_TTL, Some(Cell(Processing, 2 * MARKER_TTL)), map[1 := 0, 2 := MARKER_TTL], map[], {})
    ensures LegalRun(erased) && Timely(erased, limit) && Within(overlap, erased) && erased.Then?
    ensures Live(Exec(erased.before)).Some? && Live(Exec(erased.before)).value.Cached? && Exec(erased).cell == None
  {
    var stored := Then(overlap, Finish(2, Answer(200, "ok"), true, true));
    assert Exec(stored).running == map[1 := 0] && LegalRun(stored) && Timely(stored, limit);
    erased := Then(stored, Finish(1, Answer(500, ""), false, true));
    assert Within(stored, erased) && Within(overlap, stored);
  }

  // ---- Keys of different users ----

  predicate KeyChar(c: char) {
    'a' <= c <= 'z' || 'A' <= c <= 'Z' || '0' <= c <= '9' || c == '-'
  }

  // ^[a-zA-Z0-9\-]{1,256}$ as Python matches it: `$` also accepts one final newline.
  predicate ValidKey(k: string) {
    var body := if k != "" && k[|k| - 1] == '\n' then k[..|k| - 1] else k;
    1 <= |body| <= 256 && forall c <- body :: KeyChar(c)
  }

  function RedisKey(user: string, key: string): string {
    "idempotency:" + user + ":" + key
  }

  /** No two users share a Redis key, whatever their identifiers contain: an accepted
      Idempotency-Key has no colon. */
  lemma UsersNeverShareAKey(user: string, key: string, user': string, key': string)
    requires ValidKey(key) && ValidKey(key') && RedisKey(user, key) == RedisKey(user', key')
    ensures user == user' && key == key'
  {
    var full := RedisKey(user, key);
    LastColon(user, key, user', key');
    LastColon(user', key', user, key);
    assert user == full[12..12 + |user|] && user' == full[12..12 + |user'|];
    assert key == full[13 + |user|..] && key' == full[13 + |user'|..];
  }

  lemma LastColon(user: string, key: string, user': string, key': string)
    requires ValidKey(key) && RedisKey(user, key) == RedisKey(user', key')
    ensures |user'| <= |user|
  {
    assert |"idempotency:"| == 12;
    if |user| < |user'| {
      assert RedisKey(user', key')[12 + |user'|] == ':';
      assert RedisKey(user, key)[12 + |user'|] == key[|user'| - |user| - 1];
      ColonFree(key);
      assert false;
    }
  }

  lemma ColonFree(k: string)
    requires ValidKey(k)
    ensures forall i :: 0 <= i < |k| ==> k[i] != ':'
  {
    var body := if k[|k| - 1] == '\n' then k[..|k| - 1] else k;
    forall i | 0 <= i < |k|
      ensures k[i] != ':'
    {
      if i < |body| {
        assert k[i] == body[i] && body[i] in body;
        assert KeyChar(k[i]);
      }
    }
  }

  // ---- The middleware ----

  datatype Response = Response(status: int, json: bool, chunks: seq<Bytes>)

  datatype Reply =
    | Conflict                              // 409, duplicate still processing
    | Replay(answer: Answer)                // served from the cache
    | Own(status: int, chunks: seq<Bytes>)  // the response of this request's own handler
    | Failed                                // the handler raised

  // The reply to SET NX arrives, or is lost with or without the command carried out.
  datatype ClaimReply = Heard | Lost(applied: bool)

  function Join(chunks: seq<Bytes>): Bytes {
    if chunks == [] then [] else Join(chunks[..|chunks| - 1]) + chunks[|chunks| - 1]
  }

  // Reads the body to the end, keeping the chunks in order and their total size.
  method ReadBody(chunks: seq<Bytes>) returns (body: Bytes, size: nat)
    ensures body == Join(chunks) && size == |body|
  {
    body, size := [], 0;
    for n := 0 to |chunks|
      invariant body == Join(chunks[..n]) && size == |body|
    {
      assert chunks[..n + 1][..n] == chunks[..n];
      size := size + |chunks[n]|;
      body := body + chunks[n];
    }
    assert chunks[..|chunks|] == chunks;
  }

  // A JSON response of a cacheable status and of at most 512 KB is stored, any other clears the key.
  function Outcome(r: RequestId, h: Response, decode: Bytes -> string, written: bool): Command {
    var body := Join(h.chunks);
    Finish(r, Answer(h.status, decode(body)), h.json && CacheableStatus(h.status) && |body| <= MAX_CACHE_SIZE, written)
  }

  /** What the request does to the key itself: nothing for a replay or a conflict; a claim, then the end of the
      handler. A lost claim may still have been carried out, and a failed read leads around the key. */
  predicate OwnSteps(r: RequestId, reply: Reply, getUp: bool, claim: ClaimReply, steps: seq<Command>) {
    if !getUp then steps == [Bypass(r), EndBypass(r)]
    else match reply
      case Conflict => steps == []
      case Replay(_) => steps == []
      case Own(_, _) => |steps| == 2 && steps[0] == Claim(r) && steps[1].Finish? && steps[1].r == r
      case Failed => steps == if claim.Heard? then [Claim(r), Crash(r)] else if steps == [] then [] else [Orphan]
  }

  /** The key right after a response: a JSON body of at most 512 KB with a 2xx status, or a 4xx status other than
      429, is stored for five minutes; any other response clears the key; nothing changes if Redis is down. */
  predicate KeyAfter(h: Response, text: string, redisUp: bool, before: Store, after: Store) {
    var final := 200 <= h.status < 300 || (400 <= h.status < 500 && h.status != 429);
    after.cell ==
      if !redisUp then before.cell
      else if h.json && final && |Join(h.chunks)| <= 524288 then Some(Cell(Cached(Answer(h.status, text)), after.now + 300))
      else None
  }

  class Middleware {
    var now: nat
    var cell: Option<Cell>
    ghost var running: map<RequestId, nat>
    ghost var done: map<RequestId, Answer>
    ghost var bypassing: set<RequestId>
    ghost var log: Run
    ghost var own: seq<Command>  // sent by the methods of this object

    ghost function State(): Store
      reads this
    {
      Store(now, cell, running, done, bypassing)
    }

    ghost predicate Valid()
      reads this
    {
      LegalRun(log) && State() == Exec(log)
    }

    constructor ()
      ensures Valid() && log == Start
    {
      now, cell := 0, None;
      running, done, bypassing, log, own := map[], map[], {}, Start, [];
    }

    // Other requests run here; they never act for request r.
    method Interference(ghost r: RequestId)
      requires Valid()
      modifies this
      ensures Valid() && Within(old(log), log)
      ensures (r in running <==> r in old(running)) && (r in done <==> r in old(done))
      ensures (r in bypassing <==> r in old(bypassing)) && own == old(own)
    {
    }

    method GetCell() returns (v: Option<Value>)
      ensures v == Live(State())
    {
      v := if cell.Some? && now < cell.value.until then Some(cell.value.value) else None;
    }

    method SetNx(ghost r: RequestId) returns (acquired: bool)
      requires Valid() && r !in running && r !in done && r !in bypassing
      modifies this
      ensures Valid() && acquired == (Live(old(State())) == None)
      ensures log == if acquired then Then(old(log), Claim(r)) else old(log)
      ensures own == if acquired then old(own) + [Claim(r)] else old(own)
      ensures acquired ==> r in running
      ensures !acquired ==> State() == old(State())
    {
      acquired := !(cell.Some? && now < cell.value.until);
      if acquired {
        cell := Some(Cell(Processing, now + MARKER_TTL));
        running := running[r := now];
        log, own := Then(log, Claim(r)), own + [Claim(r)];
      }
    }

    method Settle(ghost r: RequestId, answer: Answer, cacheable: bool, redisUp: bool)
      requires Valid() && r in running && (cacheable ==> CacheableStatus(answer.status))
      modifies this
      ensures Valid() && log == Then(old(log), Finish(r, answer, cacheable, redisUp))
      ensures own == old(own) + [Finish(r, answer, cacheable, redisUp)]
      ensures cell == if !redisUp then old(cell) else if cacheable then Some(Cell(Cached(answer), now + CACHE_TTL)) else None
    {
      if redisUp {
        cell := if cacheable then Some(Cell(Cached(answer), now + CACHE_TTL)) else None;
      }
      running, done := running - {r}, done[r := answer];
      log := Then(log, Finish(r, answer, cacheable, redisUp));
      own := own + [Finish(r, answer, cacheable, redisUp)];
    }

    // The handler without the key: the read failed.
    method RunUnkeyed(ghost r: RequestId, handler: Option<Response>) returns (reply: Reply)
      requires Valid() && r !in running && r !in done && r !in bypassing
      modifies this
      ensures Valid() && log.Then? && log.cmd == EndBypass(r) && Within(Then(old(log), Bypass(r)), log.before)
      ensures reply == match handler case Some(h) => Own(h.status, h.chunks) case None => Failed
      ensures own == old(own) + [Bypass(r), EndBypass(r)]
    {
      bypassing := bypassing + {r};
      log, own := Then(log, Bypass(r)), own + [Bypass(r)];
      Interference(r);
      bypassing := bypassing - {r};
      log, own := Then(log, EndBypass(r)), own + [EndBypass(r)];
      reply := match handler case Some(h) => Own(h.status, h.chunks) case None => Failed;
    }

    // SET NX whose reply is lost: it may have been carried out, and the request fails either way.
    method LoseSetNx(applied: bool)
      requires Valid()
      modifies this
      ensures Valid() && (log == old(log) || log == Then(old(log), Orphan))
      ensures own == if applied && Live(old(State())) == None then old(own) + [Orphan] else old(own)
    {
      if applied && !(cell.Some? && now < cell.value.until) {
        cell := Some(Cell(Processing, now + MARKER_TTL));
        log, own := Then(log, Orphan), own + [Orphan];
      }
    }

    /** One request on this key. `handler` is what the wrapped handler does when it is run (None: it
        raises), `getUp` and `writeUp` whether Redis answers the first read and the last write, `claim`
        what becomes of the SET NX, `decode` the conversion of a body to text.

        The reply is a conflict, a replay of a finished run for this key, or the response of the
        request's own handler, whose outcome the log then records. */
    method Dispatch(ghost r: RequestId, handler: Option<Response>, getUp: bool, claim: ClaimReply, writeUp: bool,
        decode: Bytes -> string)
      returns (reply: Reply)
      requires Valid() && r !in running && r !in done && r !in bypassing
      modifies this
      ensures Valid() && Within(old(log), log)
      ensures reply.Replay? ==> exists q :: q in done && done[q] == reply.answer
      ensures reply.Conflict? ==> r !in running && r !in done
      ensures forall a: Answer :: reply == Replay(a) <==> getUp && Live(old(State())) == Some(Cached(a))
      ensures getUp && Live(old(State())) == Some(Processing) ==> reply.Conflict?
      ensures reply.Conflict? ==>
        Live(old(State())) == Some(Processing) || (Live(old(State())) == None && Live(State()).Some?)
      ensures reply.Own? ==>
        handler.Some? && reply.status == handler.value.status && Join(reply.chunks) == Join(handler.value.chunks)
      ensures reply.Failed? ==> handler == None || claim.Lost?
      ensures reply.Own? && getUp ==> claim.Heard? && log.Then? && log.cmd == Outcome(r, handler.value, decode, writeUp)
      ensures reply.Failed? && getUp && claim.Heard? ==> log.Then? && log.cmd == Crash(r)
      ensures !getUp ==> log.Then? && log.cmd == EndBypass(r) && !reply.Replay? && !reply.Conflict?
      ensures old(own) <= own && OwnSteps(r, reply, getUp, claim, own[|old(own)|..])
      ensures reply.Failed? && getUp && claim.Heard? ==> cell == Exec(log.before).cell
      ensures reply.Own? && getUp ==>
        KeyAfter(handler.value, decode(Join(handler.value.chunks)), writeUp, Exec(log.before), State())
    {
      hide KeyAfter, Outcome;
      ghost var start := log;
      if !getUp {
        reply := RunUnkeyed(r, handler);
        WithinTransitive(start, Then(start, Bypass(r)), log);
        return;
      }
      var cached := GetCell();
      if cached.Some? {
        if cached.value.Processing? {
          return Conflict;
        }
        ReplaysAreReal(log);
        return Replay(cached.value.answer);
      }
      Interference(r);
      ghost var miss := log;
      if claim.Lost? {
        LoseSetNx(claim.applied);
        WithinTransitive(start, miss, log);
        return Failed;
      }
      var acquired := SetNx(r);
      WithinTransitive(start, miss, log);
      if !acquired {
        return Conflict;
      }
      reply := RunClaimed(r, handler, writeUp, decode, start);
    }

    // The handler under the claim, and what becomes of the key.
    method RunClaimed(ghost r: RequestId, handler: Option<Response>, writeUp: bool, decode: Bytes -> string,
        ghost start: Run) returns (reply: Reply)
      requires Valid() && r in running && Within(start, log)
      modifies this
      ensures Valid() && Within(start, log) && log.Then?
      ensures |own| == |old(own)| + 1 && own[..|old(own)|] == old(own)
      ensures match handler
        case None => reply.Failed? && log.cmd == Crash(r) && own[|old(own)|] == Crash(r) && cell == Exec(log.before).cell
        case Some(h) =>
          && reply.Own? && reply.status == h.status && Join(reply.chunks) == Join(h.chunks)
          && log.cmd == Outcome(r, h, decode, writeUp) && own[|old(own)|].Finish? && own[|old(own)|].r == r
          && KeyAfter(h, decode(Join(h.chunks)), writeUp, Exec(log.before), State())
    {
      ghost var claimed := log;
      Interference(r);
      WithinTransitive(start, claimed, log);
      match handler
      case None =>
        running := running - {r};
        log, own := Then(log, Crash(r)), own + [Crash(r)];
        return Failed;
      case Some(h) => reply := Answered(r, h, writeUp, decode, start);
    }

    // The handler has answered: read a JSON body, store or clear, pass the response on.
    method Answered(ghost r: RequestId, h: Response, writeUp: bool, decode: Bytes -> string,
        ghost start: Run) returns (reply: Reply)
      requires Valid() && r in running && Within(start, log)
      modifies this
      ensures Valid() && Within(start, log) && log.Then? && log.cmd == Outcome(r, h, decode, writeUp)
      ensures |own| == |old(own)| + 1 && own[..|old(own)|] == old(own) && own[|old(own)|].Finish? && own[|old(own)|].r == r
      ensures KeyAfter(h, decode(Join(h.chunks)), writeUp, Exec(log.before), State())
      ensures reply.Own? && reply.status == h.status && Join(reply.chunks) == Join(h.chunks)
    {
      var body, size := ReadBody(h.chunks);
      ghost var handled := log;
      Interference(r);
      WithinTransitive(start, handled, log);
      var answer := Answer(h.status, decode(body));
      if h.json {
        Settle(r, answer, CacheableStatus(h.status) && size <= MAX_CACHE_SIZE, writeUp);
        assert Join([body]) == Join([]) + body;
        reply := Own(h.status, [body]);
      } else {
        Settle(r, answer, false, writeUp);
        reply := Own(h.status, h.chunks);
      }
    }
  }
}

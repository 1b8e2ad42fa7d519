/** Citation syncs that overlap (backend/app/services/citation.py, sync_post_citations).

    A sync is one transaction of several statements under READ COMMITTED: it deletes and inserts the
    rows of its post, then counts the citers of each affected post and writes the count. A statement
    sees committed rows and the transaction's own; UPDATE locks the post's row until the end. */
module CitationRuns {
  import opened Basics
  import opened Citations

  type TxId = nat

  // counted: the counts taken so far. written: those put into the posts table.
  datatype Tx = Tx(
    post: PostId, gone: set<PostId>, added: set<PostId>, author: UserId, affected: set<PostId>,
    counted: map<PostId, nat>, written: set<PostId>)

  // db is what is committed.
  datatype Store = Store(db: Db, txs: map<TxId, Tx>)

  datatype Command =
    | Write(tx: TxId, post: PostId, wanted: set<PostId>, seen: set<PostId>, author: UserId)  // diff, DELETE, INSERT
    | Count(tx: TxId, p: PostId)    // SELECT COUNT(*)
    | Put(tx: TxId, p: PostId)      // UPDATE posts SET citation_count
    | Commit(tx: TxId)
    | Rollback(tx: TxId)

  // What a statement of the transaction sees of the citations.
  function View(db: Db, t: Tx): Db {
    Inserted(Removed(db, t.post, t.gone), t.post, t.added, t.author)
  }

  function WithCounts(db: Db, counted: map<PostId, nat>): Db {
    db.(posts := map p <- db.posts :: if p in counted then db.posts[p].(citationCount := counted[p]) else db.posts[p])
  }

  // Rows another transaction has written and not committed make this one wait.
  predicate NoRowClash(t: Tx, o: Tx) {
    t.post == o.post ==> t.added !! o.added && t.gone !! o.gone
  }

  function Started(db: Db, c: Command): Tx
    requires c.Write?
  {
    Tx(c.post, c.seen - c.wanted, Insertable(db, c.wanted, c.seen), c.author,
       (c.wanted - c.seen) + (c.seen - c.wanted), map[], {})
  }

  predicate Legal(s: Store, c: Command) {
    match c
    case Write(tx, post, wanted, seen, _) =>
      && tx !in s.txs && post in s.db.posts && seen <= Cited(s.db, post) && !Violates(s.db, post, wanted, seen)
      && forall o <- s.txs :: NoRowClash(Started(s.db, c), s.txs[o])
    case Count(tx, p) => tx in s.txs && p in s.txs[tx].affected && p !in s.txs[tx].written
    case Put(tx, p) => tx in s.txs && p in s.txs[tx].counted && forall o <- s.txs :: o != tx ==> p !in s.txs[o].written
    case Commit(tx) => tx in s.txs && s.txs[tx].affected <= s.txs[tx].written
    case Rollback(tx) => tx in s.txs
  }

  // A command that is not legal does nothing.
  function Apply(s: Store, c: Command): Store {
    if !Legal(s, c) then s else
    match c
    case Write(tx, _, _, _, _) => s.(txs := s.txs[tx := Started(s.db, c)])
    case Count(tx, p) =>
      var t := s.txs[tx];
      s.(txs := s.txs[tx := t.(counted := t.counted[p := |Citers(View(s.db, t), p)|])])
    case Put(tx, p) => s.(txs := s.txs[tx := s.txs[tx].(written := s.txs[tx].written + {p})])
    case Commit(tx) => Store(WithCounts(View(s.db, s.txs[tx]), s.txs[tx].counted), s.txs - {tx})
    case Rollback(tx) => s.(txs := s.txs - {tx})
  }

  type Run = RunOf<Command>

  function Exec(db0: Db, run: Run): Store {
    match run
    case Start => Store(db0, map[])
    case Then(before, c) => Apply(Exec(db0, before), c)
  }

  predicate LegalRun(db0: Db, run: Run) {
    run.Then? ==> LegalRun(db0, run.before) && Legal(Exec(db0, run.before), run.cmd)
  }

  // ---- What a commit does to the citers of a post ----

  // The change a transaction makes to the number of live citers of p.
  function Delta(db: Db, t: Tx, p: PostId): int {
    if !Live(db, t.post) then 0 else if p in t.added then 1 else if p in t.gone then -1 else 0
  }

  // The rows of a transaction fit the committed table.
  ghost predicate Fits(db: Db, t: Tx) {
    && t.post in db.posts && t.gone <= Cited(db, t.post) && t.added !! Cited(db, t.post)
    && t.gone + t.added <= t.affected && t.counted.Keys <= t.affected && t.written <= t.counted.Keys
  }

  ghost predicate AllFit(s: Store) {
    && (forall x <- s.txs :: Fits(s.db, s.txs[x]))
    && (forall x <- s.txs, y <- s.txs :: x != y ==> NoRowClash(s.txs[x], s.txs[y]))
  }

  lemma ViewCiters(db: Db, t: Tx, p: PostId)
    requires Fits(db, t)
    ensures |Citers(View(db, t), p)| == |Citers(db, p)| + Delta(db, t, p)
  {
    InCited(db, t.post, p);
    ViewCitersAre(db, t, p);
    var before := Citers(db, p);
    if p in t.added {
      assert t.post !in before;
    } else if p in t.gone && Live(db, t.post) {
      assert t.post in before && |before - {t.post}| == |before| - 1;
    }
  }

  lemma ViewCitersAre(db: Db, t: Tx, p: PostId)
    requires t.post in db.posts
    ensures Citers(View(db, t), p) == if !Live(db, t.post) then Citers(db, p)
      else if p in t.added then Citers(db, p) + {t.post} else if p in t.gone then Citers(db, p) - {t.post} else Citers(db, p)
  {
  }

  lemma ViewCited(db: Db, t: Tx, post: PostId, p: PostId)
    ensures p in Cited(View(db, t), post) <==>
      if post == t.post then p in t.added || (p in Cited(db, post) && p !in t.gone) else p in Cited(db, post)
  {
    InCited(View(db, t), post, p);
    InCited(db, post, p);
  }

  // A commit leaves the rows of the others fitting, and what they see changes by the committed difference.
  lemma CommitFits(db: Db, t: Tx, o: Tx)
    requires Fits(db, t) && Fits(db, o) && NoRowClash(t, o)
    ensures Fits(View(db, t), o)
  {
    forall p {
      ViewCited(db, t, o.post, p);
    }
    assert forall p <- o.gone :: p in Cited(View(db, t), o.post) by {
      forall p <- o.gone ensures p in Cited(View(db, t), o.post) {
        ViewCited(db, t, o.post, p);
      }
    }
    forall p <- o.added
      ensures p !in Cited(View(db, t), o.post)
    {
      ViewCited(db, t, o.post, p);
    }
  }

  lemma CommitShifts(db: Db, t: Tx, o: Tx, p: PostId)
    requires Fits(db, t) && Fits(db, o) && NoRowClash(t, o)
    ensures |Citers(View(View(db, t), o), p)| == |Citers(View(db, o), p)| + Delta(db, t, p)
  {
    CommitFits(db, t, o);
    ViewCiters(View(db, t), o, p);
    ViewCiters(db, t, p);
    ViewCiters(db, o, p);
  }

  // Counts play no part in who cites whom.
  lemma CountsAside(db: Db, counted: map<PostId, nat>, t: Tx, p: PostId)
    ensures Citers(WithCounts(db, counted), p) == Citers(db, p)
    ensures Citers(View(WithCounts(db, counted), t), p) == Citers(View(db, t), p)
    ensures Fits(WithCounts(db, counted), t) <==> Fits(db, t)
  {
  }

  lemma StepKeepsFit(s: Store, c: Command)
    requires AllFit(s)
    ensures AllFit(Apply(s, c))
  {
    if Legal(s, c) && c.Commit? {
      var t := s.txs[c.tx];
      forall x <- s.txs | x != c.tx
        ensures Fits(Apply(s, c).db, s.txs[x])
      {
        CommitFits(s.db, t, s.txs[x]);
        CountsAside(View(s.db, t), t.counted, s.txs[x], 0);
      }
    }
  }

  lemma {:induction false} RunKeepsFit(db0: Db, run: Run)
    ensures AllFit(Exec(db0, run))
  {
    if run.Then? {
      RunKeepsFit(db0, run.before);
      StepKeepsFit(Exec(db0, run.before), run.cmd);
    }
  }

  // ---- What a count misses ----

  // The net change that commits of others made to p's citers since tx counted them.
  function Missed(db0: Db, run: Run, tx: TxId, p: PostId): int {
    match run
    case Start => 0
    case Then(before, c) =>
      var s := Exec(db0, before);
      if !Legal(s, c) then Missed(db0, before, tx, p)
      else if c == Count(tx, p) then 0
      else if c.Commit? && c.tx != tx then Missed(db0, before, tx, p) + Delta(s.db, s.txs[c.tx], p)
      else Missed(db0, before, tx, p)
  }

  // What the transaction that last wrote p's count had missed when it committed.
  function Stale(db0: Db, run: Run, p: PostId): int {
    match run
    case Start => 0
    case Then(before, c) =>
      var s := Exec(db0, before);
      if Legal(s, c) && c.Commit? && p in s.txs[c.tx].written then Missed(db0, before, c.tx, p)
      else Stale(db0, before, p)
  }

  ghost predicate Tracked(db0: Db, run: Run, tx: TxId, p: PostId) {
    var s := Exec(db0, run);
    tx in s.txs && p in s.txs[tx].counted ==>
      s.txs[tx].counted[p] + Missed(db0, run, tx, p) == |Citers(View(s.db, s.txs[tx]), p)|
  }

  lemma CommitTracked(db0: Db, run: Run, done: TxId, tx: TxId, p: PostId)
    requires Tracked(db0, run, tx, p) && AllFit(Exec(db0, run)) && Legal(Exec(db0, run), Commit(done))
    ensures Tracked(db0, Then(run, Commit(done)), tx, p)
  {
    var s := Exec(db0, run);
    if tx in s.txs && tx != done {
      CommitShifts(s.db, s.txs[done], s.txs[tx], p);
      CountsAside(View(s.db, s.txs[done]), s.txs[done].counted, s.txs[tx], p);
    }
  }

  lemma {:induction false} CountsTracked(db0: Db, run: Run, tx: TxId, p: PostId)
    ensures Tracked(db0, run, tx, p)
  {
    if run.Then? {
      CountsTracked(db0, run.before, tx, p);
      RunKeepsFit(db0, run.before);
      var s, c := Exec(db0, run.before), run.cmd;
      if Legal(s, c) && c.Commit? {
        CommitTracked(db0, run.before, c.tx, tx, p);
      } else {
        OtherTracked(db0, run.before, c, tx, p);
      }
    }
  }

  // Short of a commit nothing changes in what a transaction sees, and only its own count changes a count.
  lemma StepKeepsView(s: Store, c: Command, tx: TxId, p: PostId)
    requires !(Legal(s, c) && c.Commit?) && tx in s.txs && tx in Apply(s, c).txs
    ensures var next := Apply(s, c);
      && next.db == s.db && View(s.db, next.txs[tx]) == View(s.db, s.txs[tx])
      && (p in next.txs[tx].counted && !(Legal(s, c) && c == Count(tx, p)) ==>
            p in s.txs[tx].counted && next.txs[tx].counted[p] == s.txs[tx].counted[p])
      && (Legal(s, c) && c == Count(tx, p) ==> next.txs[tx].counted[p] == |Citers(View(s.db, s.txs[tx]), p)|)
  {
    hide Violates, Insertable, Cited, Citers, Inserted, Removed;
  }

  lemma OtherTracked(db0: Db, run: Run, c: Command, tx: TxId, p: PostId)
    requires Tracked(db0, run, tx, p) && !(Legal(Exec(db0, run), c) && c.Commit?)
    ensures Tracked(db0, Then(run, c), tx, p)
  {
    hide Legal, Apply, View, Citers;
    var s := Exec(db0, run);
    if tx in Apply(s, c).txs {
      AppearsUncounted(s, c, tx);
      if tx in s.txs {
        StepKeepsView(s, c, tx, p);
      }
    }
  }

  // A transaction that appears has counted nothing.
  lemma AppearsUncounted(s: Store, c: Command, tx: TxId)
    ensures tx !in s.txs && tx in Apply(s, c).txs ==> Apply(s, c).txs[tx].counted == map[]
  {
    hide Violates, Insertable, Cited, Citers, Inserted, Removed;
  }

  // The committed count is off by what its last writer missed.
  ghost predicate OffByStale(db0: Db, run: Run, p: PostId) {
    var db := Exec(db0, run).db;
    p in db.posts ==> db.posts[p].citationCount + Stale(db0, run, p) == |Citers(db, p)|
  }

  lemma CommitOffByStale(db0: Db, run: Run, tx: TxId, p: PostId)
    requires OffByStale(db0, run, p) && AllFit(Exec(db0, run)) && Tracked(db0, run, tx, p)
    requires Legal(Exec(db0, run), Commit(tx))
    ensures OffByStale(db0, Then(run, Commit(tx)), p)
  {
    var s := Exec(db0, run);
    var t := s.txs[tx];
    CountsAside(View(s.db, t), t.counted, t, p);
    ViewCiters(s.db, t, p);
  }

  lemma {:induction false} CountsOffByStale(db0: Db, run: Run, p: PostId)
    requires CountsRight(db0)
    ensures OffByStale(db0, run, p)
  {
    if run.Then? {
      CountsOffByStale(db0, run.before, p);
      RunKeepsFit(db0, run.before);
      var s, c := Exec(db0, run.before), run.cmd;
      if Legal(s, c) && c.Commit? {
        CountsTracked(db0, run.before, c.tx, p);
        CommitOffByStale(db0, run.before, c.tx, p);
      }
    }
  }

  /** At every moment of every run of overlapping syncs: the count of a post is the number of live posts
      citing it, if and only if the changes committed by others between the count and the commit of its
      last writer cancel out. */
  lemma CountRightIff(db0: Db, run: Run, p: PostId)
    requires CountsRight(db0) && p in Exec(db0, run).db.posts
    ensures Exec(db0, run).db.posts[p].citationCount == |Citers(Exec(db0, run).db, p)| <==> Stale(db0, run, p) == 0
  {
    CountsOffByStale(db0, run, p);
  }

  /** A sync can roll back at any moment before its commit; it leaves the committed posts and citations, and the other
      syncs, as they are. */
  lemma RollbackForgets(s: Store, tx: TxId)
    requires tx in s.txs
    ensures Legal(s, Rollback(tx)) && Apply(s, Rollback(tx)) == Store(s.db, s.txs - {tx})
  {
  }

  // ---- Syncs of disjoint posts ----

  // No sync starts while another one that affects one of its posts is under way.
  predicate Disjoint(db0: Db, run: Run) {
    run.Then? ==>
      && Disjoint(db0, run.before)
      && (run.cmd.Write? ==> Apart(Exec(db0, run.before), run.cmd))
  }

  predicate Apart(s: Store, c: Command)
    requires c.Write?
  {
    forall o <- s.txs :: s.txs[o].affected !! Started(s.db, c).affected
  }

  ghost predicate PairwiseApart(s: Store) {
    forall x <- s.txs, y <- s.txs :: x != y ==> s.txs[x].affected !! s.txs[y].affected
  }

  lemma {:induction false} StaysApart(db0: Db, run: Run)
    requires Disjoint(db0, run)
    ensures PairwiseApart(Exec(db0, run))
  {
    if run.Then? {
      StaysApart(db0, run.before);
    }
  }

  lemma {:induction false} NothingMissed(db0: Db, run: Run, tx: TxId, p: PostId)
    requires Disjoint(db0, run)
    ensures var s := Exec(db0, run); tx in s.txs && p in s.txs[tx].counted ==> Missed(db0, run, tx, p) == 0
  {
    if run.Then? {
      NothingMissed(db0, run.before, tx, p);
      StaysApart(db0, run.before);
      RunKeepsFit(db0, run.before);
    }
  }

  lemma {:induction false} NothingStale(db0: Db, run: Run, p: PostId)
    requires Disjoint(db0, run)
    ensures Stale(db0, run, p) == 0
  {
    if run.Then? {
      NothingStale(db0, run.before, p);
      RunKeepsFit(db0, run.before);
      if run.cmd.Commit? {
        NothingMissed(db0, run.before, run.cmd.tx, p);
      }
    }
  }

  /** Syncs may overlap freely as long as no two of them affect the same post. */
  lemma DisjointSyncsKeepCounts(db0: Db, run: Run)
    requires CountsRight(db0) && Disjoint(db0, run)
    ensures CountsRight(Exec(db0, run).db)
  {
    var db := Exec(db0, run).db;
    forall p <- db.posts
      ensures db.posts[p].citationCount == |Citers(db, p)|
    {
      NothingStale(db0, run, p);
      CountsOffByStale(db0, run, p);
    }
  }

  // ---- A sync on its own ----

  function Solo(tx: TxId, post: PostId, wanted: set<PostId>, seen: set<PostId>, author: UserId,
      order: seq<PostId>): Run {
    if order == [] then Then(Start, Write(tx, post, wanted, seen, author))
    else
      var p := order[|order| - 1];
      Then(Then(Solo(tx, post, wanted, seen, author, order[..|order| - 1]), Count(tx, p)), Put(tx, p))
  }

  // After counting and writing the posts of `order`.
  ghost predicate SoloAt(db0: Db, s: Store, tx: TxId, t: Tx, order: seq<PostId>) {
    && s.db == db0 && s.txs.Keys == {tx}
    && s.txs[tx].(counted := map[], written := {}) == t
    && s.txs[tx].counted.Keys == s.txs[tx].written == (set p <- order)
    && forall p <- order :: s.txs[tx].counted[p] == |Citers(View(db0, t), p)|
  }

  lemma SoloNext(db0: Db, s: Store, tx: TxId, t: Tx, order: seq<PostId>, p: PostId)
    requires SoloAt(db0, s, tx, t, order) && p in t.affected && p !in order
    ensures SoloAt(db0, Apply(Apply(s, Count(tx, p)), Put(tx, p)), tx, t, order + [p])
  {
    hide Citers, Inserted, Removed;
    assert View(db0, s.txs[tx]) == View(db0, t);
  }

  lemma {:induction false} SoloCounts(db0: Db, tx: TxId, post: PostId, wanted: set<PostId>, seen: set<PostId>,
      author: UserId, order: seq<PostId>)
    requires Legal(Store(db0, map[]), Write(tx, post, wanted, seen, author))
    requires forall p <- order :: p in (wanted - seen) + (seen - wanted)
    requires forall i, j :: 0 <= i < j < |order| ==> order[i] != order[j]
    ensures SoloAt(db0, Exec(db0, Solo(tx, post, wanted, seen, author, order)),
      tx, Started(db0, Write(tx, post, wanted, seen, author)), order)
  {
    if order != [] {
      var init := order[..|order| - 1];
      SoloCounts(db0, tx, post, wanted, seen, author, init);
      assert order == init + [order[|order| - 1]];
      SoloNext(db0, Exec(db0, Solo(tx, post, wanted, seen, author, init)), tx,
               Started(db0, Write(tx, post, wanted, seen, author)), init, order[|order| - 1]);
    }
  }

  /** A sync that runs alone has the outcome of Sync, in whatever order it recounts the affected posts. */
  lemma SoloIsSync(db0: Db, tx: TxId, post: PostId, wanted: set<PostId>, seen: set<PostId>, author: UserId,
      order: seq<PostId>)
    requires Legal(Store(db0, map[]), Write(tx, post, wanted, seen, author))
    requires (set p <- order) == (wanted - seen) + (seen - wanted)
    requires forall i, j :: 0 <= i < j < |order| ==> order[i] != order[j]
    ensures var run := Then(Solo(tx, post, wanted, seen, author, order), Commit(tx));
            Exec(db0, run).txs == map[] && Sync(db0, post, wanted, seen, author) == Some(Exec(db0, run).db)
  {
    assert forall p <- order :: p in (set q <- order);
    SoloCounts(db0, tx, post, wanted, seen, author, order);
    var s, t := Exec(db0, Solo(tx, post, wanted, seen, author, order)), Started(db0, Write(tx, post, wanted, seen, author));
    assert View(db0, s.txs[tx]) == View(db0, t);
    assert WithCounts(View(db0, t), s.txs[tx].counted).posts == Recounted(View(db0, t), t.affected).posts;
  }

  // ---- Two syncs that overlap ----

  // A sync of `post` that adds a link to x to what the post cites already.
  function CiteAlso(db: Db, tx: TxId, post: PostId, x: PostId): Command {
    Write(tx, post, Cited(db, post) + {x}, Cited(db, post), 0)
  }

  function Adding(post: PostId, x: PostId): Tx {
    Tx(post, {}, {x}, 0, {x}, map[], {})
  }

  lemma StartsCiting(db: Db, tx: TxId, post: PostId, x: PostId)
    requires Live(db, post) && Live(db, x) && (post, x) !in db.cites
    ensures !Violates(db, post, Cited(db, post) + {x}, Cited(db, post))
    ensures Started(db, CiteAlso(db, tx, post, x)) == Adding(post, x)
  {
    InCited(db, post, x);
    var seen := Cited(db, post);
    assert (seen + {x}) - seen == {x} && seen - (seen + {x}) == {} && Insertable(db, seen + {x}, seen) == {x};
  }

  // Both have written their rows; then the first counts and puts the count, and the second counts.
  function BothCounted(db: Db, a: PostId, b: PostId, x: PostId): Run {
    Then(Then(Then(BothWritten(db, a, b, x), Count(1, x)), Put(1, x)), Count(2, x))
  }

  function BothWritten(db: Db, a: PostId, b: PostId, x: PostId): Run {
    Then(Then(Start, CiteAlso(db, 1, a, x)), CiteAlso(db, 2, b, x))
  }

  // x is live and cited by neither of two live posts.
  predicate Fresh(db: Db, a: PostId, b: PostId, x: PostId) {
    Live(db, a) && Live(db, b) && Live(db, x) && a != b && (a, x) !in db.cites && (b, x) !in db.cites
  }

  lemma BothWrittenAt(db0: Db, a: PostId, b: PostId, x: PostId)
    requires Fresh(db0, a, b, x)
    ensures Exec(db0, BothWritten(db0, a, b, x)) == Store(db0, map[1 := Adding(a, x), 2 := Adding(b, x)])
    ensures LegalRun(db0, BothWritten(db0, a, b, x))
  {
    StartsCiting(db0, 1, a, x);
    StartsCiting(db0, 2, b, x);
    assert Exec(db0, Then(Start, CiteAlso(db0, 1, a, x))) == Store(db0, map[1 := Adding(a, x)]);
  }

  // The first has written its count and the second has counted.
  ghost predicate Counted(s: Store, db: Db, a: PostId, b: PostId, x: PostId) {
    && s.db == db && s.txs.Keys == {1, 2}
    && s.txs[1].(counted := map[]) == Adding(a, x).(written := {x}) && s.txs[1].counted.Keys == {x}
    && s.txs[2].(counted := map[]) == Adding(b, x) && s.txs[2].counted.Keys == {x}
  }

  lemma CountingSteps(s: Store, a: PostId, b: PostId, x: PostId)
    requires s.txs == map[1 := Adding(a, x), 2 := Adding(b, x)]
    ensures Counted(Apply(Apply(Apply(s, Count(1, x)), Put(1, x)), Count(2, x)), s.db, a, b, x)
    ensures Legal(s, Count(1, x)) && Legal(Apply(s, Count(1, x)), Put(1, x))
    ensures Legal(Apply(Apply(s, Count(1, x)), Put(1, x)), Count(2, x))
  {
    hide Citers, Inserted, Removed, Violates, Cited, Insertable;
    var s1 := Apply(s, Count(1, x));
    var s2 := Apply(s1, Put(1, x));
    assert s1.txs.Keys == {1, 2} && s1.txs[1].counted.Keys == {x};
    assert s2.txs.Keys == {1, 2} && s2.txs[1].written == {x};
  }

  lemma BothCountedAt(db0: Db, a: PostId, b: PostId, x: PostId)
    requires Fresh(db0, a, b, x)
    ensures Counted(Exec(db0, BothCounted(db0, a, b, x)), db0, a, b, x)
    ensures Missed(db0, BothCounted(db0, a, b, x), 2, x) == 0 && LegalRun(db0, BothCounted(db0, a, b, x))
  {
    var r0 := BothWritten(db0, a, b, x);
    BothWrittenAt(db0, a, b, x);
    var r1 := Then(r0, Count(1, x));
    var r2 := Then(r1, Put(1, x));
    assert Exec(db0, r1) == Apply(Exec(db0, r0), Count(1, x));
    assert Exec(db0, r2) == Apply(Exec(db0, r1), Put(1, x));
    CountingSteps(Exec(db0, r0), a, b, x);
    CountStarts(db0, r2, 2, x);
    LegalThen(db0, r0, Count(1, x));
    LegalThen(db0, r1, Put(1, x));
    LegalThen(db0, r2, Count(2, x));
  }

  lemma LegalThen(db0: Db, run: Run, c: Command)
    requires LegalRun(db0, run) && Legal(Exec(db0, run), c)
    ensures LegalRun(db0, Then(run, c))
  {
  }

  lemma CountStarts(db0: Db, run: Run, tx: TxId, p: PostId)
    ensures Legal(Exec(db0, run), Count(tx, p)) ==> Missed(db0, Then(run, Count(tx, p)), tx, p) == 0
  {
  }

  // The first commits, the second writes the count it took before and commits.
  lemma CommittingSteps(s: Store, db: Db, a: PostId, b: PostId, x: PostId)
    requires Counted(s, db, a, b, x) && x in db.posts
    ensures Legal(s, Commit(1))
    ensures var s1 := Apply(s, Commit(1)); Legal(s1, Put(2, x)) && s1.txs.Keys == {2} && x in s1.db.posts
    ensures var s2 := Apply(Apply(s, Commit(1)), Put(2, x));
      && Legal(s2, Commit(2)) && x in s2.txs[2].written
      && Apply(s2, Commit(2)).txs == map[] && x in Apply(s2, Commit(2)).db.posts
  {
    var s1 := Apply(s, Commit(1));
    assert s1.txs.Keys == {2} && s1.txs[2] == s.txs[2];
    var s2 := Apply(s1, Put(2, x));
    assert s2.txs.Keys == {2} && s2.txs[2].written == {x};
  }

  /** Two posts start citing x, and the second sync counts before the first commits: when both have
      committed, the count of x misses one of its citers. */
  lemma OverlapMiscounts(db0: Db, a: PostId, b: PostId, x: PostId) returns (run: Run)
    requires CountsRight(db0) && Fresh(db0, a, b, x)
    ensures run == Then(Then(Then(BothCounted(db0, a, b, x), Commit(1)), Put(2, x)), Commit(2))
    ensures LegalRun(db0, run) && Exec(db0, run).txs == map[] && x in Exec(db0, run).db.posts
    ensures Exec(db0, run).db.posts[x].citationCount == |Citers(Exec(db0, run).db, x)| - 1
  {
    var counted := BothCounted(db0, a, b, x);
    hide *;
    FreshLives(db0, a, b, x);
    BothCountedAt(db0, a, b, x);
    CommittingSteps(Exec(db0, counted), db0, a, b, x);
    var first := Then(counted, Commit(1));
    var put := Then(first, Put(2, x));
    run := Then(put, Commit(2));
    ExecThen(db0, counted, Commit(1));
    ExecThen(db0, first, Put(2, x));
    ExecThen(db0, put, Commit(2));
    LegalThen(db0, counted, Commit(1));
    LegalThen(db0, first, Put(2, x));
    LegalThen(db0, put, Commit(2));
    MissedCommit(db0, counted, a, b, x);
    MissedPut(db0, first, 2, x);
    StaleCommit(db0, put, 2, x);
    OffBy(db0, run, x, 1);
  }

  lemma FreshLives(db: Db, a: PostId, b: PostId, x: PostId)
    requires Fresh(db, a, b, x)
    ensures Live(db, a) && x in db.posts
  {
  }

  lemma ExecThen(db0: Db, run: Run, c: Command)
    ensures Exec(db0, Then(run, c)) == Apply(Exec(db0, run), c)
  {
  }

  lemma MissedCommit(db0: Db, run: Run, a: PostId, b: PostId, x: PostId)
    requires Counted(Exec(db0, run), db0, a, b, x) && Legal(Exec(db0, run), Commit(1)) && Live(db0, a)
    ensures Missed(db0, Then(run, Commit(1)), 2, x) == Missed(db0, run, 2, x) + 1
  {
  }

  lemma MissedPut(db0: Db, run: Run, tx: TxId, p: PostId)
    ensures Missed(db0, Then(run, Put(tx, p)), tx, p) == Missed(db0, run, tx, p)
  {
  }

  lemma StaleCommit(db0: Db, run: Run, tx: TxId, p: PostId)
    requires Legal(Exec(db0, run), Commit(tx)) && p in Exec(db0, run).txs[tx].written
    ensures Stale(db0, Then(run, Commit(tx)), p) == Missed(db0, run, tx, p)
  {
  }

  lemma OffBy(db0: Db, run: Run, p: PostId, n: int)
    requires CountsRight(db0) && Stale(db0, run, p) == n && p in Exec(db0, run).db.posts
    ensures Exec(db0, run).db.posts[p].citationCount == |Citers(Exec(db0, run).db, p)| - n
  {
    CountsOffByStale(db0, run, p);
  }
}

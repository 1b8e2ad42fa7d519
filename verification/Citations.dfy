/** Keeping the citations of a post in step with its text (backend/app/services/citation.py,
    backend/app/repositories/citation_repo.py). A pair (citing, cited) is unique in the table, so a
    row is identified by its pair. Which of the parsed links are post ids is the input here. */
module Citations {
  import opened Basics

  type PostId = nat
  type UserId = nat

  const EXISTING_LIMIT: nat := 5000

  datatype Post = Post(live: bool, author: UserId, citationCount: nat)

  // cites: (citing, cited) to is_self_citation.
  datatype Db = Db(posts: map<PostId, Post>, cites: map<(PostId, PostId), bool>)

  predicate Live(db: Db, p: PostId) {
    p in db.posts && db.posts[p].live
  }

  function Cited(db: Db, post: PostId): set<PostId> {
    set pair <- db.cites | pair.0 == post :: pair.1
  }

  lemma InCited(db: Db, post: PostId, p: PostId)
    ensures p in Cited(db, post) <==> (post, p) in db.cites
  {
  }

  // Live posts that cite p.
  function Citers(db: Db, p: PostId): set<PostId> {
    set c <- db.posts | Live(db, c) && (c, p) in db.cites
  }

  // ---- parse_cited_post_ids ----

  function Dedup(ids: seq<PostId>): seq<PostId> {
    if ids == [] then []
    else
      var rest, last := Dedup(ids[..|ids| - 1]), ids[|ids| - 1];
      if last in rest then rest else rest + [last]
  }

  function FirstIndex(ids: seq<PostId>, id: PostId): nat
    requires id in ids
  {
    if ids[0] == id then 0 else 1 + FirstIndex(ids[1..], id)
  }

  lemma {:induction false} FirstIndexOfPrefix(ids: seq<PostId>, n: nat, id: PostId)
    requires n <= |ids| && id in ids[..n]
    ensures FirstIndex(ids[..n], id) == FirstIndex(ids, id) < n
  {
    if ids[0] != id {
      assert ids[1..][..n - 1] == ids[..n][1..];
      FirstIndexOfPrefix(ids[1..], n - 1, id);
    }
  }

  lemma {:induction false} FirstIndexOfNew(ids: seq<PostId>, id: PostId)
    requires ids != [] && ids[|ids| - 1] == id && id !in ids[..|ids| - 1]
    ensures FirstIndex(ids, id) == |ids| - 1
  {
    if |ids| > 1 {
      assert ids[..|ids| - 1][0] == ids[0];
      assert ids[1..][..|ids| - 2] == ids[..|ids| - 1][1..];
      FirstIndexOfNew(ids[1..], id);
    }
  }

  // Strictly increasing places of first appearance, hence no id twice.
  ghost predicate InFirstOrder(r: seq<PostId>, ids: seq<PostId>) {
    && (forall id <- r :: id in ids)
    && forall i, j :: 0 <= i < j < |r| ==> FirstIndex(ids, r[i]) < FirstIndex(ids, r[j])
  }

  lemma FirstOrderGrows(r: seq<PostId>, ids: seq<PostId>, n: nat)
    requires n <= |ids| && InFirstOrder(r, ids[..n])
    ensures InFirstOrder(r, ids)
    ensures forall id <- r :: FirstIndex(ids, id) < n
  {
    forall id <- r
      ensures id in ids && FirstIndex(ids, id) == FirstIndex(ids[..n], id) < n
    {
      FirstIndexOfPrefix(ids, n, id);
    }
  }

  /** Each id once, in the order of first appearance, and none lost. */
  lemma {:induction false} DedupKeepsFirsts(ids: seq<PostId>)
    ensures forall id :: id in Dedup(ids) <==> id in ids
    ensures InFirstOrder(Dedup(ids), ids)
  {
    if ids != [] {
      var n := |ids| - 1;
      var rest := Dedup(ids[..n]);
      DedupKeepsFirsts(ids[..n]);
      FirstOrderGrows(rest, ids, n);
      assert ids == ids[..n] + [ids[n]];
      if ids[n] !in rest {
        FirstIndexOfNew(ids, ids[n]);
      }
    }
  }

  method ParseCitedPostIds(ids: seq<PostId>) returns (result: seq<PostId>)
    ensures result == Dedup(ids)
  {
    var seen := {};
    result := [];
    for i := 0 to |ids|
      invariant result == Dedup(ids[..i])
      invariant forall id :: id in seen <==> id in result
    {
      assert ids[..i + 1][..i] == ids[..i];
      if ids[i] !in seen {
        seen := seen + {ids[i]};
        result := result + [ids[i]];
      }
    }
    assert ids[..|ids|] == ids;
  }

  // ---- sync_post_citations ----

  function Removed(db: Db, post: PostId, gone: set<PostId>): Db {
    db.(cites := map pair <- db.cites | !(pair.0 == post && pair.1 in gone) :: db.cites[pair])
  }

  function Inserted(db: Db, post: PostId, ids: set<PostId>, author: UserId): Db {
    db.(cites := db.cites + NewRows(db.posts, post, ids, author))
  }

  function NewRows(posts: map<PostId, Post>, post: PostId, ids: set<PostId>, author: UserId): map<(PostId, PostId),
      bool> {
    map pair <- Pairs(post, ids) :: pair.1 in posts && posts[pair.1].author == author
  }

  function Pairs(post: PostId, ids: set<PostId>): set<(PostId, PostId)> {
    set id <- ids :: (post, id)
  }

  function Recounted(db: Db, ids: set<PostId>): Db {
    db.(posts := map p <- db.posts ::
          if p in ids then db.posts[p].(citationCount := |Citers(db, p)|) else db.posts[p])
  }

  // The ids to insert: new ones whose post is live.
  function Insertable(db: Db, wanted: set<PostId>, seen: set<PostId>): set<PostId> {
    set id <- wanted - seen | Live(db, id)
  }

  // An insert of a pair that is in the table already violates the unique index.
  predicate Violates(db: Db, post: PostId, wanted: set<PostId>, seen: set<PostId>) {
    exists id <- Insertable(db, wanted, seen) :: (post, id) in db.cites
  }

  // seen: the existing citations the diff query returned.
  function Sync(db: Db, post: PostId, wanted: set<PostId>, seen: set<PostId>, author: UserId): Option<Db> {
    if Violates(db, post, wanted, seen) then None
    else
      var added, gone := wanted - seen, seen - wanted;
      Some(Recounted(Inserted(Removed(db, post, gone), post, Insertable(db, wanted, seen), author), added + gone))
  }

  // LIMIT 5000 without an order: some rows of the post, all of them if there are no more.
  ghost predicate Returned(db: Db, post: PostId, seen: set<PostId>) {
    seen <= Cited(db, post) && |seen| == Min(|Cited(db, post)|, EXISTING_LIMIT)
  }

  // What a post should cite afterwards: the wanted ids that it cited already or that are live.
  function Wanted(db: Db, post: PostId, wanted: set<PostId>): set<PostId> {
    set id <- wanted | id in Cited(db, post) || Live(db, id)
  }

  lemma CitedAfterSync(db: Db, post: PostId, wanted: set<PostId>, seen: set<PostId>, author: UserId, id: PostId)
    requires seen <= Cited(db, post) && !Violates(db, post, wanted, seen)
    ensures id in Cited(Sync(db, post, wanted, seen, author).value, post) <==>
      (id in Cited(db, post) && id !in seen - wanted) || id in Insertable(db, wanted, seen)
  {
  }

  /** What a sync leaves in the citations: of this post's rows those that the diff did not find missing from the
      text, and new ones for live posts, flagged exactly if the author cites a post of their own; the rows of all other
      posts are untouched. */
  ghost predicate RowsSynced(before: Db, after: Db, post: PostId, wanted: set<PostId>, seen: set<PostId>, author: UserId) {
    && (forall a, b :: (a, b) in after.cites <==>
          if a != post then (a, b) in before.cites
          else if b in seen && b !in wanted then false
          else (a, b) in before.cites || (b in wanted && b !in seen && Live(before, b)))
    && (forall r <- after.cites ::
          if r in before.cites then after.cites[r] == before.cites[r]
          else r.1 in before.posts && (after.cites[r] <==> before.posts[r.1].author == author))
  }

  /** And in the posts: the counts of those whose citation came or went are taken anew, nothing else changes. */
  ghost predicate PostsSynced(before: Db, after: Db, moved: set<PostId>) {
    && after.posts.Keys == before.posts.Keys
    && forall p <- before.posts ::
         var citers := set c <- after.posts | after.posts[c].live && (c, p) in after.cites;
         after.posts[p] == if p in moved then before.posts[p].(citationCount := |citers|) else before.posts[p]
  }

  ghost predicate Synced(before: Db, after: Db, post: PostId, wanted: set<PostId>, seen: set<PostId>, author: UserId) {
    && RowsSynced(before, after, post, wanted, seen, author)
    && PostsSynced(before, after, set id | id in wanted + seen && !(id in wanted && id in seen))
  }

  lemma SyncInFields(db: Db, post: PostId, wanted: set<PostId>, seen: set<PostId>, author: UserId)
    requires Sync(db, post, wanted, seen, author).Some?
    ensures Synced(db, Sync(db, post, wanted, seen, author).value, post, wanted, seen, author)
  {
    var moved := set id | id in wanted + seen && !(id in wanted && id in seen);
    var middle := Inserted(Removed(db, post, seen - wanted), post, Insertable(db, wanted, seen), author);
    assert moved == (wanted - seen) + (seen - wanted);
    RowsInFields(db, post, wanted, seen, author);
    hide Inserted, Removed, Insertable, Violates, RowsSynced, PostsSynced;
    RecountInFields(db, middle, moved);
    SameRows(db, middle, Recounted(middle, moved), post, wanted, seen, author);
  }

  lemma RowsInFields(db: Db, post: PostId, wanted: set<PostId>, seen: set<PostId>, author: UserId)
    requires !Violates(db, post, wanted, seen)
    ensures var middle := Inserted(Removed(db, post, seen - wanted), post, Insertable(db, wanted, seen), author);
      middle.posts == db.posts && RowsSynced(db, middle, post, wanted, seen, author)
  {
  }

  lemma RecountInFields(db: Db, middle: Db, moved: set<PostId>)
    requires middle.posts == db.posts
    ensures PostsSynced(db, Recounted(middle, moved), moved)
  {
    var after := Recounted(middle, moved);
    forall p <- db.posts
      ensures Citers(middle, p) == set c <- after.posts | after.posts[c].live && (c, p) in after.cites
    {
    }
  }

  lemma SameRows(
    db: Db, middle: Db, after: Db, post: PostId, wanted: set<PostId>, seen: set<PostId>, author: UserId)
    requires RowsSynced(db, middle, post, wanted, seen, author) && after.cites == middle.cites
    ensures RowsSynced(db, after, post, wanted, seen, author)
  {
  }

  ghost predicate ExactSync(db: Db, post: PostId, wanted: set<PostId>, seen: set<PostId>, author: UserId) {
    var result := Sync(db, post, wanted, seen, author);
    result.Some? && Cited(result.value, post) == Wanted(db, post, wanted)
  }

  // The post ends up citing exactly what it should if and only if each citation the diff query left out is
  // wanted and of a post that is gone. Otherwise one of them stays although it should go, or is inserted
  // twice and the transaction fails.
  lemma ExactForDiffIff(db: Db, post: PostId, wanted: set<PostId>, seen: set<PostId>, author: UserId)
    requires seen <= Cited(db, post)
    ensures ExactSync(db, post, wanted, seen, author)
      <==> forall id <- Cited(db, post) - seen :: id in wanted && !Live(db, id)
  {
    forall id
      ensures (post, id) in db.cites <==> id in Cited(db, post)
    {
      InCited(db, post, id);
    }
    var result := Sync(db, post, wanted, seen, author);
    if result.Some? {
      forall id {
        CitedAfterSync(db, post, wanted, seen, author, id);
      }
      forall id <- Cited(db, post) - seen
        ensures id in Cited(result.value, post)
        ensures Live(db, id) ==> id !in wanted
      {
        CitedAfterSync(db, post, wanted, seen, author, id);
        assert Live(db, id) && id in wanted ==> id in Insertable(db, wanted, seen);
      }
    }
  }

  /** Up to 5000 existing citations the diff sees them all, and the sync is exact. */
  lemma SyncExact(db: Db, post: PostId, wanted: set<PostId>, seen: set<PostId>, author: UserId)
    requires |Cited(db, post)| <= EXISTING_LIMIT && Returned(db, post, seen)
    ensures Sync(db, post, wanted, seen, author).Some?
    ensures Cited(Sync(db, post, wanted, seen, author).value, post) == Wanted(db, post, wanted)
  {
    SameSize(seen, Cited(db, post));
    ExactForDiffIff(db, post, wanted, seen, author);
  }

  lemma {:induction false} SubsetOfSize(s: set<PostId>, n: nat) returns (t: set<PostId>)
    requires n <= |s|
    ensures t <= s && |t| == n
  {
    t := {};
    assert (forall x :: x !in s) ==> s == {};
    if n > 0 {
      if x :| x in s {
        t := SubsetOfSize(s - {x}, n - 1);
        t := t + {x};
      }
    }
  }

  // Over 5000 citations the diff query may leave out any one of them.
  lemma LeavesOut(db: Db, post: PostId, id: PostId) returns (seen: set<PostId>)
    requires |Cited(db, post)| > EXISTING_LIMIT && id in Cited(db, post)
    ensures Returned(db, post, seen) && id !in seen
  {
    seen := SubsetOfSize(Cited(db, post) - {id}, EXISTING_LIMIT);
  }

  /** Whatever rows the diff query picks, the sync is exact, if and only if the post has at most 5000
      citations or all of them are wanted and of posts that are gone. */
  lemma SyncExactIff(db: Db, post: PostId, wanted: set<PostId>, author: UserId)
    ensures (forall seen :: Returned(db, post, seen) ==> ExactSync(db, post, wanted, seen, author))
      <==> (|Cited(db, post)| <= EXISTING_LIMIT || forall id <- Cited(db, post) :: id in wanted && !Live(db, id))
  {
    forall seen | Returned(db, post, seen)
      ensures |Cited(db, post)| <= EXISTING_LIMIT ==> seen == Cited(db, post)
      ensures ExactSync(db, post, wanted, seen, author) <==>
        forall id <- Cited(db, post) - seen :: id in wanted && !Live(db, id)
    {
      ExactForDiffIff(db, post, wanted, seen, author);
      if |Cited(db, post)| <= EXISTING_LIMIT {
        SameSize(seen, Cited(db, post));
      }
    }
    if |Cited(db, post)| > EXISTING_LIMIT {
      if id :| id in Cited(db, post) && !(id in wanted && !Live(db, id)) {
        var seen := LeavesOut(db, post, id);
        assert !ExactSync(db, post, wanted, seen, author);
      }
    }
  }

  /** The failing case: from a post of more than 5000 citations all links are removed, and one that the diff
      query left out stays. */
  lemma LimitKeepsCitation(db: Db, post: PostId, author: UserId, id: PostId) returns (seen: set<PostId>)
    requires |Cited(db, post)| > EXISTING_LIMIT && id in Cited(db, post)
    ensures Returned(db, post, seen)
    ensures var result := Sync(db, post, {}, seen, author); result.Some? && id in Cited(result.value, post)
  {
    seen := LeavesOut(db, post, id);
    CitedAfterSync(db, post, {}, seen, author, id);
  }

  // ---- citation_count ----

  ghost predicate CountsRight(db: Db) {
    forall p <- db.posts :: db.posts[p].citationCount == |Citers(db, p)|
  }

  // The citing posts of p change only if p is recounted.
  lemma CitersElsewhere(db: Db, post: PostId, wanted: set<PostId>, seen: set<PostId>, author: UserId, p: PostId)
    requires !Violates(db, post, wanted, seen) && p !in (wanted - seen) + (seen - wanted)
    ensures Citers(Sync(db, post, wanted, seen, author).value, p) == Citers(db, p)
  {
  }

  lemma RecountKeepsCiters(db: Db, ids: set<PostId>, p: PostId)
    ensures Citers(Recounted(db, ids), p) == Citers(db, p)
  {
  }

  /** Recounting the affected posts alone is enough: after a sync every post's citation_count is again
      the number of live posts citing it. */
  lemma SyncKeepsCounts(db: Db, post: PostId, wanted: set<PostId>, seen: set<PostId>, author: UserId)
    requires CountsRight(db) && Sync(db, post, wanted, seen, author).Some?
    ensures CountsRight(Sync(db, post, wanted, seen, author).value)
  {
    var next := Sync(db, post, wanted, seen, author).value;
    var affected := (wanted - seen) + (seen - wanted);
    var before := Inserted(Removed(db, post, seen - wanted), post, Insertable(db, wanted, seen), author);
    forall p <- next.posts
      ensures next.posts[p].citationCount == |Citers(next, p)|
    {
      if p in affected {
        RecountKeepsCiters(before, affected, p);
      } else {
        CitersElsewhere(db, post, wanted, seen, author, p);
      }
    }
  }

  // The database after a sync: as it was if the transaction failed.
  function After(db: Db, result: Option<Db>): Db {
    match result case None => db case Some(next) => next
  }

  /** A second sync of the same text changes nothing, whatever rows its diff query picks: it may fail, if
      it overlooks a live citation among more than 5000, but then it changes nothing either. */
  lemma SyncTwice(db: Db, post: PostId, wanted: set<PostId>, author: UserId, seen: set<PostId>, seenAgain: set<PostId>)
    requires CountsRight(db) && |Cited(db, post)| <= EXISTING_LIMIT && Returned(db, post, seen)
    requires var once := Sync(db, post, wanted, seen, author); once.Some? ==> Returned(once.value, post, seenAgain)
    ensures var once := Sync(db, post, wanted, seen, author);
            once.Some? && After(once.value, Sync(once.value, post, wanted, seenAgain, author)) == once.value
  {
    SyncExact(db, post, wanted, seen, author);
    SyncKeepsCounts(db, post, wanted, seen, author);
    SyncKeepsLive(db, post, wanted, seen, author);
    SyncAgain(Sync(db, post, wanted, seen, author).value, post, wanted, seenAgain, author);
  }

  lemma SyncKeepsLive(db: Db, post: PostId, wanted: set<PostId>, seen: set<PostId>, author: UserId)
    requires Sync(db, post, wanted, seen, author).Some?
    ensures forall p: PostId :: Live(Sync(db, post, wanted, seen, author).value, p) == Live(db, p)
  {
  }

  // Nothing wanted is missing and nothing cited is unwanted.
  lemma SyncAgain(db: Db, post: PostId, wanted: set<PostId>, seen: set<PostId>, author: UserId)
    requires CountsRight(db) && seen <= Cited(db, post) <= wanted
    requires forall id <- wanted :: Live(db, id) ==> id in Cited(db, post)
    ensures After(db, Sync(db, post, wanted, seen, author)) == db
  {
    if !Violates(db, post, wanted, seen) {
      NothingToInsert(db, post, wanted, seen);
      assert seen - wanted == {};
      assert (wanted - seen) + (seen - wanted) == wanted - seen;
      NothingChanges(db, post, wanted - seen, author);
    }
  }

  // If all live wanted posts are cited, a sync that does not fail has nothing to insert.
  lemma NothingToInsert(db: Db, post: PostId, wanted: set<PostId>, seen: set<PostId>)
    requires !Violates(db, post, wanted, seen)
    requires forall id <- wanted :: Live(db, id) ==> id in Cited(db, post)
    ensures Insertable(db, wanted, seen) == {}
  {
    forall id <- Insertable(db, wanted, seen)
      ensures false
    {
      InCited(db, post, id);
    }
  }

  lemma NothingChanges(db: Db, post: PostId, ids: set<PostId>, author: UserId)
    requires CountsRight(db)
    ensures Recounted(Inserted(Removed(db, post, {}), post, {}, author), ids) == db
  {
    assert Removed(db, post, {}) == db;
    assert Inserted(db, post, {}, author) == db;
    assert Recounted(db, ids).posts == db.posts;
  }

  // ---- Runs ----

  // One sync after another; posts are created in between.
  datatype Step = CreatePost(id: PostId, creator: UserId) | SyncPost(post: PostId, wanted: set<PostId>, seen: set<PostId>)

  type Syncs = RunOf<Step>

  function Apply(db: Db, c: Step): Db {
    match c
    case CreatePost(id, creator) => if id in db.posts then db else db.(posts := db.posts[id := Post(true, creator, 0)])
    case SyncPost(post, wanted, seen) =>
      if post !in db.posts || !(seen <= Cited(db, post)) then db
      else After(db, Sync(db, post, wanted, seen, db.posts[post].author))
  }

  function Exec(run: Syncs): Db {
    match run
    case Start => Db(map[], map[])
    case Then(before, c) => Apply(Exec(before), c)
  }

  /** A step of a run is the sync of that post by its author, for whatever the diff query returned; with at most 5000
      citations it returns them all. */
  lemma StepIsSync(db: Db, post: PostId, wanted: set<PostId>, seen: set<PostId>)
    requires post in db.posts && seen <= Cited(db, post)
    ensures var result := Sync(db, post, wanted, seen, db.posts[post].author);
      Apply(db, SyncPost(post, wanted, seen)) == if result.Some? then result.value else db
    ensures |Cited(db, post)| <= 5000 ==> (Returned(db, post, seen) <==> seen == Cited(db, post))
  {
    if |seen| == |Cited(db, post)| {
      SameSize(seen, Cited(db, post));
    }
  }

  // Both ends of a citation exist.
  ghost predicate Anchored(db: Db) {
    forall pair <- db.cites :: pair.0 in db.posts && pair.1 in db.posts
  }

  lemma SyncKeepsAnchored(db: Db, post: PostId, wanted: set<PostId>, seen: set<PostId>, author: UserId)
    requires Anchored(db) && post in db.posts && Sync(db, post, wanted, seen, author).Some?
    ensures Anchored(Sync(db, post, wanted, seen, author).value)
  {
  }

  lemma CreateKeepsCounts(db: Db, id: PostId, creator: UserId)
    requires Anchored(db) && CountsRight(db) && id !in db.posts
    ensures CountsRight(db.(posts := db.posts[id := Post(true, creator, 0)]))
  {
    var next := db.(posts := db.posts[id := Post(true, creator, 0)]);
    forall p <- next.posts
      ensures next.posts[p].citationCount == |Citers(next, p)|
    {
      assert Citers(next, p) == if p == id then {} else Citers(db, p);
    }
  }

  /** In every run of syncs that do not overlap, however many citations a post has, every
      citation_count is the number of live posts citing it. */
  lemma {:induction false} CountsStayRight(run: Syncs)
    ensures Anchored(Exec(run)) && CountsRight(Exec(run))
  {
    if run.Then? {
      CountsStayRight(run.before);
      StepKeepsCounts(Exec(run.before), run.cmd);
    }
  }

  lemma StepKeepsCounts(db: Db, c: Step)
    requires Anchored(db) && CountsRight(db)
    ensures Anchored(Apply(db, c)) && CountsRight(Apply(db, c))
  {
    match c
    case CreatePost(id, creator) =>
      if id !in db.posts {
        CreateKeepsCounts(db, id, creator);
      }
    case SyncPost(post, wanted, seen) =>
      if post in db.posts && Sync(db, post, wanted, seen, db.posts[post].author).Some? {
        SyncKeepsCounts(db, post, wanted, seen, db.posts[post].author);
        SyncKeepsAnchored(db, post, wanted, seen, db.posts[post].author);
      }
  }

  // ---- The service function ----

  class CitationStore {
    var posts: map<PostId, Post>
    var cites: map<(PostId, PostId), bool>

    ghost function Current(): Db
      reads this
    {
      Db(posts, cites)
    }

    method DeleteCitations(post: PostId, gone: set<PostId>)
      modifies this`cites
      ensures Current() == Removed(old(Current()), post, gone)
    {
      cites := map pair <- cites | !(pair.0 == post && pair.1 in gone) :: cites[pair];
    }

    method UpdateCitationCount(p: PostId)
      modifies this`posts
      ensures Current() == Recounted(old(Current()), {p})
    {
      var count := |set c <- posts | posts[c].live && (c, p) in cites|;
      assert (set c <- posts | posts[c].live && (c, p) in cites) == Citers(Current(), p);
      if p in posts {
        posts := posts[p := posts[p].(citationCount := count)];
      }
    }

    method RecountAll(affected: set<PostId>)
      modifies this`posts
      ensures Current() == Recounted(old(Current()), affected)
    {
      ghost var before, done := Current(), {};
      var todo := affected;
      RecountNone(before);
      while true
        invariant done + todo == affected && Current() == Recounted(before, done)
        decreases |todo|
      {
        if p :| p in todo {
          UpdateCitationCount(p);
          RecountMore(before, done, p);
          todo, done := todo - {p}, done + {p};
        } else {
          assert done == affected;
          break;
        }
      }
    }

    method InsertCitations(post: PostId, ids: set<PostId>, author: UserId)
      modifies this`cites
      ensures Current() == Inserted(old(Current()), post, ids, author)
    {
      cites := cites + NewRows(posts, post, ids, author);
    }

    /** One sync transaction: diff, delete, verify, insert, recount. existing is what the diff query
        returned; None means the insert failed and nothing changed. */
    method SyncPostCitations(post: PostId, ids: seq<PostId>, author: UserId, existing: set<PostId>) returns (ok: bool)
      requires Returned(Current(), post, existing)
      modifies this
      ensures ok == Sync(old(Current()), post, SetOf(Dedup(ids)), existing, author).Some?
      ensures ok ==> Current() == Sync(old(Current()), post, SetOf(Dedup(ids)), existing, author).value
      ensures ok ==> Synced(old(Current()), Current(), post, SetOf(ids), existing, author)
      ensures ok <==>
        !exists id :: id in ids && id !in existing && Live(old(Current()), id) && (post, id) in old(Current()).cites
      ensures !ok ==> Current() == old(Current())
      ensures CountsRight(old(Current())) ==> CountsRight(Current())
      ensures |Cited(old(Current()), post)| <= EXISTING_LIMIT ==>
        ok && Cited(Current(), post) == Wanted(old(Current()), post, SetOf(ids))
    {
      ghost var before := Current();
      var newIds := ParseCitedPostIds(ids);
      var wanted := SetOf(newIds);
      SyncOutcome(before, post, ids, existing, author);
      var insertable := FindLive(wanted - existing);
      if Clash(post, insertable) {
        return false;
      }
      DeleteCitations(post, existing - wanted);
      InsertCitations(post, insertable, author);
      RecountAll((wanted - existing) + (existing - wanted));
      return true;
    }

    // SELECT id, user_id FROM posts WHERE id = ANY(..) AND is_deleted = false
    function FindLive(ids: set<PostId>): (r: set<PostId>)
      reads this
      ensures r == set id <- ids | Live(Current(), id)
    {
      set id <- ids | id in posts && posts[id].live
    }

    predicate Clash(post: PostId, ids: set<PostId>)
      reads this
    {
      exists id <- ids :: (post, id) in cites
    }
  }

  lemma SyncOutcome(db: Db, post: PostId, ids: seq<PostId>, seen: set<PostId>, author: UserId)
    requires Returned(db, post, seen)
    ensures var result := Sync(db, post, SetOf(Dedup(ids)), seen, author);
            && (CountsRight(db) && result.Some? ==> CountsRight(result.value))
            && (result.Some? ==> Synced(db, result.value, post, SetOf(ids), seen, author))
            && (result.Some? <==> !exists id :: id in ids && id !in seen && Live(db, id) && (post, id) in db.cites)
            && (|Cited(db, post)| <= EXISTING_LIMIT ==>
            result.Some? && Cited(result.value, post) == Wanted(db, post, SetOf(ids)))
  {
    DedupKeepsFirsts(ids);
    var wanted := SetOf(Dedup(ids));
    assert wanted == SetOf(ids);
    if CountsRight(db) && Sync(db, post, wanted, seen, author).Some? {
      SyncKeepsCounts(db, post, wanted, seen, author);
    }
    if |Cited(db, post)| <= EXISTING_LIMIT {
      SyncExact(db, post, wanted, seen, author);
    }
    if Sync(db, post, wanted, seen, author).Some? {
      SyncInFields(db, post, wanted, seen, author);
    }
    hide Synced, Cited, CountsRight;
    assert forall id :: id in wanted - seen <==> id in ids && id !in seen;
  }

  lemma RecountNone(db: Db)
    ensures Recounted(db, {}) == db
  {
  }

  function SetOf(ids: seq<PostId>): set<PostId> {
    set id | id in ids
  }

  lemma RecountMore(db: Db, done: set<PostId>, p: PostId)
    ensures Recounted(Recounted(db, done), {p}) == Recounted(db, done + {p})
  {
    RecountKeepsCiters(db, done, p);
    assert Recounted(Recounted(db, done), {p}).posts == Recounted(db, done + {p}).posts;
  }
}

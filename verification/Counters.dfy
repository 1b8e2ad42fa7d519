/** Denormalised counters: comment_count and answer_count of posts, member_count of SIGs and
    vote_score of comments (backend/app/repositories/comment_repo.py, sig_repo.py, vote_repo.py), with
    the insert half of backend/app/services/comment.py. Each transaction is one step: it locks the
    row whose counter it changes. Deleting an account (backend/app/services/user.py) takes its comments,
    memberships and votes away and leaves the counters. */
module Counters {
  import opened Basics

  type PostId = nat
  type CommentId = nat
  type SigId = nat
  type UserId = nat

  const MAX_COMMENTS_PER_POST: nat := 200

  // The fields named lost are history: what went away with accounts and is still counted.
  datatype Post = Post(
    live: bool, sig: Option<SigId>, question: bool, commentCount: nat, answerCount: nat, lostComments: nat, lostAnswers: nat)
  datatype Comment = Comment(post: PostId, author: UserId, parent: Option<CommentId>, live: bool, score: int, lostScore: int)
  datatype Sig = Sig(live: bool, memberCount: nat, lost: nat)
  datatype Vote = Vote(comment: CommentId, user: UserId, value: int)

  // A membership row; leaving only marks it, and joining again adds another one. The unique index
  // covers the active rows.
  datatype Member = Member(sig: SigId, user: UserId, active: bool)

  datatype Forum = Forum(
    posts: map<PostId, Post>, comments: map<CommentId, Comment>, votes: seq<Vote>,
    sigs: map<SigId, Sig>, members: seq<Member>)

  // ---- What is counted ----

  function LiveOn(comments: map<CommentId, Comment>, p: PostId): set<CommentId> {
    set c <- comments | comments[c].post == p && comments[c].live
  }

  function AnswersOn(comments: map<CommentId, Comment>, p: PostId): set<CommentId> {
    set c <- comments | comments[c].post == p && comments[c].live && comments[c].parent.None?
  }

  function ActiveIn(members: seq<Member>, sig: SigId): set<UserId> {
    set m <- members | m.sig == sig && m.active :: m.user
  }

  // Rows of the SIG, or of one of its users, with is_deleted = false.
  function ActiveRows(members: seq<Member>, sig: SigId, user: Option<UserId>): nat {
    if members == [] then 0
    else (if Matches(members[0], sig, user) then 1 else 0) + ActiveRows(members[1..], sig, user)
  }

  predicate Matches(m: Member, sig: SigId, user: Option<UserId>) {
    m.active && m.sig == sig && (user.Some? ==> m.user == user.value)
  }

  function LiveComments(f: Forum, p: PostId): set<CommentId> {
    LiveOn(f.comments, p)
  }

  function LiveAnswers(f: Forum, p: PostId): set<CommentId> {
    AnswersOn(f.comments, p)
  }

  function Members(f: Forum, sig: SigId): set<UserId> {
    ActiveIn(f.members, sig)
  }

  function Score(votes: seq<Vote>, c: CommentId): int {
    if votes == [] then 0 else (if votes[0].comment == c then votes[0].value else 0) + Score(votes[1..], c)
  }

  // ---- Steps ----

  datatype Command =
    | CreatePost(post: PostId, home: Option<SigId>, question: bool)
    | AddComment(id: CommentId, post: PostId, author: UserId, parent: Option<CommentId>)
    | DeleteComment(id: CommentId, post: PostId, user: UserId, isAdmin: bool)
    | UpsertVote(comment: CommentId, user: UserId, vote: int)
    | CreateSig(sig: SigId, creator: UserId)
    | Join(sig: SigId, user: UserId)
    | Leave(sig: SigId, user: UserId)
    | DeleteSig(sig: SigId, missed: set<CommentId>)        // missed: committed after the UPDATE of the comments
    | DeleteAccount(user: UserId, posts: set<PostId>)      // and the posts of that user

  predicate Legal(f: Forum, c: Command) {
    match c
    case CreatePost(p, _, _) => p !in f.posts
    case AddComment(id, p, _, parent) =>
      && id !in f.comments && p in f.posts && f.posts[p].live && f.posts[p].commentCount < MAX_COMMENTS_PER_POST
      && (parent.Some? ==> parent.value in LiveComments(f, p))
    case DeleteComment(id, p, user, isAdmin) =>
      && p in f.posts && id in f.comments && f.comments[id].live && f.comments[id].post == p
      && (isAdmin || f.comments[id].author == user)
    case UpsertVote(id, _, _) => id in f.comments
    case CreateSig(sig, _) => sig !in f.sigs
    case Join(sig, user) => sig in f.sigs && f.sigs[sig].live && ActiveRows(f.members, sig, Some(user)) == 0
    case Leave(sig, user) => sig in f.sigs && ActiveRows(f.members, sig, Some(user)) > 0
    case DeleteSig(sig, _) => sig in f.sigs && f.sigs[sig].live
    case DeleteAccount(_, _) => true
  }

  // GREATEST(count - n, 0)
  function Less(count: nat, n: nat): nat {
    if count >= n then count - n else 0
  }

  function Replies(comments: map<CommentId, Comment>, id: CommentId, p: PostId): set<CommentId> {
    set c <- comments | comments[c].parent == Some(id) && comments[c].post == p && comments[c].live
  }

  // The comment, and its live replies if it is top-level.
  function Cascade(f: Forum, id: CommentId): set<CommentId>
    requires id in f.comments
  {
    if f.comments[id].parent.Some? then {id}
    else {id} + Replies(f.comments, id, f.comments[id].post)
  }

  function Hide(comments: map<CommentId, Comment>, gone: set<CommentId>): map<CommentId, Comment> {
    map c <- comments :: if c in gone then comments[c].(live := false) else comments[c]
  }

  function HidePosts(posts: map<PostId, Post>, gone: set<PostId>): map<PostId, Post> {
    map p <- posts :: if p in gone then posts[p].(live := false) else posts[p]
  }

  // UPDATE sig_members SET is_deleted = true, for a SIG or one of its users
  function Deactivated(members: seq<Member>, sig: SigId, user: Option<UserId>): seq<Member> {
    if members == [] then []
    else
      var first := if Matches(members[0], sig, user) then members[0].(active := false) else members[0];
      [first] + Deactivated(members[1..], sig, user)
  }

  // Position of the user's vote, |votes| if there is none.
  function Find(votes: seq<Vote>, c: CommentId, u: UserId): (i: nat)
    ensures i <= |votes|
    ensures i < |votes| ==> votes[i].comment == c && votes[i].user == u
    ensures forall j :: 0 <= j < i ==> !(votes[j].comment == c && votes[j].user == u)
  {
    if votes == [] || (votes[0].comment == c && votes[0].user == u) then 0 else 1 + Find(votes[1..], c, u)
  }

  function OldVote(votes: seq<Vote>, c: CommentId, u: UserId): int {
    var i := Find(votes, c, u);
    if i < |votes| then votes[i].value else 0
  }

  function Recorded(votes: seq<Vote>, c: CommentId, u: UserId, value: int): seq<Vote> {
    var i := Find(votes, c, u);
    if value == 0 then if i < |votes| then votes[..i] + votes[i + 1..] else votes
    else if i < |votes| then votes[i := Vote(c, u, value)]
    else votes + [Vote(c, u, value)]
  }

  // Votes on comments of other posts than these.
  function VotesOff(votes: seq<Vote>, dropped: set<CommentId>): seq<Vote> {
    if votes == [] then []
    else if votes[0].comment in dropped then VotesOff(votes[1..], dropped)
    else [votes[0]] + VotesOff(votes[1..], dropped)
  }

  function SigPosts(f: Forum, sig: SigId): set<PostId> {
    set p <- f.posts | f.posts[p].sig == Some(sig)
  }

  function CommentsOn(f: Forum, posts: set<PostId>): set<CommentId> {
    set c <- f.comments | f.comments[c].post in posts
  }

  // A command that is not legal does nothing.
  function Apply(f: Forum, c: Command): Forum {
    if !Legal(f, c) then f else
    match c
    case CreatePost(p, sig, question) => f.(posts := f.posts[p := Post(true, sig, question, 0, 0, 0, 0)])
    case AddComment(id, p, author, parent) =>
      var post := f.posts[p];
      f.(comments := f.comments[id := Comment(p, author, parent, true, 0, 0)],
         posts := f.posts[p := post.(commentCount := post.commentCount + 1,
                                     answerCount := post.answerCount + if parent.None? && post.question then 1 else 0)])
    case DeleteComment(id, p, _, _) =>
      var post, gone := f.posts[p], Cascade(f, id);
      var answers := if f.comments[id].parent.None? && post.question then 1 else 0;
      f.(comments := Hide(f.comments, gone),
         posts := f.posts[p := post.(commentCount := Less(post.commentCount, |gone|),
                                     answerCount := Less(post.answerCount, answers))])
    case UpsertVote(id, u, vote) =>
      f.(comments := f.comments[id := f.comments[id].(score := f.comments[id].score + (vote - OldVote(f.votes, id, u)))],
         votes := Recorded(f.votes, id, u, vote))
    case CreateSig(sig, creator) =>
      f.(sigs := f.sigs[sig := Sig(true, 1, 0)], members := f.members + [Member(sig, creator, true)])
    case Join(sig, u) =>
      f.(sigs := f.sigs[sig := f.sigs[sig].(memberCount := f.sigs[sig].memberCount + 1)],
         members := f.members + [Member(sig, u, true)])
    case Leave(sig, u) =>
      f.(members := Deactivated(f.members, sig, Some(u)),
         sigs := if ActiveRows(f.members, sig, Some(u)) != 1 then f.sigs
                 else f.sigs[sig := f.sigs[sig].(memberCount := Less(f.sigs[sig].memberCount, 1))])
    case DeleteSig(sig, missed) =>
      var posts := SigPosts(f, sig);
      var dropped := CommentsOn(f, posts) - missed;
      f.(sigs := f.sigs[sig := f.sigs[sig].(live := false)],
         votes := VotesOff(f.votes, dropped),
         comments := Hide(f.comments, dropped),
         posts := HidePosts(f.posts, posts),
         members := Deactivated(f.members, sig, None))
    case DeleteAccount(u, hers) => Orphaned(f, u, hers)
  }

  // ---- Deleting an account ----

  function LiveBy(comments: map<CommentId, Comment>, u: UserId): set<CommentId> {
    set c <- comments | comments[c].live && comments[c].author == u
  }

  // The votes of this user, or of the others.
  function VotesOf(votes: seq<Vote>, u: UserId, own: bool): seq<Vote> {
    if votes == [] then []
    else if (votes[0].user == u) == own then [votes[0]] + VotesOf(votes[1..], u, own)
    else VotesOf(votes[1..], u, own)
  }

  function WithoutUser(members: seq<Member>, u: UserId): seq<Member> {
    if members == [] then []
    else if members[0].user == u then WithoutUser(members[1..], u)
    else [members[0]] + WithoutUser(members[1..], u)
  }

  // The votes of the user go, the scores stay.
  function Unvoted(comments: map<CommentId, Comment>, votes: seq<Vote>, u: UserId): map<CommentId, Comment> {
    map c <- comments :: comments[c].(lostScore := comments[c].lostScore + Score(VotesOf(votes, u, true), c))
  }

  // The comments of the user go, the counters stay; so do the user's posts.
  function Uncommented(f: Forum, gone: set<CommentId>, hers: set<PostId>): map<PostId, Post> {
    map p <- f.posts :: f.posts[p].(
      live := f.posts[p].live && p !in hers,
      lostComments := f.posts[p].lostComments + |LiveComments(f, p) * gone|,
      lostAnswers := f.posts[p].lostAnswers + |LiveAnswers(f, p) * gone|)
  }

  function Unmanned(f: Forum, u: UserId): map<SigId, Sig> {
    map s <- f.sigs :: f.sigs[s].(lost := f.sigs[s].lost + ActiveRows(f.members, s, Some(u)))
  }

  function Orphaned(f: Forum, u: UserId, hers: set<PostId>): Forum {
    var gone := LiveBy(f.comments, u);
    Forum(Uncommented(f, gone, hers), Hide(Unvoted(f.comments, f.votes, u), gone), VotesOf(f.votes, u, false),
          Unmanned(f, u), WithoutUser(f.members, u))
  }

  // ---- Invariants ----

  ghost predicate Anchored(f: Forum) {
    && (forall c <- f.comments :: f.comments[c].post in f.posts)
    && (forall v <- f.votes :: v.comment in f.comments)
    && (forall m <- f.members :: m.sig in f.sigs)
  }

  ghost predicate PostCounted(f: Forum, p: PostId)
    requires p in f.posts
  {
    f.posts[p].live ==>
      && f.posts[p].commentCount == |LiveComments(f, p)| + f.posts[p].lostComments
      && (f.posts[p].question ==> f.posts[p].answerCount == |LiveAnswers(f, p)| + f.posts[p].lostAnswers)
  }

  ghost predicate SigCounted(f: Forum, sig: SigId)
    requires sig in f.sigs
  {
    f.sigs[sig].live ==> f.sigs[sig].memberCount == ActiveRows(f.members, sig, None) + f.sigs[sig].lost
  }

  ghost predicate Unique(votes: seq<Vote>) {
    forall i, j :: 0 <= i < j < |votes| ==> !(votes[i].comment == votes[j].comment && votes[i].user == votes[j].user)
  }

  ghost predicate VotesCounted(f: Forum) {
    && Unique(f.votes)
    && forall c <- f.comments :: f.comments[c].live ==> f.comments[c].score == Score(f.votes, c) + f.comments[c].lostScore
  }

  ghost predicate OneActive(members: seq<Member>) {
    forall i, j :: 0 <= i < j < |members| ==>
      !(members[i].active && members[j].active && members[i].sig == members[j].sig && members[i].user == members[j].user)
  }

  ghost predicate Inv(f: Forum) {
    && Anchored(f)
    && (forall p <- f.posts :: PostCounted(f, p))
    && OneActive(f.members)
    && (forall s <- f.sigs :: SigCounted(f, s))
    && VotesCounted(f)
  }

  // ---- Posts ----

  lemma RemoveMeet(a: set<CommentId>, gone: set<CommentId>, both: set<CommentId>)
    requires a * gone == both
    ensures |a - gone| == |a| - |both|
  {
  }

  lemma AddLive(comments: map<CommentId, Comment>, id: CommentId, c: Comment, p: PostId)
    requires id !in comments && c.live
    ensures LiveOn(comments[id := c], p) == LiveOn(comments, p) + if p == c.post then {id} else {}
    ensures AnswersOn(comments[id := c], p) ==
      AnswersOn(comments, p) + if p == c.post && c.parent.None? then {id} else {}
  {
  }

  lemma HideLive(comments: map<CommentId, Comment>, gone: set<CommentId>, p: PostId)
    ensures LiveOn(Hide(comments, gone), p) == LiveOn(comments, p) - gone
    ensures AnswersOn(Hide(comments, gone), p) == AnswersOn(comments, p) - gone
  {
  }

  lemma RescoreLive(comments: map<CommentId, Comment>, id: CommentId, score: int, p: PostId)
    requires id in comments
    ensures LiveOn(comments[id := comments[id].(score := score)], p) == LiveOn(comments, p)
    ensures AnswersOn(comments[id := comments[id].(score := score)], p) == AnswersOn(comments, p)
  {
  }

  // What a cascade hides is counted on its own post, and only the comment itself can be an answer.
  lemma CascadeIsLive(f: Forum, id: CommentId, p: PostId)
    requires id in f.comments && f.comments[id].live
    ensures LiveComments(f, p) * Cascade(f, id) == if p == f.comments[id].post then Cascade(f, id) else {}
    ensures LiveAnswers(f, p) * Cascade(f, id) ==
      if p == f.comments[id].post && f.comments[id].parent.None? then {id} else {}
  {
  }

  lemma AddCounts(f: Forum, c: Command, p: PostId)
    requires Inv(f) && c.AddComment? && Legal(f, c) && p in f.posts
    ensures PostCounted(Apply(f, c), p)
  {
    assert PostCounted(f, p);
    AddLive(f.comments, c.id, Comment(c.post, c.author, c.parent, true, 0, 0), p);
  }

  // Sizes after a cascade, on its own post and on the others.
  lemma CascadeSizes(f: Forum, id: CommentId, p: PostId)
    requires id in f.comments && f.comments[id].live
    ensures var gone := if p == f.comments[id].post then |Cascade(f, id)| else 0;
      |LiveOn(Hide(f.comments, Cascade(f, id)), p)| == |LiveComments(f, p)| - gone
    ensures var gone := if p == f.comments[id].post && f.comments[id].parent.None? then 1 else 0;
      |AnswersOn(Hide(f.comments, Cascade(f, id)), p)| == |LiveAnswers(f, p)| - gone
  {
    var gone, hit := Cascade(f, id), p == f.comments[id].post;
    HideLive(f.comments, gone, p);
    CascadeIsLive(f, id, p);
    hide LiveOn, AnswersOn, Hide, Cascade;
    RemoveMeet(LiveComments(f, p), gone, if hit then gone else {});
    RemoveMeet(LiveAnswers(f, p), gone, if hit && f.comments[id].parent.None? then {id} else {});
  }

  lemma DeleteCounts(f: Forum, c: Command, p: PostId)
    requires Inv(f) && c.DeleteComment? && Legal(f, c) && p in f.posts
    ensures PostCounted(Apply(f, c), p)
  {
    assert PostCounted(f, p);
    hide Inv, LiveOn, AnswersOn, Hide, Cascade;
    CascadeSizes(f, c.id, p);
  }

  lemma DeleteSigCounts(f: Forum, c: Command, p: PostId)
    requires Inv(f) && c.DeleteSig? && Legal(f, c) && p in f.posts
    ensures PostCounted(Apply(f, c), p)
  {
    var sig := c.sig;
    var dropped := CommentsOn(f, SigPosts(f, sig)) - c.missed;
    assert PostCounted(f, p);
    HideLive(f.comments, dropped, p);
    if p !in SigPosts(f, sig) {
      RemoveMeet(LiveComments(f, p), dropped, {});
      RemoveMeet(LiveAnswers(f, p), dropped, {});
    }
  }

  lemma UnvotedLive(comments: map<CommentId, Comment>, votes: seq<Vote>, u: UserId, p: PostId)
    ensures LiveOn(Unvoted(comments, votes, u), p) == LiveOn(comments, p)
    ensures AnswersOn(Unvoted(comments, votes, u), p) == AnswersOn(comments, p)
  {
  }

  lemma DeleteAccountCounts(f: Forum, c: Command, p: PostId)
    requires Inv(f) && c.DeleteAccount? && Legal(f, c) && p in f.posts
    ensures PostCounted(Apply(f, c), p)
  {
    var gone := LiveBy(f.comments, c.user);
    assert PostCounted(f, p);
    UnvotedLive(f.comments, f.votes, c.user, p);
    HideLive(Unvoted(f.comments, f.votes, c.user), gone, p);
    RemoveMeet(LiveComments(f, p), gone, LiveComments(f, p) * gone);
    RemoveMeet(LiveAnswers(f, p), gone, LiveAnswers(f, p) * gone);
    hide Unvoted, Hide, LiveBy, LiveOn, AnswersOn;
  }

  lemma CreateCounts(f: Forum, c: Command, p: PostId)
    requires Inv(f) && c.CreatePost? && Legal(f, c) && p in Apply(f, c).posts
    ensures PostCounted(Apply(f, c), p)
  {
  }

  lemma StepCountsPost(f: Forum, c: Command, p: PostId)
    requires Inv(f) && Legal(f, c) && p in Apply(f, c).posts
    ensures PostCounted(Apply(f, c), p)
  {
    match c
    case CreatePost(_, _, _) => CreateCounts(f, c, p);
    case AddComment(_, _, _, _) => AddCounts(f, c, p);
    case DeleteComment(_, _, _, _) => DeleteCounts(f, c, p);
    case DeleteSig(_, _) => DeleteSigCounts(f, c, p);
    case DeleteAccount(_, _) => DeleteAccountCounts(f, c, p);
    case UpsertVote(id, u, vote) =>
      assert PostCounted(f, p);
      RescoreLive(f.comments, id, Apply(f, c).comments[id].score, p);
    case _ => assert PostCounted(f, p);
  }

  // ---- SIGs ----

  lemma InMembers(members: seq<Member>, sig: SigId, u: UserId)
    ensures u in ActiveIn(members, sig) <==> Member(sig, u, true) in members
  {
    assert forall m <- members :: m.sig == sig && m.user == u && m.active ==> m == Member(sig, u, true);
  }

  lemma {:induction false} NoActiveRow(members: seq<Member>, sig: SigId, u: UserId)
    ensures ActiveRows(members, sig, Some(u)) == 0 <==> Member(sig, u, true) !in members
  {
    if members != [] {
      NoActiveRow(members[1..], sig, u);
      assert members == [members[0]] + members[1..];
    }
  }

  lemma {:induction false} AtMostOneRow(members: seq<Member>, sig: SigId, u: UserId)
    requires OneActive(members)
    ensures ActiveRows(members, sig, Some(u)) <= 1
  {
    if members != [] {
      AtMostOneRow(members[1..], sig, u);
      NoActiveRow(members[1..], sig, u);
      assert Matches(members[0], sig, Some(u)) ==> Member(sig, u, true) !in members[1..];
    }
  }

  lemma {:induction false} AppendRow(members: seq<Member>, m: Member, sig: SigId, user: Option<UserId>)
    ensures ActiveRows(members + [m], sig, user) == ActiveRows(members, sig, user) + if Matches(m, sig, user) then 1 else 0
  {
    if members == [] {
      assert members + [m] == [m];
    } else {
      AppendRow(members[1..], m, sig, user);
      assert (members + [m])[1..] == members[1..] + [m];
    }
  }

  lemma {:induction false} DeactivatedRows(members: seq<Member>, sig: SigId, user: Option<UserId>, s: SigId)
    ensures ActiveRows(Deactivated(members, sig, user), s, None) ==
      ActiveRows(members, s, None) - if s == sig then ActiveRows(members, sig, user) else 0
    ensures |Deactivated(members, sig, user)| == |members|
    ensures forall i :: 0 <= i < |members| ==>
      Deactivated(members, sig, user)[i] == if Matches(members[i], sig, user) then members[i].(active := false) else members[i]
  {
    if members != [] {
      DeactivatedRows(members[1..], sig, user, s);
      var rest := Deactivated(members[1..], sig, user);
      assert Deactivated(members, sig, user)[1..] == rest;
    }
  }

  lemma ActiveInCons(m: Member, rest: seq<Member>, sig: SigId)
    ensures ActiveIn([m] + rest, sig) == ActiveIn(rest, sig) + if Matches(m, sig, None) then {m.user} else {}
  {
    var members := [m] + rest;
    assert forall k <- rest :: k in members;
    assert m in members;
    assert forall k <- members :: k == m || k in rest;
  }

  // With one active row per user, active rows and active users are equally many.
  lemma {:induction false} RowsAreUsers(members: seq<Member>, sig: SigId)
    requires OneActive(members)
    ensures ActiveRows(members, sig, None) == |ActiveIn(members, sig)|
  {
    if members == [] {
      assert ActiveIn(members, sig) == {};
    } else {
      var m, rest := members[0], members[1..];
      RowsAreUsers(rest, sig);
      InMembers(rest, sig, m.user);
      assert members == [m] + rest;
      ActiveInCons(m, rest, sig);
      assert Matches(m, sig, None) ==> m == Member(sig, m.user, true) && m !in rest by {
        assert forall j :: 0 <= j < |rest| ==> members[j + 1] == rest[j];
      }
      hide ActiveIn;
    }
  }

  lemma DeactivatedKeepsOne(members: seq<Member>, sig: SigId, user: Option<UserId>)
    requires OneActive(members)
    ensures OneActive(Deactivated(members, sig, user))
  {
    DeactivatedRows(members, sig, user, sig);
  }

  lemma AppendKeepsOne(members: seq<Member>, sig: SigId, u: UserId)
    requires OneActive(members) && Member(sig, u, true) !in members
    ensures OneActive(members + [Member(sig, u, true)])
  {
    forall i | 0 <= i < |members|
      ensures !(members[i].active && members[i].sig == sig && members[i].user == u)
    {
      assert members[i] in members;
    }
  }

  lemma {:induction false} WithoutUserRows(members: seq<Member>, u: UserId, sig: SigId)
    ensures ActiveRows(WithoutUser(members, u), sig, None) == ActiveRows(members, sig, None) - ActiveRows(members, sig, Some(u))
    ensures forall m :: m in WithoutUser(members, u) <==> m in members && m.user != u
    ensures OneActive(members) ==> OneActive(WithoutUser(members, u))
  {
    if members != [] {
      var first, rest := members[0], members[1..];
      WithoutUserRows(rest, u, sig);
      assert members == [first] + rest;
      if OneActive(members) {
        OneActiveTail(first, rest);
        if first.user != u {
          OneActiveFront(first, WithoutUser(rest, u));
        }
      }
      assert ([first] + WithoutUser(rest, u))[1..] == WithoutUser(rest, u);
    }
  }

  // An active row in front of others, none of them active for the same user and SIG.
  lemma OneActiveTail(m: Member, rest: seq<Member>)
    requires OneActive([m] + rest)
    ensures OneActive(rest) && (m.active ==> Member(m.sig, m.user, true) !in rest)
  {
    var all := [m] + rest;
    forall i | 0 <= i < |rest|
      ensures rest[i] == all[i + 1] && (m.active ==> rest[i] != Member(m.sig, m.user, true))
    {
      assert all[0] == m;
    }
  }

  lemma OneActiveFront(m: Member, rest: seq<Member>)
    requires OneActive(rest) && (m.active ==> Member(m.sig, m.user, true) !in rest)
    ensures OneActive([m] + rest)
  {
    var all := [m] + rest;
    forall i, j | 0 <= i < j < |all|
      ensures !(all[i].active && all[j].active && all[i].sig == all[j].sig && all[i].user == all[j].user)
    {
      assert all[j] == rest[j - 1] && all[j] in rest;
      if i == 0 {
        assert all[j].active ==> all[j] == Member(all[j].sig, all[j].user, true);
      } else {
        assert all[i] == rest[i - 1];
      }
    }
  }

  lemma StepKeepsOneActive(f: Forum, c: Command)
    requires Anchored(f) && OneActive(f.members) && Legal(f, c)
    ensures OneActive(Apply(f, c).members)
  {
    match c
    case CreateSig(sig, creator) => AppendKeepsOne(f.members, sig, creator);
    case Join(sig, u) =>
      NoActiveRow(f.members, sig, u);
      AppendKeepsOne(f.members, sig, u);
    case Leave(sig, u) => DeactivatedKeepsOne(f.members, sig, Some(u));
    case DeleteSig(sig, _) => DeactivatedKeepsOne(f.members, sig, None);
    case DeleteAccount(u, _) => WithoutUserRows(f.members, u, 0);
    case _ =>
  }

  lemma {:induction false} NoRows(members: seq<Member>, known: set<SigId>, sig: SigId)
    requires sig !in known && forall m <- members :: m.sig in known
    ensures ActiveRows(members, sig, None) == 0
  {
    if members != [] {
      assert members[0] in members;
      NoRows(members[1..], known, sig);
    }
  }

  lemma StepCountsSig(f: Forum, c: Command, s: SigId)
    requires Inv(f) && Legal(f, c) && s in Apply(f, c).sigs
    ensures SigCounted(Apply(f, c), s)
  {
    assert s in f.sigs ==> SigCounted(f, s);
    match c
    case CreateSig(sig, creator) =>
      AppendRow(f.members, Member(sig, creator, true), s, None);
      if s == sig {
        NoRows(f.members, f.sigs.Keys, s);
      }
    case Join(sig, user) => AppendRow(f.members, Member(sig, user, true), s, None);
    case Leave(sig, user) =>
      AtMostOneRow(f.members, sig, user);
      DeactivatedRows(f.members, sig, Some(user), s);
    case DeleteSig(sig, _) => DeactivatedRows(f.members, sig, None, s);
    case DeleteAccount(u, _) => WithoutUserRows(f.members, u, s);
    case _ =>
  }

  // ---- Votes ----

  lemma {:induction false} ScoreConcat(a: seq<Vote>, b: seq<Vote>, c: CommentId)
    ensures Score(a + b, c) == Score(a, c) + Score(b, c)
  {
    if a == [] {
      assert a + b == b;
    } else {
      ScoreConcat(a[1..], b, c);
      assert (a + b)[1..] == a[1..] + b;
    }
  }

  lemma ScoreAt(votes: seq<Vote>, i: nat, c: CommentId)
    requires i < |votes|
    ensures Score(votes, c) == Score(votes[..i], c) + Score([votes[i]], c) + Score(votes[i + 1..], c)
  {
    assert votes == votes[..i] + ([votes[i]] + votes[i + 1..]);
    ScoreConcat(votes[..i], [votes[i]] + votes[i + 1..], c);
    ScoreConcat([votes[i]], votes[i + 1..], c);
  }

  /** Recording a vote moves the sum by the difference to the voter's old vote, on that comment only. */
  lemma RecordMoves(votes: seq<Vote>, id: CommentId, u: UserId, value: int, c: CommentId)
    ensures Score(Recorded(votes, id, u, value), c) ==
      Score(votes, c) + if c == id then value - OldVote(votes, id, u) else 0
  {
    var i := Find(votes, id, u);
    if i < |votes| {
      ScoreAt(votes, i, c);
      if value == 0 {
        ScoreConcat(votes[..i], votes[i + 1..], c);
      } else {
        var next := votes[i := Vote(id, u, value)];
        ScoreAt(next, i, c);
        assert next[..i] == votes[..i] && next[i + 1..] == votes[i + 1..];
      }
    } else if value != 0 {
      ScoreConcat(votes, [Vote(id, u, value)], c);
    }
  }

  lemma RecordedUnique(votes: seq<Vote>, id: CommentId, u: UserId, value: int)
    requires Unique(votes)
    ensures Unique(Recorded(votes, id, u, value))
  {
  }

  lemma RecordedHolds(votes: seq<Vote>, id: CommentId, u: UserId, value: int)
    ensures value != 0 ==> Vote(id, u, value) in Recorded(votes, id, u, value)
    ensures value == 0 && Unique(votes) ==>
      forall v <- Recorded(votes, id, u, value) :: !(v.comment == id && v.user == u)
  {
    var i, next := Find(votes, id, u), Recorded(votes, id, u, value);
    if value != 0 {
      assert next[if i < |votes| then i else |votes|] == Vote(id, u, value);
    }
  }

  lemma {:induction false} VotesOffScore(votes: seq<Vote>, dropped: set<CommentId>, c: CommentId)
    requires c !in dropped
    ensures Score(VotesOff(votes, dropped), c) == Score(votes, c)
  {
    if votes != [] {
      VotesOffScore(votes[1..], dropped, c);
      assert ([votes[0]] + VotesOff(votes[1..], dropped))[1..] == VotesOff(votes[1..], dropped);
    }
  }

  lemma {:induction false} VotesOffSubset(votes: seq<Vote>, dropped: set<CommentId>)
    ensures forall v <- VotesOff(votes, dropped) :: v in votes
    ensures Unique(votes) ==> Unique(VotesOff(votes, dropped))
  {
    if votes != [] {
      VotesOffSubset(votes[1..], dropped);
      assert Unique(votes) ==>
        Unique(votes[1..]) && forall v <- votes[1..] :: !(v.comment == votes[0].comment && v.user == votes[0].user);
    }
  }

  lemma {:induction false} NoVotes(votes: seq<Vote>, known: set<CommentId>, c: CommentId)
    requires c !in known && forall v <- votes :: v.comment in known
    ensures Score(votes, c) == 0
  {
    if votes != [] {
      assert votes[0] in votes;
      NoVotes(votes[1..], known, c);
    }
  }

  lemma {:induction false} VotesOfSplit(votes: seq<Vote>, u: UserId, c: CommentId)
    ensures Score(votes, c) == Score(VotesOf(votes, u, true), c) + Score(VotesOf(votes, u, false), c)
  {
    if votes != [] {
      var first, rest := votes[0], votes[1..];
      VotesOfSplit(rest, u, c);
      assert ([first] + VotesOf(rest, u, true))[1..] == VotesOf(rest, u, true);
      assert ([first] + VotesOf(rest, u, false))[1..] == VotesOf(rest, u, false);
    }
  }

  lemma {:induction false} VotesOfOthers(votes: seq<Vote>, u: UserId)
    ensures forall v :: v in VotesOf(votes, u, false) <==> v in votes && v.user != u
    ensures Unique(votes) ==> Unique(VotesOf(votes, u, false))
  {
    if votes != [] {
      var first, rest := votes[0], votes[1..];
      VotesOfOthers(rest, u);
      assert votes == [first] + rest;
      if Unique(votes) {
        assert Unique(rest) && forall v <- rest :: !(v.comment == first.comment && v.user == first.user);
      }
    }
  }

  lemma AccountVotesCounted(f: Forum, u: UserId)
    requires VotesCounted(f)
    ensures VotesCounted(Orphaned(f, u, {}))
  {
    forall c <- f.comments {
      VotesOfSplit(f.votes, u, c);
    }
    VotesOfOthers(f.votes, u);
  }

  lemma StepCountsVotes(f: Forum, c: Command)
    requires Inv(f) && Legal(f, c)
    ensures VotesCounted(Apply(f, c))
  {
    var next := Apply(f, c);
    match c
    case UpsertVote(id, u, vote) =>
      RecordedUnique(f.votes, id, u, vote);
      forall x <- next.comments {
        RecordMoves(f.votes, id, u, vote, x);
      }
    case DeleteAccount(u, _) => AccountVotesCounted(f, u);
    case DeleteSig(sig, missed) =>
      var dropped := CommentsOn(f, SigPosts(f, sig)) - missed;
      VotesOffSubset(f.votes, dropped);
      forall x <- next.comments | x !in dropped {
        VotesOffScore(f.votes, dropped, x);
      }
    case AddComment(id, _, _, _) => NoVotes(f.votes, f.comments.Keys, id);
    case _ =>
  }

  lemma StepKeepsAnchored(f: Forum, c: Command)
    requires Anchored(f) && Legal(f, c)
    ensures Anchored(Apply(f, c))
  {
    match c
    case DeleteAccount(u, hers) => AccountKeepsAnchored(f, u, hers);
    case DeleteSig(_, _) => DeleteSigKeepsAnchored(f, c);
    case UpsertVote(_, _, _) => VoteKeepsAnchored(f, c);
    case Leave(sig, u) => DeactivatedRows(f.members, sig, Some(u), sig);
    case _ =>
  }

  lemma AccountKeepsAnchored(f: Forum, u: UserId, hers: set<PostId>)
    requires Anchored(f)
    ensures Anchored(Orphaned(f, u, hers))
  {
    VotesOfOthers(f.votes, u);
    WithoutUserRows(f.members, u, 0);
  }

  lemma DeleteSigKeepsAnchored(f: Forum, c: Command)
    requires Anchored(f) && c.DeleteSig? && Legal(f, c)
    ensures Anchored(Apply(f, c))
  {
    VotesOffSubset(f.votes, CommentsOn(f, SigPosts(f, c.sig)) - c.missed);
    DeactivatedRows(f.members, c.sig, None, c.sig);
  }

  lemma VoteKeepsAnchored(f: Forum, c: Command)
    requires Anchored(f) && c.UpsertVote? && Legal(f, c)
    ensures Anchored(Apply(f, c))
  {
  }

  lemma StepKeepsInv(f: Forum, c: Command)
    requires Inv(f)
    ensures Inv(Apply(f, c))
  {
    if Legal(f, c) {
      StepKeepsAnchored(f, c);
      StepKeepsOneActive(f, c);
      forall p <- Apply(f, c).posts {
        StepCountsPost(f, c, p);
      }
      forall s <- Apply(f, c).sigs {
        StepCountsSig(f, c, s);
      }
      StepCountsVotes(f, c);
    }
  }

  // ---- Runs ----

  type Run = RunOf<Command>

  function Exec(run: Run): Forum {
    match run
    case Start => Forum(map[], map[], [], map[], [])
    case Then(before, c) => Apply(Exec(before), c)
  }

  lemma {:induction false} RunKeepsInv(run: Run)
    ensures Inv(Exec(run))
  {
    if run.Then? {
      RunKeepsInv(run.before);
      StepKeepsInv(Exec(run.before), run.cmd);
    }
  }

  /** In every run, through cascading deletes, SIG deletion and account deletion, a live post's comment_count is
      its number of live comments and of those that went with their author's account, and likewise a live
      question's answer_count. */
  lemma CommentsCounted(run: Run, p: PostId)
    requires var f := Exec(run); p in f.posts && f.posts[p].live
    ensures var f := Exec(run);
            && f.posts[p].commentCount == |LiveComments(f, p)| + f.posts[p].lostComments
            && (f.posts[p].question ==> f.posts[p].answerCount == |LiveAnswers(f, p)| + f.posts[p].lostAnswers)
  {
    RunKeepsInv(run);
    assert PostCounted(Exec(run), p);
  }

  // No account was deleted that had a live comment on p.
  ghost predicate AuthorsStay(run: Run, p: PostId) {
    run.Then? ==>
      && AuthorsStay(run.before, p)
      && (run.cmd.DeleteAccount? ==> LiveComments(Exec(run.before), p) * LiveBy(Exec(run.before).comments, run.cmd.user) == {})
  }

  lemma {:induction false} NothingLostIff(run: Run, p: PostId)
    requires p in Exec(run).posts
    ensures Exec(run).posts[p].lostComments == 0 <==> AuthorsStay(run, p)
  {
    if run.Then? {
      var f := Exec(run.before);
      if p in f.posts {
        NothingLostIff(run.before, p);
        if run.cmd.DeleteAccount? {
          var both := LiveComments(f, p) * LiveBy(f.comments, run.cmd.user);
          assert |both| == 0 <==> both == {};
        }
      } else {
        NoPostNoLoss(run.before, p);
      }
    }
  }

  // A post that is not there yet has no comments.
  lemma {:induction false} NoPostNoLoss(run: Run, p: PostId)
    requires p !in Exec(run).posts
    ensures AuthorsStay(run, p)
  {
    if run.Then? {
      NoPostNoLoss(run.before, p);
      RunKeepsInv(run.before);
      assert LiveComments(Exec(run.before), p) == {};
    }
  }

  /** A live post's comment_count is its number of live comments if and only if no account was deleted that had
      one of them. */
  lemma CommentsRightIff(run: Run, p: PostId)
    requires var f := Exec(run); p in f.posts && f.posts[p].live
    ensures Exec(run).posts[p].commentCount == |LiveComments(Exec(run), p)| <==> AuthorsStay(run, p)
  {
    CommentsCounted(run, p);
    NothingLostIff(run, p);
  }

  /** The limit is checked on the counter and holds for the comments themselves. */
  lemma {:induction false} CommentsCapped(run: Run, p: PostId)
    requires p in Exec(run).posts && Exec(run).posts[p].live
    ensures |LiveComments(Exec(run), p)| <= MAX_COMMENTS_PER_POST
  {
    CountCapped(run, p);
    CommentsCounted(run, p);
  }

  lemma {:induction false} CountCapped(run: Run, p: PostId)
    requires p in Exec(run).posts
    ensures Exec(run).posts[p].commentCount <= MAX_COMMENTS_PER_POST
  {
    if run.Then? && p in Exec(run.before).posts {
      CountCapped(run.before, p);
    }
  }

  /** A live SIG's member_count is its number of active members, each counted once however often they
      have left and come back, and of those whose account was deleted while they were active. */
  lemma MembersCounted(run: Run, s: SigId)
    requires var f := Exec(run); s in f.sigs && f.sigs[s].live
    ensures Exec(run).sigs[s].memberCount == |Members(Exec(run), s)| + Exec(run).sigs[s].lost
  {
    RunKeepsInv(run);
    assert SigCounted(Exec(run), s);
    RowsAreUsers(Exec(run).members, s);
  }

  // No account of an active member of s was deleted.
  ghost predicate MembersStay(run: Run, s: SigId) {
    run.Then? ==> MembersStay(run.before, s) && (run.cmd.DeleteAccount? ==> run.cmd.user !in Members(Exec(run.before), s))
  }

  lemma {:induction false} NoneLostIff(run: Run, s: SigId)
    requires s in Exec(run).sigs
    ensures Exec(run).sigs[s].lost == 0 <==> MembersStay(run, s)
  {
    if run.Then? {
      var f := Exec(run.before);
      if s in f.sigs {
        NoneLostIff(run.before, s);
        if run.cmd.DeleteAccount? {
          NoActiveRow(f.members, s, run.cmd.user);
          InMembers(f.members, s, run.cmd.user);
        }
      } else {
        NoSigNoMembers(run.before, s);
      }
    }
  }

  lemma {:induction false} NoSigNoMembers(run: Run, s: SigId)
    requires s !in Exec(run).sigs
    ensures MembersStay(run, s)
  {
    if run.Then? {
      NoSigNoMembers(run.before, s);
      RunKeepsInv(run.before);
      assert Members(Exec(run.before), s) == {};
    }
  }

  /** A live SIG's member_count is its number of active members if and only if no account of an active member
      was deleted. */
  lemma MembersRightIff(run: Run, s: SigId)
    requires var f := Exec(run); s in f.sigs && f.sigs[s].live
    ensures Exec(run).sigs[s].memberCount == |Members(Exec(run), s)| <==> MembersStay(run, s)
  {
    MembersCounted(run, s);
    NoneLostIff(run, s);
  }

  /** The founder of a SIG deletes the account: the SIG has one member by its counter, and none. */
  lemma DeletedFounderMiscounts() returns (run: Run)
    ensures 1 in Exec(run).sigs && Exec(run).sigs[1].live && Exec(run).sigs[1].memberCount == 1
    ensures Members(Exec(run), 1) == {}
  {
    var first := Then(Start, CreateSig(1, 7));
    run := Then(first, DeleteAccount(7, {}));
    assert Exec(first).members == [Member(1, 7, true)] && Exec(first).sigs[1] == Sig(true, 1, 0);
    WithoutUserRows(Exec(first).members, 7, 1);
    assert forall m <- Exec(run).members :: m in Exec(first).members && m.user != 7;
    assert 1 in Exec(run).sigs;
  }

  /** A live comment's vote_score is the sum of its votes, one per user, and of the votes that went with the
      accounts of their voters. */
  lemma ScoresCounted(run: Run, c: CommentId)
    requires var f := Exec(run); c in f.comments && f.comments[c].live
    ensures Unique(Exec(run).votes)
    ensures Exec(run).comments[c].score == Score(Exec(run).votes, c) + Exec(run).comments[c].lostScore
  {
    RunKeepsInv(run);
  }

  /** Deleting an account moves the sum of a comment's votes by that user's vote and leaves the score. */
  lemma AccountMovesSum(run: Run, u: UserId, hers: set<PostId>, c: CommentId)
    requires c in Exec(run).comments
    ensures var f, next := Exec(run), Apply(Exec(run), DeleteAccount(u, hers));
      next.comments[c].score == f.comments[c].score && Score(next.votes, c) == Score(f.votes, c) - OldVote(f.votes, c, u)
  {
    RunKeepsInv(run);
    var votes := Exec(run).votes;
    hide Exec, Score, VotesOf, OldVote, ActiveRows;
    VotesOfSplit(votes, u, c);
    OwnVote(votes, u, c);
  }

  lemma {:induction false} OwnVote(votes: seq<Vote>, u: UserId, c: CommentId)
    requires Unique(votes)
    ensures Score(VotesOf(votes, u, true), c) == OldVote(votes, c, u)
  {
    if votes != [] {
      var first, rest := votes[0], votes[1..];
      assert Unique(rest) && forall v <- rest :: !(v.comment == first.comment && v.user == first.user);
      OwnVote(rest, u, c);
      assert ([first] + VotesOf(rest, u, true))[1..] == VotesOf(rest, u, true);
    }
  }

  /** No GREATEST(.., 0) ever changes a counter: a deletion takes away what was counted. */
  lemma ClampsNeverBite(run: Run, c: Command)
    requires Legal(Exec(run), c)
    ensures var f := Exec(run);
      && (c.DeleteComment? && f.posts[c.post].live ==> |Cascade(f, c.id)| <= f.posts[c.post].commentCount)
      && (c.DeleteComment? && f.posts[c.post].live && f.posts[c.post].question && f.comments[c.id].parent.None? ==>
          1 <= f.posts[c.post].answerCount)
      && (c.Leave? && f.sigs[c.sig].live ==> 1 <= f.sigs[c.sig].memberCount)
  {
    var f := Exec(run);
    RunKeepsInv(run);
    match c
    case DeleteComment(id, p, _, _) =>
      assert PostCounted(f, p);
      CascadeIsLive(f, id, p);
      RemoveMeet(LiveComments(f, p), Cascade(f, id), Cascade(f, id));
    case Leave(sig, user) =>
      assert SigCounted(f, sig);
      DeactivatedRows(f.members, sig, Some(user), sig);
    case _ =>
  }

  // ---- Leaving and coming back ----

  /** A member of a live SIG who leaves can join again, which restores the members and the count and
      leaves one more row, the deleted one. */
  lemma RejoinRestores(run: Run, sig: SigId, u: UserId)
    requires var f := Exec(run); Legal(f, Leave(sig, u)) && f.sigs[sig].live
    ensures var f, left := Exec(run), Then(run, Leave(sig, u));
            var back := Exec(Then(left, Join(sig, u)));
      && u !in Members(Exec(left), sig) && Legal(Exec(left), Join(sig, u))
      && Members(back, sig) == Members(f, sig) && back.sigs[sig] == f.sigs[sig] && |back.members| == |f.members| + 1
  {
    var f, left := Exec(run), Then(run, Leave(sig, u));
    var back := Exec(Then(left, Join(sig, u)));
    RunKeepsInv(run);
    AtMostOneRow(f.members, sig, u);
    DeactivatedRows(f.members, sig, Some(u), sig);
    NoActiveRow(f.members, sig, u);
    NoActiveRow(Exec(left).members, sig, u);
    assert SigCounted(f, sig);
    forall v: UserId
      ensures v in Members(Exec(left), sig) <==> v in Members(f, sig) && v != u
    {
      InMembers(Exec(left).members, sig, v);
      InMembers(f.members, sig, v);
      LeftRow(f.members, sig, u, v);
    }
    InMembers(f.members, sig, u);
    assert back.members == Exec(left).members + [Member(sig, u, true)];
    assert Members(back, sig) == Members(Exec(left), sig) + {u};
  }

  lemma {:induction false} NothingToLeave(members: seq<Member>, sig: SigId, u: UserId)
    ensures ActiveRows(members, sig, Some(u)) == 0 ==> Deactivated(members, sig, Some(u)) == members
  {
    if members != [] {
      NothingToLeave(members[1..], sig, u);
    }
  }

  lemma {:induction false} LeftRow(members: seq<Member>, sig: SigId, u: UserId, v: UserId)
    ensures Member(sig, v, true) in Deactivated(members, sig, Some(u)) <==> Member(sig, v, true) in members && v != u
  {
    if members != [] {
      LeftRow(members[1..], sig, u, v);
      assert members == [members[0]] + members[1..];
    }
  }

  /** Deleting a SIG drops the votes on its comments but not their scores: a deleted comment keeps the
      score it had, though it has no votes any more. */
  lemma DeletedScoresStay(run: Run, sig: SigId, missed: set<CommentId>, c: CommentId)
    requires var f := Exec(run); Legal(f, DeleteSig(sig, missed)) && c in CommentsOn(f, SigPosts(f, sig)) - missed
    ensures var next := Apply(Exec(run), DeleteSig(sig, missed));
            next.comments[c].score == Exec(run).comments[c].score && Score(next.votes, c) == 0 && !next.comments[c].live
  {
    var f := Exec(run);
    var dropped := CommentsOn(f, SigPosts(f, sig)) - missed;
    NoVotesLeft(f.votes, dropped, c);
  }

  lemma {:induction false} NoVotesLeft(votes: seq<Vote>, dropped: set<CommentId>, c: CommentId)
    requires c in dropped
    ensures Score(VotesOff(votes, dropped), c) == 0
  {
    if votes != [] {
      NoVotesLeft(votes[1..], dropped, c);
      assert ([votes[0]] + VotesOff(votes[1..], dropped))[1..] == VotesOff(votes[1..], dropped);
    }
  }

  // ---- What each transaction does to the rows, field by field ----

  /** The comment goes, with the replies to it on the same post if it is top-level, and the counters of that post fall
      by as many; every other comment, post, vote, SIG and membership stays as it is. */
  ghost predicate CommentDeleted(f: Forum, g: Forum, id: CommentId)
    requires id in f.comments
  {
    var gone := set c <- f.comments | f.comments[c].live && (c == id || AnswersTo(f.comments[c], f.comments[id], id));
    && g.votes == f.votes && g.sigs == f.sigs && g.members == f.members
    && g.comments.Keys == f.comments.Keys
    && (forall c <- f.comments :: g.comments[c] == f.comments[c].(live := f.comments[c].live && c !in gone))
    && g.posts.Keys == f.posts.Keys
    && forall p <- f.posts :: g.posts[p] ==
         if p != f.comments[id].post then f.posts[p]
         else f.posts[p].(
           commentCount := Max(0, f.posts[p].commentCount - |gone|),
           answerCount := if f.posts[p].question && f.comments[id].parent == None then Max(0, f.posts[p].answerCount - 1)
                          else f.posts[p].answerCount)
  }

  predicate AnswersTo(c: Comment, top: Comment, id: CommentId) {
    top.parent == None && c.parent == Some(id) && c.post == top.post
  }

  lemma DeletionInFields(f: Forum, c: Command)
    requires c.DeleteComment? && Legal(f, c)
    ensures CommentDeleted(f, Apply(f, c), c.id)
  {
    var id := c.id;
    var gone := set x <- f.comments | f.comments[x].live && (x == id || AnswersTo(f.comments[x], f.comments[id], id));
    assert gone == Cascade(f, id);
    hide Cascade, AnswersTo;
  }

  /** The voter's vote on the comment becomes the new one, or goes if that is 0, and the score moves by the
      difference; every other vote and comment stays. */
  ghost predicate Voted(f: Forum, g: Forum, id: CommentId, u: UserId, vote: int)
    requires id in f.comments
  {
    && g.posts == f.posts && g.sigs == f.sigs && g.members == f.members
    && (forall v :: v in g.votes <==>
          if v.comment == id && v.user == u then vote != 0 && v.value == vote else v in f.votes)
    && id in g.comments && g.comments == f.comments[id := f.comments[id].(score := g.comments[id].score)]
    && (forall v <- f.votes :: v.comment == id && v.user == u ==> g.comments[id].score == f.comments[id].score + vote - v.value)
    && ((forall v <- f.votes :: !(v.comment == id && v.user == u)) ==> g.comments[id].score == f.comments[id].score + vote)
  }

  lemma VoteInFields(f: Forum, c: Command)
    requires c.UpsertVote? && Legal(f, c) && Unique(f.votes)
    ensures Voted(f, Apply(f, c), c.comment, c.user, c.vote)
  {
    var id, u, vote := c.comment, c.user, c.vote;
    RecordedMembers(f.votes, id, u, vote);
    OldVoteIs(f.votes, id, u);
    hide Recorded, OldVote, Unique;
  }

  lemma OldVoteIs(votes: seq<Vote>, id: CommentId, u: UserId)
    requires Unique(votes)
    ensures forall v <- votes :: v.comment == id && v.user == u ==> v.value == OldVote(votes, id, u)
    ensures (forall v <- votes :: !(v.comment == id && v.user == u)) ==> OldVote(votes, id, u) == 0
  {
    var i := Find(votes, id, u);
    forall v <- votes | v.comment == id && v.user == u
      ensures v.value == OldVote(votes, id, u)
    {
      var j :| 0 <= j < |votes| && votes[j] == v;
      assert j == i;
    }
  }

  lemma RecordedMembers(votes: seq<Vote>, id: CommentId, u: UserId, vote: int)
    requires Unique(votes)
    ensures forall v :: v in Recorded(votes, id, u, vote) <==>
      if v.comment == id && v.user == u then vote != 0 && v.value == vote else v in votes
  {
    var i, next := Find(votes, id, u), Recorded(votes, id, u, vote);
    RecordedHolds(votes, id, u, vote);
    RecordedUnique(votes, id, u, vote);
    forall v
      ensures v in next <==> if v.comment == id && v.user == u then vote != 0 && v.value == vote else v in votes
    {
      if v.comment == id && v.user == u {
        if v in next && vote != 0 {
          var j, k :| 0 <= j < |next| && next[j] == v && 0 <= k < |next| && next[k] == Vote(id, u, vote);
          assert j == k;
        }
      } else if v in votes {
        var j :| 0 <= j < |votes| && votes[j] == v;
        assert j != i;
        assert next[if vote == 0 && i < j then j - 1 else j] == v;
      }
    }
  }

  /** The member leaves this SIG, whose count falls by one; nobody else and no other SIG is touched. */
  ghost predicate MemberLeft(f: Forum, g: Forum, sig: SigId, u: UserId)
    requires sig in f.sigs
  {
    && g.posts == f.posts && g.comments == f.comments && g.votes == f.votes && |g.members| == |f.members|
    && g.sigs == f.sigs[sig := f.sigs[sig].(memberCount := Max(0, f.sigs[sig].memberCount - 1))]
    && forall s, v :: v in Members(g, s) <==> v in Members(f, s) && !(s == sig && v == u)
  }

  lemma LeaveInFields(f: Forum, c: Command)
    requires c.Leave? && Legal(f, c) && OneActive(f.members)
    ensures MemberLeft(f, Apply(f, c), c.sig, c.user)
  {
    AtMostOneRow(f.members, c.sig, c.user);
    DeactivatedRows(f.members, c.sig, Some(c.user), c.sig);
    forall s, v
      ensures v in Members(Apply(f, c), s) <==> v in Members(f, s) && !(s == c.sig && v == c.user)
    {
      InMembers(Apply(f, c).members, s, v);
      InMembers(f.members, s, v);
      RowAfterLeave(f.members, c.sig, c.user, s, v);
    }
  }

  lemma {:induction false} RowAfterLeave(members: seq<Member>, sig: SigId, u: UserId, s: SigId, v: UserId)
    ensures Member(s, v, true) in Deactivated(members, sig, Some(u)) <==>
      Member(s, v, true) in members && !(s == sig && v == u)
  {
    if members != [] {
      RowAfterLeave(members[1..], sig, u, s, v);
      assert members == [members[0]] + members[1..];
    }
  }

  /** The SIG, its posts, its members and the comments on its posts go, with the votes on these comments, but for the
      comments that were missed; other SIGs, posts, comments, votes and members stay, and so do all counters. */
  ghost predicate SigDeleted(f: Forum, g: Forum, sig: SigId, missed: set<CommentId>)
    requires sig in f.sigs
  {
    && g.sigs == f.sigs[sig := f.sigs[sig].(live := false)]
    && g.posts.Keys == f.posts.Keys && g.comments.Keys == f.comments.Keys
    && (forall p <- f.posts :: g.posts[p] == f.posts[p].(live := f.posts[p].live && f.posts[p].sig != Some(sig)))
    && (forall c <- f.comments ::
          g.comments[c] == f.comments[c].(live := f.comments[c].live && (c in missed || !OnSig(f, c, sig))))
    && (forall v :: v in g.votes <==> v in f.votes && (v.comment in missed || !OnSig(f, v.comment, sig)))
    && forall s, v :: v in Members(g, s) <==> v in Members(f, s) && s != sig
  }

  predicate OnSig(f: Forum, c: CommentId, sig: SigId) {
    c in f.comments && f.comments[c].post in f.posts && f.posts[f.comments[c].post].sig == Some(sig)
  }

  lemma SigDeletionInFields(f: Forum, c: Command)
    requires c.DeleteSig? && Legal(f, c)
    ensures SigDeleted(f, Apply(f, c), c.sig, c.missed)
  {
    var dropped := CommentsOn(f, SigPosts(f, c.sig)) - c.missed;
    assert forall x :: x in dropped <==> OnSig(f, x, c.sig) && x !in c.missed;
    VotesOffMembers(f.votes, dropped);
    forall s, v
      ensures v in Members(Apply(f, c), s) <==> v in Members(f, s) && s != c.sig
    {
      InMembers(Apply(f, c).members, s, v);
      InMembers(f.members, s, v);
      RowAfterSig(f.members, c.sig, s, v);
    }
    hide OnSig, CommentsOn, SigPosts, VotesOff, Deactivated, ActiveIn;
  }

  lemma {:induction false} VotesOffMembers(votes: seq<Vote>, dropped: set<CommentId>)
    ensures forall v :: v in VotesOff(votes, dropped) <==> v in votes && v.comment !in dropped
  {
    if votes != [] {
      VotesOffMembers(votes[1..], dropped);
      assert votes == [votes[0]] + votes[1..];
    }
  }

  lemma {:induction false} RowAfterSig(members: seq<Member>, sig: SigId, s: SigId, v: UserId)
    ensures Member(s, v, true) in Deactivated(members, sig, None) <==> Member(s, v, true) in members && s != sig
  {
    if members != [] {
      RowAfterSig(members[1..], sig, s, v);
      assert members == [members[0]] + members[1..];
    }
  }

  /** The comments, votes, memberships and posts of the account go; every counter and score stays. */
  ghost predicate AccountDeleted(f: Forum, g: Forum, u: UserId, hers: set<PostId>) {
    && g.comments.Keys == f.comments.Keys && g.posts.Keys == f.posts.Keys && g.sigs.Keys == f.sigs.Keys
    && (forall c <- f.comments ::
          var live := f.comments[c].live && f.comments[c].author != u;
          g.comments[c] == f.comments[c].(live := live, lostScore := g.comments[c].lostScore))
    && (forall p <- f.posts :: g.posts[p] == f.posts[p].(
          live := f.posts[p].live && p !in hers,
          lostComments := g.posts[p].lostComments, lostAnswers := g.posts[p].lostAnswers))
    && (forall s <- f.sigs :: g.sigs[s] == f.sigs[s].(lost := g.sigs[s].lost))
    && (forall v :: v in g.votes <==> v in f.votes && v.user != u)
    && (forall m :: m in g.members <==> m in f.members && m.user != u)
  }

  lemma AccountInFields(f: Forum, u: UserId, hers: set<PostId>)
    ensures AccountDeleted(f, Apply(f, DeleteAccount(u, hers)), u, hers)
  {
    hide VotesOf, WithoutUser, Hide, Unvoted, LiveBy, Uncommented, Unmanned, Apply, Orphaned;
    hide Legal, ActiveRows, Unique, OneActive, Score;
    OrphanedIs(f, u, hers);
    VotesOfOthers(f.votes, u);
    WithoutUserRows(f.members, u, 0);
    AccountComments(f.comments, f.votes, u);
    AccountPosts(f, LiveBy(f.comments, u), hers);
    AccountSigs(f, u);
  }

  lemma OrphanedIs(f: Forum, u: UserId, hers: set<PostId>)
    ensures var g, gone := Apply(f, DeleteAccount(u, hers)), LiveBy(f.comments, u);
      && g.posts == Uncommented(f, gone, hers) && g.comments == Hide(Unvoted(f.comments, f.votes, u), gone)
      && g.votes == VotesOf(f.votes, u, false) && g.sigs == Unmanned(f, u) && g.members == WithoutUser(f.members, u)
  {
  }

  lemma AccountComments(comments: map<CommentId, Comment>, votes: seq<Vote>, u: UserId)
    ensures var after := Hide(Unvoted(comments, votes, u), LiveBy(comments, u));
      && after.Keys == comments.Keys
      && forall c <- comments :: after[c] == comments[c].(
           live := comments[c].live && comments[c].author != u, lostScore := after[c].lostScore)
  {
    hide VotesOf, Score;
  }

  lemma AccountPosts(f: Forum, gone: set<CommentId>, hers: set<PostId>)
    ensures var after := Uncommented(f, gone, hers);
      && after.Keys == f.posts.Keys
      && forall p <- f.posts :: after[p] == f.posts[p].(
           live := f.posts[p].live && p !in hers, lostComments := after[p].lostComments, lostAnswers := after[p].lostAnswers)
  {
    hide LiveOn, AnswersOn;
  }

  lemma AccountSigs(f: Forum, u: UserId)
    ensures var after := Unmanned(f, u);
      after.Keys == f.sigs.Keys && forall s <- f.sigs :: after[s] == f.sigs[s].(lost := after[s].lost)
  {
    hide ActiveRows;
  }

  // ---- The repository functions ----

  datatype JoinResult = Joined | SigNotFound | AlreadyActive

  // A live post below the limit, with what went with accounts, and a live parent on the same post if there is one.
  ghost predicate Commentable(f: Forum, p: PostId, parent: Option<CommentId>) {
    && p in f.posts && f.posts[p].live && |LiveComments(f, p)| + f.posts[p].lostComments < MAX_COMMENTS_PER_POST
    && (parent.Some? ==> parent.value in LiveComments(f, p))
  }

  class Repository {
    var posts: map<PostId, Post>
    var comments: map<CommentId, Comment>
    var votes: seq<Vote>
    var sigs: map<SigId, Sig>
    var members: seq<Member>
    ghost var log: Run

    ghost function Current(): Forum
      reads this
    {
      Forum(posts, comments, votes, sigs, members)
    }

    ghost predicate Valid()
      reads this
    {
      Current() == Exec(log)
    }

    constructor ()
      ensures Valid() && log == Start
    {
      posts, comments, votes, sigs, members, log := map[], map[], [], map[], [], Start;
    }

    // comment_repo.insert with the checks and increments around it; allowed is allow_comments of the post.
    method AddComment(id: CommentId, p: PostId, author: UserId, parent: Option<CommentId>,
        allowed: bool) returns (ok: bool)
      requires Valid() && id !in comments
      modifies this`comments, this`posts, this`log
      ensures Valid() && log == if allowed then Then(old(log), Command.AddComment(id, p, author, parent)) else old(log)
      ensures ok <==> allowed && Commentable(old(Current()), p, parent)
      ensures ok ==> LiveComments(Current(), p) == LiveComments(old(Current()), p) + {id}
      ensures ok ==> comments == old(comments)[id := Comment(p, author, parent, true, 0, 0)]
      ensures ok ==>
        var post := old(posts)[p];
        var answers := if parent.None? && post.question then 1 else 0;
        posts == old(posts)[p := post.(commentCount := post.commentCount + 1, answerCount := post.answerCount + answers)]
      ensures !ok ==> Current() == old(Current())
      ensures p in posts && posts[p].live ==>
        posts[p].commentCount == |LiveComments(Current(), p)| + posts[p].lostComments
    {
      hide LiveOn, AnswersOn, Exec;
      if p in posts && posts[p].live {
        CommentsCounted(log, p);
      }
      MayIsLegal(id, p, author, parent);
      ok := allowed && MayComment(p, parent);
      if ok {
        AddLive(comments, id, Comment(p, author, parent, true, 0, 0), p);
        Insert(id, p, author, parent);
      }
      if allowed {
        LogStep(Command.AddComment(id, p, author, parent));
      }
      if p in posts && posts[p].live {
        CommentsCounted(log, p);
      }
    }

    // The checks on the post and the parent.
    predicate MayComment(p: PostId, parent: Option<CommentId>)
      reads this
    {
      && p in posts && posts[p].live && posts[p].commentCount < MAX_COMMENTS_PER_POST
      && (parent.Some? ==> parent.value in comments && comments[parent.value].post == p && comments[parent.value].live)
    }

    lemma MayIsLegal(id: CommentId, p: PostId, author: UserId, parent: Option<CommentId>)
      requires id !in comments
      ensures MayComment(p, parent) <==> Legal(Current(), Command.AddComment(id, p, author, parent))
    {
    }

    method Insert(id: CommentId, p: PostId, author: UserId, parent: Option<CommentId>)
      requires id !in comments && MayComment(p, parent)
      modifies this`comments, this`posts
      ensures Current() == Apply(old(Current()), Command.AddComment(id, p, author, parent))
      ensures comments == old(comments)[id := Comment(p, author, parent, true, 0, 0)]
      ensures var post := old(posts)[p];
        var answers := if parent.None? && post.question then 1 else 0;
        posts == old(posts)[p := post.(commentCount := post.commentCount + 1, answerCount := post.answerCount + answers)]
    {
      var post := posts[p];
      comments := comments[id := Comment(p, author, parent, true, 0, 0)];
      posts := posts[p := post.(commentCount := post.commentCount + 1)];
      if parent.None? && post.question {
        posts := posts[p := posts[p].(answerCount := posts[p].answerCount + 1)];
      }
    }

    ghost method LogStep(c: Command)
      requires Current() == Apply(Exec(log), c)
      modifies this`log
      ensures Valid() && log == Then(old(log), c)
    {
      log := Then(log, c);
    }

    lemma InLive(id: CommentId, p: PostId)
      ensures id in LiveComments(Current(), p) <==> id in comments && comments[id].post == p && comments[id].live
    {
    }

    /** soft_delete: the comment, its replies if it is top-level, and both counters. */
    method SoftDeleteComment(id: CommentId, p: PostId, user: UserId, isAdmin: bool) returns (found: bool)
      requires Valid() && p in posts
      modifies this`comments, this`posts, this`log
      ensures Valid() && log == Then(old(log), DeleteComment(id, p, user, isAdmin))
      ensures found <==> id in LiveComments(old(Current()), p) && (isAdmin || old(comments)[id].author == user)
      ensures found ==> CommentDeleted(old(Current()), Current(), id)
      ensures !found ==> Current() == old(Current())
      ensures posts[p].live ==> posts[p].commentCount == |LiveComments(Current(), p)| + posts[p].lostComments
    {
      hide Hide, Replies, CommentDeleted, Exec, LiveOn;
      InLive(id, p);
      found := id in comments && comments[id].post == p && comments[id].live && (isAdmin || comments[id].author == user);
      if found {
        var topLevel := comments[id].parent.None?;
        var gone := {id};
        if topLevel {
          gone := {id} + Replies(comments, id, p);
        }
        comments := Hide(comments, gone);
        posts := posts[p := posts[p].(commentCount := Less(posts[p].commentCount, |gone|))];
        if topLevel && posts[p].question {
          posts := posts[p := posts[p].(answerCount := Less(posts[p].answerCount, 1))];
        }
      }
      if found {
        DeletionInFields(old(Current()), DeleteComment(id, p, user, isAdmin));
      }
      LogStep(DeleteComment(id, p, user, isAdmin));
      if posts[p].live {
        CommentsCounted(log, p);
      }
    }

    method SetVote(id: CommentId, u: UserId, vote: int)
      requires id in comments
      modifies this`comments, this`votes
      ensures Current() == Apply(old(Current()), Command.UpsertVote(id, u, vote))
    {
      var at := Find(votes, id, u);
      var value := if at < |votes| then votes[at].value else 0;
      comments := comments[id := comments[id].(score := comments[id].score + (vote - value))];
      votes := Recorded(votes, id, u, vote);
    }

    // upsert_vote; None if there is no such comment.
    method UpsertVote(id: CommentId, u: UserId, vote: int) returns (score: Option<int>)
      requires Valid()
      modifies this`comments, this`votes, this`log
      ensures Valid() && log == Then(old(log), Command.UpsertVote(id, u, vote))
      ensures score.Some? <==> id in comments
      ensures score.Some? && comments[id].live ==> score.value == Score(votes, id) + comments[id].lostScore
      ensures score.Some? && vote != 0 ==> Vote(id, u, vote) in votes
      ensures score.Some? && vote == 0 && Unique(old(votes)) ==> forall v <- votes :: !(v.comment == id && v.user == u)
      ensures score.None? ==> Current() == old(Current())
      ensures score.Some? ==> Voted(old(Current()), Current(), id, u, vote) && score.value == comments[id].score
    {
      score := None;
      if id in comments {
        RecordedHolds(votes, id, u, vote);
        RunKeepsInv(log);
        VoteInFields(Current(), Command.UpsertVote(id, u, vote));
        SetVote(id, u, vote);
        score := Some(comments[id].score);
      }
      log := Then(log, Command.UpsertVote(id, u, vote));
      if id in comments && comments[id].live {
        ScoresCounted(log, id);
      }
    }

    method JoinMember(sig: SigId, u: UserId) returns (result: JoinResult)
      requires Valid()
      modifies this`members, this`sigs, this`log
      ensures Valid() && log == Then(old(log), Join(sig, u))
      ensures result == SigNotFound <==> !(sig in old(sigs) && old(sigs)[sig].live)
      ensures result == AlreadyActive <==> result != SigNotFound && u in Members(old(Current()), sig)
      ensures result == Joined ==> u in Members(Current(), sig)
      ensures result == Joined ==> members == old(members) + [Member(sig, u, true)]
      ensures result == Joined ==> sigs == old(sigs)[sig := old(sigs)[sig].(memberCount := old(sigs)[sig].memberCount + 1)]
      ensures result != Joined ==> Current() == old(Current())
      ensures sig in sigs && sigs[sig].live ==> sigs[sig].memberCount == |Members(Current(), sig)| + sigs[sig].lost
    {
      InMembers(members, sig, u);
      NoActiveRow(members, sig, u);
      if sig !in sigs || !sigs[sig].live {
        result := SigNotFound;
      } else if ActiveRows(members, sig, Some(u)) > 0 {
        result := AlreadyActive;
      } else {
        members := members + [Member(sig, u, true)];
        sigs := sigs[sig := sigs[sig].(memberCount := sigs[sig].memberCount + 1)];
        result := Joined;
      }
      log := Then(log, Join(sig, u));
      InMembers(members, sig, u);
      if sig in sigs && sigs[sig].live {
        MembersCounted(log, sig);
      }
    }

    // remove_member and delete_member
    method RemoveMember(sig: SigId, u: UserId) returns (removed: bool)
      requires Valid() && sig in sigs
      modifies this`members, this`sigs, this`log
      ensures Valid() && log == Then(old(log), Leave(sig, u))
      ensures removed <==> u in Members(old(Current()), sig)
      ensures removed ==> MemberLeft(old(Current()), Current(), sig, u)
      ensures !removed ==> Current() == old(Current())
      ensures u !in Members(Current(), sig)
      ensures sig in sigs && (sigs[sig].live ==> sigs[sig].memberCount == |Members(Current(), sig)| + sigs[sig].lost)
    {
      RunKeepsInv(log);
      InMembers(members, sig, u);
      NoActiveRow(members, sig, u);
      AtMostOneRow(members, sig, u);
      LeftRow(members, sig, u, u);
      NothingToLeave(members, sig, u);
      removed := ActiveRows(members, sig, Some(u)) == 1;
      members := Deactivated(members, sig, Some(u));
      if removed {
        sigs := sigs[sig := sigs[sig].(memberCount := Less(sigs[sig].memberCount, 1))];
      }
      if removed {
        LeaveInFields(old(Current()), Leave(sig, u));
      }
      log := Then(log, Leave(sig, u));
      InMembers(members, sig, u);
      if sigs[sig].live {
        MembersCounted(log, sig);
      }
    }

    /** sig_repo.soft_delete. missed are comments that others commit between its UPDATE of the comments and that
        of the posts: they stay live on a deleted post. */
    method SoftDeleteSig(sig: SigId, missed: set<CommentId>) returns (deleted: bool)
      requires Valid()
      modifies this
      ensures Valid() && log == Then(old(log), DeleteSig(sig, missed))
      ensures deleted <==> sig in old(sigs) && old(sigs)[sig].live
      ensures deleted ==> SigDeleted(old(Current()), Current(), sig, missed)
      ensures !deleted ==> Current() == old(Current())
    {
      deleted := sig in sigs && sigs[sig].live;
      if deleted {
        sigs := sigs[sig := sigs[sig].(live := false)];
        var sigPosts := set p <- posts | posts[p].sig == Some(sig);
        var dropped := (set c <- comments | comments[c].post in sigPosts) - missed;
        votes := VotesOff(votes, dropped);
        comments := Hide(comments, dropped);
        posts := HidePosts(posts, sigPosts);
        members := Deactivated(members, sig, None);
        assert sigPosts == SigPosts(old(Current()), sig) && dropped == CommentsOn(old(Current()), sigPosts) - missed;
        SigDeletionInFields(old(Current()), DeleteSig(sig, missed));
      }
      log := Then(log, DeleteSig(sig, missed));
    }
  }
}

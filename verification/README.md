# Protocols of the forum backend, in Dafny

The backend keeps its invariants in small protocols: sequences of Redis commands with other requests
between them, PostgreSQL transactions under row and advisory locks, loops over pages and batches, and a
few string transformations. This project models those protocols and proves what they keep, over every
interleaving the model allows.

How the code is mirrored:

- A concurrent protocol is a state machine. `Command` lists the steps that change the shared state, `Apply`
  is one step, a `Run` is any sequence of steps, `Legal` says which steps the code can send. One
  transaction, Lua script or Redis command is one step; every `await` between two of them is a place where
  other requests act.
- The service and repository functions are methods of a class whose fields are what Redis and the database
  hold. A ghost `own` keeps the commands a method sends itself apart from those of others. Where there is a step machine (sessions, idempotency, conversations, advisory locks, quotas, counters,
  blocks, the event bus, notifications), a ghost `log` or `run` records the steps; `Interference` stands for
  the other requests at an `await`, and its contract says only that the log grew. These methods are proved to
  log legal steps, so the lemmas about all runs are about them. The citation store and the rate limiter keep
  no log: their methods are proved against functions of their state.
- Protocols that one transaction per step would hide are split further in a module of their own: the
  statements of overlapping citation syncs, the table and cache steps of overlapping block calls, and the
  count and the insert of a block.
- Loops are loops: batches, paging, refund folds, retries and deduplication have their invariants. Pure code
  is functions and lemmas.
- Clocks, random identifiers, failing infrastructure and foreign code are parameters: times are numbers that
  never go back, JTIs and row ids are fresh values, an outcome such as `redisUp` says whether a call got
  through.

| file | what it models |
|---|---|
| AuthSessions.dfy | login, logout, revocation, heartbeat and validation over session keys and the JTI blacklist |
| Idempotency.dfy | the Idempotency-Key middleware on one Redis key |
| DmBuffer.dfy | the bounded text buffer of a conversation and its running counter |
| PostPages.dfy | an OFFSET page followed by cursor pages, against the sorted list |
| CursorCodec.dfy | the cursor: UTF-8, base64url, bars, UUID |
| FormBatches.dfy | streaming responses in batches while the table changes |
| LikeEscape.dfy | escaping for ILIKE, against a LIKE matcher |
| AdvisoryCaps.dfy | respondent and co-author limits under advisory locks |
| Listings.dfy | what ORDER BY without a full tie-breaker may return, and slices of it |
| PhotoBatches.dfy | OFFSET batches of an album's photos and the fold into refunds |
| Quota.dfy | bytes charged to users over uploads, deletions and late refunds |
| Citations.dfy | citation diff, deduplication and counts |
| CitationRuns.dfy | citation syncs that overlap, statement by statement |
| Counters.dfy | comment, answer, member and vote counters |
| BlockCache.dfy | the cache of bilateral blocks, one call at a time |
| BlockOverlaps.dfy | the same cache under calls that overlap |
| BlockLimit.dfy | the limit on blocks under concurrent requests |
| RateLimit.dfy | the fixed-window rate limiter |
| EventBus.dfy | the retrying event bus, its failure list and redaction |
| Notifications.dfy | retryable handlers with dedup keys |
| Streak.dfy | the longest run of consecutive commit days |
| Basics.dfy | optional values, Max and Min, runs, sizes of sets |

Where a promise of the code turned out not to hold in general, the code is modelled as it is, the exact
condition is proved, and a lemma gives the failing case:

- A login between the GET and the DELETE of a logout, if still in place, loses its session
  (`LogoutDeleteIsPrecise`, `LogoutCanDropFreshLogin`). Safety is not affected: no dead token ever comes back.
- The fixed twelve-hour blacklist covers every token exactly when no role's lifetime is longer
  (`LogoutBlacklistCoversIff`); it is not needed for the verdict (`BlacklistIsRedundant`).
- A handler that takes 30 seconds breaks the exclusion of requests with one key, and can erase the answer
  another request stored (`MarkerTtlIsExact`, `SlowHandlerBreaksExclusion`). When Redis does not answer the
  first read, the handler runs although another one is in flight or an answer is stored (`OneAtATimeIff`,
  `StoredAnswerQuietIff`, `BypassBreaksExclusion`).
- Messages with equal timestamps can keep a trim from freeing anything, and a conversation then exceeds its
  cap (`TrimFreesEnoughIff`, `TiesCanBlockTrim`, `CapIff`, `SendFitsIff`, `TiedSendsOverflow`). The counter
  stays right.
- Equal sort values on a page boundary lose or repeat posts, because ORDER BY and the cursor break ties
  differently, and ORDER BY has no last tie-breaker (`PagesShowOnceIff`, `TiedLikesLosePost`,
  `TiedTimesLosePost`).
- Photos with equal timestamps on a batch boundary may be gathered twice or never when an album is deleted
  (`BatchesExactIff`); the refunds are then wrong for some order if and only if those photos are not all
  charged alike (`RefundsFairIff`, `DeletionConservesIff`, `TiedUploadsUnbalance`).
- With more than 5000 citations, a sync is exact only under a narrow condition (`SyncExactIff`,
  `LimitKeepsCitation`); syncs that overlap on a post can leave a stale count (`CountRightIff`,
  `CitationRuns.OverlapMiscounts`).
- Deleting an account takes comments, memberships and votes away without the counters (`CommentsRightIff`,
  `MembersRightIff`, `AccountMovesSum`, `DeletedFounderMiscounts`).
- A reader without a connection pool, as most callers are, sees nobody blocked once the key has expired
  (`WholeIff`, `UnharmedIsWhole`, `MissHidesBlock`); an unblock that commits and loses its cache update leaves
  the other one reported (`SoundIff`, `LostUpdateReports`).
- A block made after the cache key expired hides the earlier blocks, and lifting one of two mutual blocks
  hides the other (`StaysWholeIff`, `ExpiredKeyHidesBlock`, `MutualUnblockHidesBlock`). A read or a block
  that crosses an unblock leaves somebody reported when all calls are over (`CoveredIff`, `BlockOverlaps.OverlapOverreaches`,
  `LateBlockOverreaches`).
- Counting the blocks inside the transaction does not keep concurrent requests from passing the limit
  together (`LimitHoldsIff`, `OvershootAttained`).
- A handler that sets its dedup key before sending takes its own retry for a duplicate
  (`MarkFirstLosesIff`, `FailedSendIsLost`). Past a hundred notifications a minute create_notification skips
  silently, and both handlers take that for a notification (`OkNotifiesIff`, `SkippedCountsAsSent`,
  `SkippedSendIsLost`).

Comments in the code that disagree with it: block_user says that its count inside the transaction prevents
concurrent blocks from both passing, which is the failing case above; the blacklist comment in auth.py
speaks of an 8 h maximum while the lifetimes are settings, so they are parameters here; insert_response
describes a locked count as its guarantee, but the advisory lock alone carries the argument here (PostgreSQL
does not accept FOR UPDATE with an aggregate). models/sig.py still declares a unique (sig, user) pair that
would forbid joining a SIG again; the migration m50_schema_fixes_320003.py replaced it by an index over
active rows, which is modelled.

## Model

| member | source | states |
|---|---|---|
| AuthSessions.BlacklistIsRedundant | backend/app/services/auth.py:129-142 | At every moment of every run a token validates exactly when its session key holds it, and only under the user and role it was issued to |
| AuthSessions.NeverValidatesAgain | backend/app/services/auth.py:48-142 | A token that once fails to validate (replaced, logged out, revoked, expired) never validates again under any key, whatever runs in between |
| AuthSessions.AcceptedTokenNeverReturns | backend/app/services/auth.py:48-87 | At most one token per user and role validates at a moment, and one that gave way to another never comes back |
| AuthSessions.RevokedForever | backend/app/services/auth.py:337-351 | After the revocation pipeline no token issued to the user up to then ever validates, also one installed after the MGET |
| AuthSessions.LoginGrants | backend/app/services/auth.py:62-68 | Right after its swap the new token is the one and only token that validates under its key |
| AuthSessions.ValidUntilRemoved | backend/app/services/auth.py:48-142 | A token stays accepted exactly as long as no login, delete or revocation hits its key and no tick passes its deadline |
| AuthSessions.LastsExactly | backend/app/services/auth.py:62-126 | Undisturbed, a login lasts exactly its lifetime, a heartbeat starts that time anew, and a blacklist entry lasts exactly its own |
| AuthSessions.LogoutBlacklistCoversIff | backend/app/services/auth.py:112-113 | In all runs every blacklist entry outlives the token it names if and only if no role's lifetime exceeds 12 hours |
| AuthSessions.ShortBlacklistRun | backend/app/services/auth.py:90-115 | With a longer lifetime a login and a logout give a blacklist entry that ends before its token |
| AuthSessions.LogoutDeleteIsPrecise | backend/app/services/auth.py:97-108 | A logout reads its token under the key and deletes the key later; the DELETE ends no other session if and only if no login under that key since the read is still in place |
| AuthSessions.FindLogin | backend/app/services/auth.py:97-108 | If the key holds another token than at the read, a login since then put it there and nothing has ended it |
| AuthSessions.EmptyReadSparesAll | backend/app/services/auth.py:97-113 | A logout that found its key empty ends no session by any command of its own, whoever logs in or out between its commands; one that found its token touches no other key |
| AuthSessions.LogoutCanDropFreshLogin | backend/app/services/auth.py:97-108 | A legal run in which a login between GET and DELETE loses its session |
| AuthSessions.SessionService.CreateSession | backend/app/services/auth.py:48-87 | Login under any interference: returns the displaced token as of the swap; that token is dead and blacklisted for max(8 h, lifetime) on return |
| AuthSessions.SessionService.DestroySession | backend/app/services/auth.py:90-115 | Logout under any interference, with its own commands: the blacklist entry alone if the key was found empty, the DELETE and then the entry if it held the token, nothing if it held another; the token is dead on return |
| AuthSessions.SessionService.RefreshSessionTtl | backend/app/services/auth.py:118-126 | One EXPIRE: true exactly if the session is alive, which then lives for the role's lifetime; never changes which token is stored |
| AuthSessions.SessionService.ValidateSession | backend/app/services/auth.py:129-142 | The two reads are linearizable: the answer is what an instantaneous check gives at some moment of the call |
| AuthSessions.SessionService.RevokeUserSessions | backend/app/services/auth.py:337-351 | Blacklists what the MGET read for the user and leaves every token ever issued to the user dead, under any interference |
| AuthSessions.BlacklistAll | backend/app/services/auth.py:344-349 | The queued pipeline writes blacklist exactly the queued tokens |
| AuthSessions.DeleteAllRoles | backend/app/services/auth.py:340-349 | Deleting the key of every role removes all sessions of the user and no other |
| Idempotency.ReplaysAreReal | backend/app/middleware/idempotency.py:75-154 | Whatever is replayed was produced by a handler run for that key, with or without expired markers |
| Idempotency.OnlyFinalAnswersStored | backend/app/middleware/idempotency.py:119-141 | In every run an answer that is stored or replayed has a 2xx status, or a 4xx status other than 429 |
| Idempotency.WrittenLastsExactly | backend/app/middleware/idempotency.py:12-13 | A written answer is what the key replays for 300 s and no longer, a claim holds the key for 30 s, if nobody interferes |
| Idempotency.OnlyTheseTouchKey | backend/app/middleware/idempotency.py:95-154 | Only claims and written responses touch the key; a handler that raises leaves its marker, a bypass changes nothing |
| Idempotency.OneAtATimeIff | backend/app/middleware/idempotency.py:55-100 | If no marker expires while its request is in flight, handlers for a key run one at a time, those after a failed read included, if and only if each bypass starts when nothing is in flight and no request is admitted until it ends |
| Idempotency.AtMostOneInFlight | backend/app/middleware/idempotency.py:75-154 | If no marker expires while its request is in flight, then whatever bypasses the key at most one admitted request is in flight, and as long as there is one no other is admitted |
| Idempotency.StoredAnswerStands | backend/app/middleware/idempotency.py:75-154 | If no marker expires while its request is in flight, a stored answer stays in place and no request is admitted until the entry expires; the handlers that run are those that bypass the key |
| Idempotency.StoredAnswerQuietIff | backend/app/middleware/idempotency.py:55-83 | While the entry lives no handler runs for the key if and only if no read of the key fails |
| Idempotency.BypassBreaksExclusion | backend/app/middleware/idempotency.py:55-60 | Legal runs without expired markers in which a failed read puts a second handler beside the first, and runs a handler although an answer is stored |
| Idempotency.MarkerTtlIsExact | backend/app/middleware/idempotency.py:12-13 | Requests bounded by a time limit exclude each other in all runs without overlapping bypasses if and only if the limit is below the 30 s marker |
| Idempotency.SlowHandlerBreaksExclusion | backend/app/middleware/idempotency.py:95-154 | A run in which a slow handler overlaps with another request and then erases the answer that one stored |
| Idempotency.UsersNeverShareAKey | backend/app/middleware/idempotency.py:53-72 | Two users never share a Redis key, whatever their identifiers contain |
| Idempotency.ReadBody | backend/app/middleware/idempotency.py:113-126 | Reading the chunks yields the whole body in order and its size |
| Idempotency.Middleware.Dispatch | backend/app/middleware/idempotency.py:55-154 | One request under any interference, with its own commands, whatever Redis answers to the read, the claim and the write: replay exactly when an answer is cached at the first read, conflict only when the key is taken, else the own response, after which the key holds it for 300 s if it is JSON of at most 512 KB with a 2xx status or a 4xx status other than 429, and is empty otherwise; after a failed read the handler runs as a bypass, and after a lost claim the request fails |
| Idempotency.Middleware.RunUnkeyed | backend/app/middleware/idempotency.py:55-60 | When the read fails the handler runs all the same, logged as a bypass from its start to its end |
| DmBuffer.TrimTakesOldest | backend/app/repositories/dm_repo.py:424-448 | The window-function trim deletes a prefix in time: what is older than a deleted message goes too |
| DmBuffer.TrimSelects | backend/app/repositories/dm_repo.py:424-448 | With distinct timestamps a trim deletes the messages with text before which less than the excess was sent and those without text before which no more was, recalled ones never |
| DmBuffer.OnlyTextCounts | backend/app/repositories/dm_repo.py:424-448 | A message counts with its number of characters, and not at all if it is recalled or has an attachment only |
| DmBuffer.BeforeCounts | backend/app/repositories/dm_repo.py:424-448 | The text sent before a moment is that of the messages with an earlier created_at |
| DmBuffer.TrimFreesEnoughIff | backend/app/repositories/dm_repo.py:424-448 | The trim frees what is needed of the excess it was asked for, or all text, if and only if ties at the crossing timestamp are long enough |
| DmBuffer.TrimIsMinimal | backend/app/repositories/dm_repo.py:424-448 | Sparing the newest deleted text message would free less than the excess |
| DmBuffer.DistinctTimesFreeEnough | backend/app/repositories/dm_repo.py:424-448 | With distinct timestamps the trim always frees at least min(excess, kept text) |
| DmBuffer.TiesCanBlockTrim | backend/app/repositories/dm_repo.py:424-448 | Two messages with one timestamp from which the trim frees nothing |
| DmBuffer.CounterHolds | backend/app/repositories/dm_repo.py:463-647 | Over all interleavings of sends that commit or roll back, recalls, expiries, prunings and late decrements, with whatever timestamps: counter = kept text + decrements still pending |
| DmBuffer.CapIff | backend/app/repositories/dm_repo.py:463-647 | At every moment of a run the text fits the cap and a send that has trimmed has room, if and only if the excess of no trim falls among messages of one timestamp that do not make up what is needed |
| DmBuffer.OwnTimesNeverJam | backend/app/repositories/dm_repo.py:463-647 | If no message is sent with a timestamp another one of the conversation has, no trim jams, through rollbacks and recalls |
| DmBuffer.SendFitsIff | backend/app/repositories/dm_repo.py:463-647 | An undisturbed send with no decrement pending keeps the cap if and only if its excess does not fall into such a tie |
| DmBuffer.TiedSendsOverflow | backend/app/repositories/dm_repo.py:463-647 | A legal run of three sends after which the text is over the cap |
| DmBuffer.CapAndCounterHold | backend/app/repositories/dm_repo.py:463-647 | In every run the counter is the kept text plus the decrements still pending; the kept text stays within the cap if no trim jams on a tie, in particular if each message has a timestamp of its own |
| DmBuffer.RollbackUndoesSend | backend/app/repositories/dm_repo.py:463-647 | A send that rolls back after its deduction leaves the same rows and the same counter |
| DmBuffer.FloorNeverBites | backend/app/repositories/dm_repo.py:402-410 | In no run does GREATEST(0, ..) change the counter |
| DmBuffer.TrimRows | backend/app/repositories/dm_repo.py:424-460 | The DELETE keeps and returns exactly the rows its predicate selects, with their total length |
| DmBuffer.ConversationStore.SendMessageAtomic | backend/app/repositories/dm_repo.py:463-647 | A send with others between its statements, statement by statement: it asks for what the counter and the message are over the cap, deletes exactly the rows the predicate selects, deducts their length, adds the message and counts it, and does nothing else; the text then fits the cap unless the trim jammed on a tie |
| DmBuffer.ConversationStore.DeleteOldestMessagesByChars | backend/app/repositories/dm_repo.py:413-460 | The kept text drops by at least the requested amount or to nothing, if and only if ties at the crossing timestamp are long enough, and the counter by the same as the text |
| DmBuffer.ConversationStore.RecallMessage | backend/app/repositories/dm_repo.py:314-336 | Exactly the message with this id loses text and attachment, every other row stays as it is, the counter stays and the difference is owed; tells whether there was such a message |
| DmBuffer.RecallOwesOne | backend/app/repositories/dm_repo.py:314-336 | Recalling a message owes the counter the length of that message alone, and nothing if it was recalled before |
| DmBuffer.ConversationStore.DeleteMessagesByIds | backend/app/repositories/dm_repo.py:745-753 | Exactly the rows with these ids go; the result is their number; the text they held is owed |
| DmBuffer.ConversationStore.IncrementCharCount | backend/app/repositories/dm_repo.py:402-410 | A decrement pays off exactly that much of the debt |
| PostPages.PagesShowOnceIff | backend/app/repositories/post_repo.py:300-503 | First OFFSET page plus cursor pages show each matching post exactly once, for every way the statements may arrange equal posts, if and only if every page boundary is clear: no pinned post behind it, no tie across it, and created_at and id order agreeing among posts with the boundary's primary value |
| PostPages.ClearPagesInOrder | backend/app/repositories/post_repo.py:22-48 | With clear boundaries the posts also come in ORDER BY order |
| PostPages.ClearFinds | backend/app/repositories/post_repo.py:362-400 | At a clear boundary the last post of any arrangement is a cursor that finds exactly the rest of any other arrangement |
| PostPages.FindsIsClear | backend/app/repositories/post_repo.py:362-400 | If in every arrangement the cursor finds exactly the rest, the boundary is clear |
| PostPages.VisitedGathers | backend/app/repositories/post_repo.py:346-503 | With clear boundaries following next_cursor until has_more is false yields one slice of each statement's own arrangement, to the end |
| PostPages.FilterThenSortArises | backend/app/repositories/post_repo.py:362-409 | A statement that filters by the cursor and then sorts returns what some arrangement of all matching posts leaves behind the cursor |
| PostPages.OrderBySorts | backend/app/repositories/post_repo.py:22-48 | There is an arrangement: sorted by the sort's keys and holding exactly the given rows |
| PostPages.ListingInOrder | backend/app/repositories/post_repo.py:22-28 | ORDER BY, in the fields of the posts: pinned first, then by date, newest or oldest first, or by likes, comments or answers, largest first and newest first among equals; a list is sorted if and only if it is in that order |
| PostPages.VisitInOrder | backend/app/repositories/post_repo.py:300-503 | With clear boundaries the whole visit is in that order |
| PostPages.PagesInOrder | backend/app/repositories/post_repo.py:346-503 | Every single page is in that order and no longer than its size, whatever its boundary; a cursor page holds the first posts behind the cursor and says whether there are more |
| PostPages.PageContents | backend/app/repositories/post_repo.py:447-470 | An offset page holds the posts from (page - 1) * size on |
| PostPages.PagesLeadOn | backend/app/repositories/post_repo.py:403-503 | A page leads on exactly if there is more, and its cursor is made of its last post's id and of the field its sort goes by |
| PostPages.TailInFields | backend/app/repositories/post_repo.py:362-400 | Behind a cursor lie the unpinned posts with a later (date, id) for oldest, an earlier one for the other date sorts, a smaller (number, id) for the sorts by number |
| PostPages.VisitMatches | backend/app/repositories/post_repo.py:306-343 | Whatever the boundaries, only posts that pass the filters are shown, and for unanswered only posts without an answer |
| PostPages.TotalPagesExact | backend/app/repositories/post_repo.py:453-470 | Exactly the offset pages up to total_pages show posts, an empty listing has one page, and has_more says whether another page would show any |
| PostPages.DistinctKeysShowListing | backend/app/repositories/post_repo.py:22-48 | With distinct primary sort values and fewer pinned posts than a page, every sort shows exactly its sorted list |
| PostPages.TiedLikesLosePost | backend/app/repositories/post_repo.py:30-48 | Two posts with equal likes of which the older is never shown with pages of one, under every arrangement |
| PostPages.TiedTimesLosePost | backend/app/repositories/post_repo.py:23-24 | Two posts of one created_at: one arrangement's cursor finds the other post, the other's does not |
| CursorCodec.Utf8RoundTrip | backend/app/repositories/post_repo.py:51-76 | Strict UTF-8 decoding undoes encoding for every text |
| CursorCodec.Base64RoundTrip | backend/app/repositories/post_repo.py:51-76 | base64url decoding with padding undoes encoding for every byte string |
| CursorCodec.UuidRoundTrip | backend/app/repositories/post_repo.py:51-76 | Parsing a UUID's text gives the UUID back |
| CursorCodec.CursorRoundTripIff | backend/app/repositories/post_repo.py:51-76 | Decoding an encoded cursor gives its parts back if and only if sort and primary value are free of bars |
| CursorCodec.BarInPrimaryIsRefused | backend/app/repositories/post_repo.py:62-76 | A bar inside the primary value is never misread: the cursor is refused |
| CursorCodec.CursorLayout | backend/app/repositories/post_repo.py:51-60 | A cursor is the URL-safe base64 of the UTF-8 of sort, primary value and UUID between bars, the UUID in its usual 36 characters |
| CursorCodec.Base64IsUrlSafe | backend/app/repositories/post_repo.py:51-60 | The text has four characters for every three bytes begun, all of the URL-safe alphabet but for at most two = at the end |
| CursorCodec.DigitsInOrder | backend/app/repositories/post_repo.py:51-60 | The alphabet in its order: A to Z, a to z, 0 to 9, minus, underscore |
| CursorCodec.Utf8Layout | backend/app/repositories/post_repo.py:51-60 | Lead byte, continuation bytes and bits of every character as in RFC 3629 |
| FormBatches.IterResponsesBatched | backend/app/repositories/form_repo.py:496-540 | With arbitrary changes of the table between batches: strictly increasing ids, none twice, each existed at some fetch, every row present at all fetches comes out; ends for every batch size |
| FormBatches.IterUnchanged | backend/app/repositories/form_repo.py:496-540 | On an unchanging table the stream is the table sorted by id |
| FormBatches.FetchKeepsProgress | backend/app/repositories/form_repo.py:505-538 | One batch keeps: everything up to last_id that was there throughout has been yielded, in order |
| LikeEscape.ChainIsSinglePass | backend/app/repositories/user_repo.py:14-16 | The three chained replacements escape each special character exactly once |
| LikeEscape.EscapedPatternFindsSubstring | backend/app/repositories/user_repo.py:301-312 | For all texts the escaped pattern is well formed and matches exactly the texts in which the search text occurs, up to case |
| LikeEscape.PercentSkips | backend/app/repositories/user_repo.py:301-312 | The % in front of the escaped text in a search pattern skips any number of characters and nothing else |
| LikeEscape.PatternCharacters | backend/app/repositories/user_repo.py:301-312 | An underscore takes any one character, a backslash makes the next one literal, other characters but % stand for themselves |
| LikeEscape.EscapedIsLiteral | backend/app/repositories/form_repo.py:10-12 | An escaped text before % matches exactly the texts that start with it |
| LikeEscape.UnescapedRightIffPlain | backend/app/services/citation.py:212-214 | Without the escape the pattern is right for all texts if and only if the search text has no special character |
| AdvisoryCaps.CapsHold | backend/app/repositories/form_repo.py:400-436 | In every run and for every assignment of lock keys: at most max_respondents responses per form, at most ten open or accepted co-authors per post |
| AdvisoryCaps.OneEntryPerUser | backend/app/services/co_author.py:98-109 | Re-invitations never leave a user with two entries on a post |
| AdvisoryCaps.LockFreezesTarget | backend/app/services/co_author.py:74-79 | While a transaction holds the lock of a target the others can only remove its entries or reject them |
| AdvisoryCaps.CommitCounts | backend/app/repositories/co_author_repo.py:101-107 | A commit adds at most one open entry, to its own target only |
| AdvisoryCaps.CommitInserts | backend/app/services/co_author.py:98-125 | Whatever happened since its INSERT, the commit of a transaction brings in its own open row and leaves every other row of every target as it was, but for the rejected entry of the same user on the same target that it replaces |
| AdvisoryCaps.CountMeans | backend/app/repositories/co_author_repo.py:101-107 | What is counted: the pending and accepted rows of the target, rejected ones never |
| AdvisoryCaps.RollbackKeepsRows | backend/app/services/co_author.py:73-125 | A refused insert rolls back and changes no row |
| AdvisoryCaps.RowsKeepTheirIdentity | backend/app/repositories/co_author_repo.py:110-115 | A row is the same entry for as long as it exists, and its id is never used again |
| AdvisoryCaps.Database.InviteCoAuthor | backend/app/services/co_author.py:73-125 | Refused for the limit exactly when ten are open at the count; a duplicate only for a user with an open entry; otherwise the pending entry is in and every other row untouched but for a rejected entry of that user; a refusal rolls back and changes nothing; the cap holds on return |
| AdvisoryCaps.Database.AddExternalCoAuthor | backend/app/services/co_author.py:183-213 | The same limit for external co-authors; a taken name aborts and changes nothing; otherwise the accepted entry is in and every other row untouched |
| AdvisoryCaps.Database.InsertResponse | backend/app/repositories/form_repo.py:400-436 | Refused exactly when the form is full; a second response of a user aborts; otherwise the response is in and every other row untouched; the maximum holds on return |
| AdvisoryCaps.Database.RespondToInvitation | backend/app/services/co_author.py:234-251 | Accepts or rejects exactly a pending invitation of this user and changes nothing else; says which check failed |
| AdvisoryCaps.Database.RemoveCoAuthor | backend/app/services/co_author.py:282-332 | Deletes the entry and nothing else, refusing entries of other posts and, for leaving, of other users |
| AdvisoryCaps.Database.Lock | backend/app/services/co_author.py:74-79 | The lock is granted exactly if no transaction holds the key the target maps to |
| AdvisoryCaps.Database.InsertAndCommit | backend/app/services/co_author.py:98-125 | The new entry appears and a rejected one it replaces goes at the commit, and all other rows stay, whatever others did in between |
| PhotoBatches.IterPhotosForAlbumBatched | backend/app/repositories/album_repo.py:161-185 | The loop returns consecutive OFFSET slices, each of its own statement's order, until all rows are covered |
| PhotoBatches.BatchesExactIff | backend/app/repositories/album_repo.py:161-185 | Whatever orders the statements choose, the batches gather each photo exactly once if and only if no batch boundary separates equal timestamps |
| PhotoBatches.MissesPhoto | backend/app/repositories/album_repo.py:172-179 | With a tie across a boundary there are orders under which the batches are not the album's photos |
| Listings.PrefixesAgree | backend/app/repositories/album_repo.py:172-179 | Two lists that ORDER BY allows hold the same rows before a position that splits no tie |
| Listings.CleanCutsGather | backend/app/repositories/album_repo.py:172-179 | If no slice boundary splits a tie, slices of differently arranged lists hold each row once |
| PhotoBatches.RefundsFairIff | backend/app/services/album.py:158-183 | The gathered bytes of every uploader are their bytes in the album, for every order the statements may choose, if and only if each batch boundary that splits a tie of timestamps does so among photos charged alike (all of one uploader and size, or all of size 0) |
| PhotoBatches.FairCutsRefund | backend/app/services/album.py:158-183 | With such boundaries each uploader's gathered bytes are exact |
| PhotoBatches.UnfairCutShortens | backend/app/services/album.py:158-183 | With another boundary there are orders under which an uploader gets back less than their bytes |
| PhotoBatches.BytesOfPermutation | backend/app/services/album.py:168-175 | A user's bytes do not depend on the order in which photos are gathered |
| PhotoBatches.FoldRefunds | backend/app/services/album.py:168-175 | The nested refund loops compute for every uploader the bytes of their gathered photos, positive entries only |
| PhotoBatches.ApplyRefunds | backend/app/services/album.py:177-183 | Each uploader's charge drops by their refund, clamped at zero; nobody else's changes |
| Quota.BytesConserved | backend/app/services/album.py:658-703 | In every run whose album deletions are of fair albums (each batch boundary that splits a tie does so among photos charged alike), each user's charge = stored photo bytes + refunds still owed + other usage |
| Quota.ClampNeverBites | backend/app/repositories/user_repo.py:413-425 | In such a run what a refund or the deletion of a fair album deducts never exceeds the charge, so the clamp at zero never acts |
| Quota.DeletionConservesIff | backend/app/services/album.py:147-191 | After such a run, deleting an album keeps every charge right, for all orders its batches may come in, if and only if the album is fair |
| Quota.TiedUploadsUnbalance | backend/app/services/album.py:147-191 | 501 uploads at one moment and a deletion of their album: a legal run after which a charge is wrong |
| Quota.QuotaHolds | backend/app/services/album.py:663-676 | No upload takes a user above the quota, whatever is refunded when |
| Quota.Storage.Upload | backend/app/services/album.py:658-703 | Refused exactly for a missing album at the look-up; otherwise charged and stored in one transaction, or refused with the quota exceeded; the charge fits the quota |
| Quota.Storage.ChargeAndInsert | backend/app/services/album.py:843-884 | The transaction of an upload: quota check, charge and insert, all or nothing |
| Quota.Storage.DeletePhoto | backend/app/services/album.py:999-1053 | Uploader, album creator or admin only; exactly that row goes first; the refund is the last step if one of three attempts gets through, and stays owed if none does; at most one refund |
| Quota.OnlyTheseDelete | backend/app/services/album.py:1003-1013 | A photo may be deleted by its uploader, by the creator of its album as long as that is there, and by a site admin, and by nobody else |
| Quota.Storage.RefundDeleted | backend/app/services/album.py:1032-1051 | At most three attempts and at most one refund |
| Quota.Storage.DecrementStorageUsed | backend/app/repositories/user_repo.py:413-425 | Deducts the photo's size from its uploader only, clamped at zero, and settles that refund |
| Quota.RefundAlbum | backend/app/services/album.py:158-183 | Gather, fold, deduct: if each batch boundary that splits a tie does so among photos charged alike, every uploader gets back exactly their bytes in the album |
| Quota.Storage.DeleteAlbum | backend/app/services/album.py:147-191 | Removes the album and exactly its photos; if the album is fair every charge drops by the bytes of its uploader in it, to zero at most |
| Citations.DedupKeepsFirsts | backend/app/services/citation.py:50-57 | The dedup loop keeps each id once, in the order of first appearance, and loses none |
| Citations.ParseCitedPostIds | backend/app/services/citation.py:41-57 | The loop over the parsed links computes that list |
| Citations.SyncExactIff | backend/app/services/citation.py:60-115 | For every choice the diff query's LIMIT may make, a sync leaves the post citing exactly the parsed ids that were cited or are live, if and only if the post has at most 5000 citations or all of them are wanted and of dead posts |
| Citations.ExactForDiffIff | backend/app/services/citation.py:73-115 | For the rows the diff query did return, the sync is exact if and only if every citation it left out is wanted and of a dead post |
| Citations.LimitKeepsCitation | backend/app/repositories/citation_repo.py:60-70 | From a post of more than 5000 citations all links are removed, and one that the diff query left out stays |
| Citations.SyncExact | backend/app/repositories/citation_repo.py:60-70 | With at most 5000 existing citations the sync succeeds and is exact |
| Citations.SyncInFields | backend/app/services/citation.py:60-122 | Of the post's rows those stay that the diff did not find missing from the text, new ones come for live posts, flagged as self-citations exactly if the author cites a post of their own; counts of posts whose citation came or went are taken anew; all other rows and posts stay |
| Citations.SyncKeepsCounts | backend/app/services/citation.py:117-122 | Recounting the affected posts alone keeps every citation_count equal to the number of live citing posts |
| Citations.CountsStayRight | backend/app/repositories/citation_repo.py:110-125 | The same over every sequence of post creations and syncs that do not overlap, however many citations a post has |
| Citations.StepIsSync | backend/app/services/citation.py:60-122 | A step of these runs is the sync of that post by its author for whatever the diff query returned, which is all citations if there are at most 5000 |
| Citations.SyncTwice | backend/app/services/citation.py:66-122 | From at most 5000 citations: a second sync of the same text changes nothing, whatever rows the two diff queries return |
| Citations.CitationStore.UpdateCitationCount | backend/app/repositories/citation_repo.py:110-125 | Overwrites one post's count with the number of live posts citing it |
| Citations.CitationStore.RecountAll | backend/app/services/citation.py:117-122 | The loop over the affected posts recounts exactly those, in any order |
| Citations.CitationStore.SyncPostCitations | backend/app/services/citation.py:60-122 | The sync transaction: its rows, flags and counts field by field, failing exactly if a new citation clashes with one the diff left out, exact up to 5000 citations, nothing changed on failure |
| CitationRuns.CountRightIff | backend/app/services/citation.py:60-122 | Overlapping syncs, statement by statement: at every moment a committed count is the number of live posts citing it if and only if what others committed between the count and the commit of its last writer cancels out |
| CitationRuns.DisjointSyncsKeepCounts | backend/app/services/citation.py:117-122 | Syncs may overlap freely as long as no two of them affect the same post: all counts are right at every moment |
| CitationRuns.SoloIsSync | backend/app/services/citation.py:60-122 | A sync whose statements run undisturbed has the outcome of the sync as one step, in whatever order it recounts |
| CitationRuns.RollbackForgets | backend/app/services/citation.py:68-122 | A sync can roll back at any moment before its commit and leaves what is committed, and the other syncs, as they are |
| CitationRuns.OverlapMiscounts | backend/app/repositories/citation_repo.py:110-125 | From any state with right counts: a legal run of two overlapping syncs, of live posts that both start citing a third, after whose commits the count of the newly cited post misses one of its citers |
| Counters.CommentsCounted | backend/app/repositories/comment_repo.py:215-277 | In every run a live post's comment_count is its number of live comments plus those that went with their author's account, and likewise a live question's answer_count |
| Counters.CommentsRightIff | backend/app/services/user.py:416-421 | A live post's comment_count is its number of live comments if and only if no account was deleted that had a live comment on it |
| Counters.CommentsCapped | backend/app/services/comment.py:64-67 | A live post never has more than 200 live comments |
| Counters.MembersCounted | backend/app/repositories/sig_repo.py:183-198 | In every run a live SIG's member_count is its number of active members plus those whose account was deleted while they were active |
| Counters.MembersRightIff | backend/app/services/user.py:370-374 | A live SIG's member_count is its number of active members if and only if no account of an active member was deleted |
| Counters.DeletedFounderMiscounts | backend/app/services/user.py:370-374 | The founder of a SIG deletes the account: one member by the counter, none in the table |
| Counters.ScoresCounted | backend/app/repositories/vote_repo.py:7-65 | In every run a live comment's vote_score is the sum of its votes, one per user, plus the votes that went with their voters' accounts |
| Counters.AccountMovesSum | backend/app/repositories/vote_repo.py:103-109 | Deleting an account moves the sum of a comment's votes by that user's vote and leaves the score |
| Counters.RecordMoves | backend/app/repositories/vote_repo.py:14-65 | A vote, changed vote or withdrawn vote moves the sum by the difference to the old vote, on that comment only |
| Counters.ClampsNeverBite | backend/app/repositories/comment_repo.py:250-268 | No GREATEST(.., 0) changes a counter of a live post or SIG |
| Counters.RejoinRestores | backend/app/repositories/sig_repo.py:321-340 | Leaving and joining again is possible, restores the members and the count, and adds one row |
| Counters.RowsAreUsers | backend/app/repositories/sig_repo.py:183-198 | With one active row per user, active rows and active users are equally many |
| Counters.StepKeepsOneActive | backend/alembic/versions/m50_schema_fixes_320003.py:45-55 | No step leaves a user with two active rows in a SIG, through leaving, re-joining, SIG deletion and account deletion |
| Counters.DeletionInFields | backend/app/repositories/comment_repo.py:197-277 | A comment deletion hides the comment and, if it is top-level, the live replies to it on the same post, lowers the counters of that post by as many, and touches nothing else |
| Counters.VoteInFields | backend/app/repositories/vote_repo.py:7-76 | The voter's vote on the comment becomes the new one, or goes if that is 0, the score moves by the difference, and nothing else changes |
| Counters.LeaveInFields | backend/app/repositories/sig_repo.py:183-198 | The member leaves this SIG, whose count falls by one; nobody else and no other SIG is touched |
| Counters.SigDeletionInFields | backend/app/repositories/sig_repo.py:100-180 | The SIG, its posts, members, comments and the votes on these go, but for comments committed too late; all else and all counters stay |
| Counters.AccountInFields | backend/app/services/user.py:290-460 | The comments, votes, memberships and posts of the account go; every counter and score stays |
| Counters.DeletedScoresStay | backend/app/repositories/sig_repo.py:145-159 | SIG deletion drops the votes on its comments but leaves their scores |
| Counters.Repository.AddComment | backend/app/services/comment.py:60-115 | Accepted exactly on a live post that allows comments, below the limit, with a live parent there; the comment is in, the counters of that post follow, nothing else changes |
| Counters.Repository.SoftDeleteComment | backend/app/repositories/comment_repo.py:197-277 | For author or admin: exactly the comment and, if top-level, the live replies to it on the same post; the counters of that post fall by as many, nothing else changes |
| Counters.Repository.UpsertVote | backend/app/repositories/vote_repo.py:7-76 | The returned score of a live comment is the sum of its votes, with those of deleted accounts; the vote is recorded or withdrawn, and no other vote or comment changes |
| Counters.Repository.JoinMember | backend/app/repositories/sig_repo.py:321-340 | Joins a live SIG exactly if the user is not an active member: one row more and the count up by one, nothing else |
| Counters.Repository.RemoveMember | backend/app/repositories/sig_repo.py:183-198 | Removes exactly an active member; the count falls by one, nothing else changes |
| Counters.Repository.SoftDeleteSig | backend/app/repositories/sig_repo.py:100-180 | The SIG, its posts and members and the comments on its posts go, but for comments committed between its UPDATE of the comments and that of the posts; nothing else changes |
| BlockCache.NeverOverreaches | backend/app/core/blacklist.py:12-45 | In a sequential run in which no unblock lost its cache update while the other one was cached, nobody is reported who neither blocks the user nor is blocked by them, with or without a pool |
| BlockCache.SoundIff | backend/app/services/social.py:276-298 | At every moment of a sequential run the cached set of a user holds nobody outside the closure, if and only if no unblock committed and lost its cache update while the other one was in the set |
| BlockCache.LostUpdateReports | backend/app/services/social.py:289-298 | A run in which an unblock commits, its cache update fails, and the other one stays reported |
| BlockCache.StaysWholeIff | backend/app/core/blacklist.py:12-108 | For a reader with a pool and for one without: an answer that is the closure stays it after a call if and only if the call does no harm, by an exact list of branches (re-creating a vanished key, taking out a member whose block stands the other way, a lost cache update, and without a pool an expiry) |
| BlockCache.WholeIff | backend/app/core/blacklist.py:12-108 | At every moment of a run a reader gets exactly the closure if and only if no call has harmed the user for that kind of reader |
| BlockCache.UnharmedIsWhole | backend/app/core/blacklist.py:12-45 | A user whom no call has harmed gets exactly the closure with a pool, whatever expires, and without one if and only if the key is there or the closure is empty |
| BlockCache.MissHidesBlock | backend/app/core/blacklist.py:12-45 | A run in which a key expires and a reader without a pool is told that nobody is blocked |
| BlockCache.CacheEqualsClosure | backend/app/core/blacklist.py:91-108 | With no expiry, no mutual blocks and no lost cache update every cached set equals the symmetric closure in every run |
| BlockCache.WarmUpRepairsIff | backend/app/core/blacklist.py:48-88 | After a warm-up a cached set is the closure, whatever was lost before, if and only if nobody outside the closure was in it |
| BlockCache.AddRowsMembers | backend/app/core/blacklist.py:66-76 | After adding rows a set holds what it held and everyone a row relates to the user, in either direction |
| BlockCache.ExpiredKeyHidesBlock | backend/app/core/blacklist.py:97-102 | A run in which a block after an expiry hides an earlier one |
| BlockCache.MutualUnblockHidesBlock | backend/app/core/blacklist.py:103-108 | A run in which lifting one of two mutual blocks hides the other |
| BlockCache.WarmUpBlockCache | backend/app/core/blacklist.py:48-88 | The batched loop adds every row of the table once, in both directions |
| BlockCache.BlockService.GetBlockedUserIds | backend/app/core/blacklist.py:12-45 | The cached set, else the closure if there is a pool and the database and the fill succeed, which then is cached, else nobody; exactly the closure for a user whom no call has harmed for that kind of reader |
| BlockCache.BlockService.BlockUser | backend/app/services/social.py:251-286 | Blocks unless it is oneself, the limit of five or a repetition: one row more, and each of the two in the set of the other; raises after the commit if the cache update fails; complete answers of unharmed users stay complete |
| BlockCache.BlockService.UnblockUser | backend/app/services/social.py:289-298 | Lifts exactly an existing block and takes each of the two out of the set of the other, no other row or set; if the cache update fails the cache stays as it was |
| BlockCache.BlockService.WarmUp | backend/app/core/blacklist.py:48-88 | Every set gains the closure, and is the closure if no unblock has stranded anybody in it |
| BlockOverlaps.CoveredIff | backend/app/core/blacklist.py:12-45 | Calls that overlap, table step and cache step apart: at every moment everybody in a cached set is blocked or about to be taken out if and only if no cache step adds somebody whose block is lifted in the table and in the cache already, and no unblock loses its cache step while the other one is in a set |
| BlockOverlaps.StaysCoveredIff | backend/app/core/blacklist.py:91-108 | The same for one step from any such state |
| BlockOverlaps.SettledIsSafe | backend/app/core/blacklist.py:12-45 | Under that condition, once no unblock is under way nobody outside the closure is reported |
| BlockOverlaps.SeparateIsNeverLate | backend/app/services/social.py:276-298 | The condition holds if no unblock loses its cache step or changes the table while a block or a reader of the same two users is between its steps; everything else may overlap |
| BlockOverlaps.CallsInOnePiece | backend/app/core/blacklist.py:12-45 | A block, an unblock or a read whose two steps follow each other, with the cache step lost or not, is the call of the sequential model |
| BlockOverlaps.OverlapOverreaches | backend/app/core/blacklist.py:20-43 | A legal run in which a reader fetches before an unblock and fills in after it: all calls are over, and somebody is reported whose block is gone |
| BlockOverlaps.LateBlockOverreaches | backend/app/services/social.py:276-298 | A legal run in which a block's cache step comes after a whole unblock of it, with the same effect |
| BlockLimit.OvershootBounded | backend/app/services/social.py:259-274 | With at most w requests of a user between count and commit, never more than five + w - 1 blocks |
| BlockLimit.LimitHoldsIff | backend/app/services/social.py:259-274 | The limit of five blocks holds in all runs with at most w such requests at a time if and only if w is at most 1 |
| BlockLimit.OvershootAttained | backend/app/services/social.py:259-274 | A legal run that reaches five + w - 1 blocks, for every w |
| RateLimit.LifetimeAllowsMin | backend/app/core/rate_limit.py:8-20 | Each counter lifetime allows exactly min(calls, max) requests |
| RateLimit.IntervalBound | backend/app/core/rate_limit.py:8-20 | Any half-open interval of one window allows at most 2 * max - 1 requests |
| RateLimit.IntervalBoundIsTight | backend/app/core/rate_limit.py:8-20 | That bound is attained for every max and every window of at least two seconds |
| RateLimit.Limiter.CheckRateLimit | backend/app/core/rate_limit.py:60-69 | The script's answer at any sequence of times is whether the call is among the first max on its counter |
| EventBus.EmitReportsFailures | backend/app/core/event_bus.py:50-103 | Under every schedule each handler is run until its first success or three times, and emit reports exactly the always-failing ones in registration order |
| EventBus.EmitTerminates | backend/app/core/event_bus.py:61-98 | No schedule takes more than seven steps a handler |
| EventBus.NewestFailuresKept | backend/app/core/event_bus.py:124-149 | However pushes and trims of concurrent handlers interleave, with trims that fail, the newest thousand failures are never dropped, and the list is over-long only by handlers between their two commands or whose trim failed |
| EventBus.RedactionHidesExactly | backend/app/core/event_bus.py:106-121 | In the kwargs of a stored failure redaction puts the marker at every sensitive key at any depth of dicts and leaves nothing below it, keeps every other leaf and adds nothing |
| EventBus.Emission.PersistFailedEvent | backend/app/core/event_bus.py:124-161 | Ends its task of the step machine with the failure in the list's history unless the push failed; reports success only if push, trim and EXPIRE were answered |
| EventBus.Emission.RunHandler | backend/app/core/event_bus.py:61-98 | With other handlers stepping at every await, the retry loop ends its task of the step machine at the first success or after the last attempt and returns the failure recorded there |
| EventBus.Emission.Emit | backend/app/core/event_bus.py:50-103 | However the handlers were scheduled, what they returned is filtered into exactly the expected failures in registration order |
| Notifications.OkServesAll | backend/app/event_handlers.py:175-231 | However emits overlap and keys expire: when an emit ends ok, each admin its last attempt fetched has had a notification for the applicant or was skipped by the rate limit |
| Notifications.OkNotifiesIff | backend/app/services/notification.py:26-38 | An emit that ends ok has notified every admin its last attempt fetched if and only if none of them was skipped without ever having had a notification for the applicant |
| Notifications.StepsInFields | backend/app/event_handlers.py:193-226 | Creating adds a notification exactly if the row goes in and remembers a skip exactly if the rate limit skipped it; marking sets the key if Redis answers; checking counts the admin as failed unless the key is there |
| Notifications.SkippedCountsAsSent | backend/app/services/notification.py:26-38 | A legal run of one emit past the rate limit: it ends ok, the dedup key is set, and there is no notification |
| Notifications.Notifier.NotifyAdmin | backend/app/event_handlers.py:193-226 | An admin not counted as failed has had a notification or was skipped; after an error the admin counts as failed unless Redis knows the key; after a normal return the key is set if Redis answers |
| Notifications.Notifier.OnApplicationCreated | backend/app/event_handlers.py:175-231 | If the handler does not raise, its emit ends ok with the admins it fetched; if it raises, the query or a notification failed, and the emit retries until the last attempt |
| Notifications.Notifier.EmitApplicationCreated | backend/app/event_handlers.py:175-231 | If emit is ok, every admin fetched by the successful attempt has had a notification or was skipped, and all have had one exactly if none was only skipped; if not, each attempt met a failure |
| Notifications.MarkFirstLosesIff | backend/app/event_handlers.py:151-172 | A handler that marks before sending reports success with nothing sent if and only if, after attempts that all failed with nothing created, one is skipped by the rate limit or can read the mark of an earlier one |
| Notifications.FailedSendIsLost | backend/app/event_handlers.py:151-172 | Redis answers, the first send fails and every later one would succeed: the handler reports success and nothing was sent |
| Notifications.SkippedSendIsLost | backend/app/services/notification.py:26-38 | Redis answers and every creation is skipped: the first attempt reports success and nothing was sent, with no attempt having failed |
| Streak.LongestCommitStreak | scripts/compute_stats.py:207-219 | The loop returns the length of the longest run of consecutive days: some run has it, none is longer |
| Streak.TailIsLongest | scripts/compute_stats.py:212-218 | The running count is the longest run that ends at the current day |

## Left out

- RedactionHidesExactly: speaks of the `kwargs` of a stored failure; the same entry keeps the unredacted `original_kwargs` for the retry (event_bus.py:140).
- SendMessageAtomic: its permission checks (blocks, friends) are left out, and inserting the row and counting it are one step, since neither shows before the commit. A send that fails is the Rollback step, not an outcome of the method.
- CapAndCounterHold: others are taken not to touch rows a running send has deleted, since they wait for its row locks; edits that lengthen a message are not part of it, because nothing trims after an edit; decrements follow the deletion they belong to.
- CursorRoundTripIff: Python's lenient base64 (it skips foreign characters) and the extra spellings uuid.UUID accepts concern only cursors the service did not produce.
- PagesShowOnceIff: the table does not change while a reader pages; search and keyword filters are one arbitrary predicate.
- EscapedPatternFindsSubstring: case folding is any per-character map that leaves the pattern characters alone, not PostgreSQL's locale tables.
- InviteCoAuthor: post ownership is checked before the transaction and is not modelled; the unique index on external names is the parameter nameTaken of AddExternalCoAuthor; deleting a rejected entry and inserting the new one are one step, since neither shows before the commit.
- Lock: says whether the lock is granted at once; a transaction that waits goes on from Locked, as the other methods require.
- RemoveCoAuthor: the look-up of the post and the owner or admin check before it.
- InsertResponse: forms without a maximum take no lock and have no bound; whether guests may answer is checked before.
- Upload: the advisory photo limit, membership and file checks before the transaction; covers, whose old size is refunded to the new uploader.
- DeleteAlbum: who may delete, comments and members of the album, and file storage; a refund attempt that fails is taken to have changed nothing.
- BytesConserved: account deletion, after which the photos of the account have no uploader to charge.
- QuotaHolds: uploads outside albums are assumed to check the quota too.
- CountsStayRight: deletion of citing posts, SIGs and accounts, which do not recount; extraction of links from HTML. Syncs that overlap are in CitationRuns.
- CountRightIff: a transaction that waits for a row lock is not shown waiting, its statement comes after the commit it waits for; the diff query, the delete and the insert of a sync are one step.
- AddComment: the check for blocks between author and owner, before the transaction.
- CommentsCounted: comments on events (the same code with another table), best answers, and single posts that are deleted.
- SoftDeleteSig: its statements are one step but for the comments committed between two of them; posts and members that others add meanwhile are not modelled.
- ScoresCounted: the service locks the comment around upsert_vote, so votes on one comment do not overlap.
- WarmUpBlockCache: the table does not change during the warm-up; build_block_exclusion_clause is plain string assembly.
- NeverOverreaches: calls do not overlap; BlockOverlaps has those that do. Deleting an account removes its blocks and leaves the cache, which is what unblocks with a lost cache update do.
- CoveredIff: SADD and SREM in both directions are one step, as are a reader's or a warm-up's SADDs; completeness of answers under overlap is not stated.
- BlockLimit.LimitHoldsIff: blocked users whose account is deleted no longer count in the code; accounts are not deleted here.
- CheckRateLimit: which key a request counts on (get_client_ip) and the time between the script and the answer.
- NewestFailuresKept: the list's 24-hour expiry and the entries the retry task pops are left out; both take entries away on purpose.
- EmitReportsFailures: the outcome of an attempt does not depend on the schedule; entries of the failure list are reduced to the handler they name.
- EmitApplicationCreated: a notification that was created stays created; keys of this shape are set by this handler only; whether the rate limit skips a notification is a parameter.
- LongestCommitStreak: parsing the git log; the days arrive sorted and distinct, as sorted() of a set gives them.
- IncrementCharCount: decrements that belong to an earlier recall or deletion; other uses are not modelled.
- IterResponsesBatched: one ascending order of ids; the columns of a response are not modelled.
- ValidateSession: JWT signatures and claims; a token's expiry time takes part only in how long it stays blacklisted.
- Dispatch: one key; requests without the header or of other methods pass through unchanged.
- HTTP routing, schemas, migrations, storage clients, cryptography, captcha, logging and metrics: no property beyond plumbing.
- Preferences, categories, contributors, reactions, the guest counter and org-chart functions: they would add only easy members.

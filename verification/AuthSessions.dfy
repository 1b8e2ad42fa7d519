/** Login sessions and the JTI blacklist kept in Redis (backend/app/services/auth.py).

    Every service function is several Redis commands with an `await` between them, and other
    requests may run at each `await`. `Command` lists the commands that change Redis, `Apply` says
    what one command does, and a `log` is a run: every interleaving of service calls is a legal log,
    because each method of `SessionService` below is proved to issue legal commands only, whatever
    `Interference` did in between. The lemmas then speak about all legal logs.

    A key with a time to live is present while `now < until`. */
module AuthSessions {
  import opened Basics

  type UserId = string
  type Jti = string

  datatype Role = SUPER_ADMIN | ADMIN | MEMBER | GUEST

  datatype Key = Key(user: UserId, role: Role)

  // Session lifetimes per role, in seconds (the JWT_*_EXPIRE_MINUTES settings).
  datatype Ttls = Ttls(superAdmin: nat, admin: nat, member: nat, guest: nat) {
    function Of(role: Role): nat {
      match role
      case SUPER_ADMIN => superAdmin
      case ADMIN => admin
      case MEMBER => member
      case GUEST => guest
    }

    predicate Positive() {
      superAdmin > 0 && admin > 0 && member > 0 && guest > 0
    }
  }

  const LOGIN_BLACKLIST_FLOOR: nat := 28800
  const LOGOUT_BLACKLIST_TTL: nat := 43200

  const ALL_ROLES: seq<Role> := [SUPER_ADMIN, ADMIN, MEMBER, GUEST]

  datatype Entry = Entry(jti: Jti, until: nat)

  lemma EveryRoleListed()
    ensures ALL_ROLES[..|ALL_ROLES|] == ALL_ROLES
    ensures forall r: Role :: r in ALL_ROLES
  {
    forall r: Role
      ensures r in ALL_ROLES
    {
      match r
      case SUPER_ADMIN => assert ALL_ROLES[0] == r;
      case ADMIN => assert ALL_ROLES[1] == r;
      case MEMBER => assert ALL_ROLES[2] == r;
      case GUEST => assert ALL_ROLES[3] == r;
    }
  }

  // What a signed token says about itself: its session key and its expiry.
  datatype Token = Token(key: Key, exp: nat)

  // `issued` is history: every token ever handed out. The rest is what Redis holds.
  datatype Store = Store(
    now: nat, sessions: map<Key, Entry>, blacklist: map<Jti, nat>, issued: map<Jti, Token>)

  const EMPTY: Store := Store(0, map[], map[], map[])

  function Session(s: Store, k: Key): Option<Jti> {
    if k in s.sessions && s.now < s.sessions[k].until then Some(s.sessions[k].jti) else None
  }

  predicate Blacklisted(s: Store, j: Jti) {
    j in s.blacklist && s.now < s.blacklist[j]
  }

  // The answer an instantaneous validation would give.
  predicate Validates(s: Store, k: Key, j: Jti) {
    !Blacklisted(s, j) && Session(s, k) == Some(j)
  }

  // ---- Commands that change Redis, and time ----

  datatype Command =
    | Swap(key: Key, jti: Jti, ttl: nat, exp: nat)    // SET key jti EX ttl GET
    | Delete(key: Key)                                // DEL key
    | Blacklist(jti: Jti, ttl: nat)                   // SET jwt:blacklist:jti 1 EX ttl
    | Pipeline(user: UserId, jtis: set<Jti>)          // MULTI; blacklist each; DEL all roles; EXEC
    | Expire(key: Key, ttl: nat)                      // EXPIRE key ttl
    | Tick(seconds: nat)

  function Members(js: seq<Jti>): set<Jti> {
    set j <- js
  }

  function Stamp(js: set<Jti>, until: nat): map<Jti, nat> {
    map j | j in js :: until
  }

  function Apply(s: Store, c: Command): Store {
    match c
    case Swap(k, j, ttl, exp) =>
      s.(sessions := s.sessions[k := Entry(j, s.now + ttl)], issued := s.issued[j := Token(k, exp)])
    case Delete(k) => s.(sessions := s.sessions - {k})
    case Blacklist(j, ttl) => s.(blacklist := s.blacklist[j := s.now + ttl])
    case Pipeline(u, js) =>
      s.(blacklist := s.blacklist + Stamp(js, s.now + LOGOUT_BLACKLIST_TTL),
         sessions := map k | k in s.sessions && k.user != u :: s.sessions[k])
    case Expire(k, ttl) =>
      if Session(s, k).Some? then s.(sessions := s.sessions[k := Entry(s.sessions[k].jti, s.now + ttl)]) else s
    case Tick(d) => s.(now := s.now + d)
  }

  // An issued token whose session key no longer holds it.
  predicate Dead(s: Store, j: Jti) {
    j in s.issued && Session(s, s.issued[j].key) != Some(j)
  }

  /** What the service functions guarantee about the commands they send: identifiers of new tokens
      are fresh, only tokens already displaced are blacklisted one by one, a revocation blacklists
      tokens of that user only, and times to live come from the settings. */
  predicate Legal(cfg: Ttls, s: Store, c: Command) {
    match c
    case Swap(k, j, ttl, exp) => j !in s.issued && ttl == cfg.Of(k.role) > 0 && exp <= s.now + ttl
    case Delete(_) => true
    case Blacklist(j, ttl) =>
      Dead(s, j) && (ttl == LOGOUT_BLACKLIST_TTL || ttl == Max(LOGIN_BLACKLIST_FLOOR, cfg.Of(s.issued[j].key.role)))
    case Pipeline(u, js) => forall j <- js :: j in s.issued && s.issued[j].key.user == u
    case Expire(k, ttl) => ttl == cfg.Of(k.role)
    case Tick(_) => true
  }

  // A run, newest command last. Its prefixes are the moments of the run.
  type Run = RunOf<Command>

  function Exec(r: Run): Store {
    match r
    case Start => EMPTY
    case Then(before, c) => Apply(Exec(before), c)
  }

  ghost predicate LegalRun(cfg: Ttls, r: Run) {
    match r
    case Start => true
    case Then(before, c) => LegalRun(cfg, before) && Legal(cfg, Exec(before), c)
  }

  // ---- Invariant of all runs ----

  // A stored session belongs to a token issued for that very key; a blacklisted token is displaced.
  ghost predicate Inv(s: Store) {
    && (forall k <- s.sessions :: s.sessions[k].jti in s.issued && s.issued[s.sessions[k].jti].key == k)
    && (forall j <- s.blacklist :: Dead(s, j))
  }

  lemma StepKeepsInv(cfg: Ttls, s: Store, c: Command)
    requires Inv(s) && Legal(cfg, s, c)
    ensures Inv(Apply(s, c))
  {
  }

  lemma StepKeepsDead(cfg: Ttls, s: Store, c: Command, j: Jti)
    requires Inv(s) && Legal(cfg, s, c) && Dead(s, j)
    ensures Dead(Apply(s, c), j) && Apply(s, c).issued[j] == s.issued[j]
  {
  }

  lemma StepKeepsIssued(cfg: Ttls, s: Store, c: Command, j: Jti)
    requires Legal(cfg, s, c) && j in s.issued
    ensures j in Apply(s, c).issued && Apply(s, c).issued[j] == s.issued[j]
  {
  }

  lemma {:induction false} PrefixLegal(cfg: Ttls, a: Run, b: Run)
    requires LegalRun(cfg, b) && Within(a, b)
    ensures LegalRun(cfg, a)
  {
    if a != b {
      PrefixLegal(cfg, a, b.before);
    }
  }

  lemma {:induction false} RunKeepsInv(cfg: Ttls, r: Run)
    requires LegalRun(cfg, r)
    ensures Inv(Exec(r))
  {
    match r
    case Start =>
    case Then(before, c) =>
      RunKeepsInv(cfg, before);
      StepKeepsInv(cfg, Exec(before), c);
  }

  lemma {:induction false} DeadStaysDead(cfg: Ttls, a: Run, b: Run, j: Jti)
    requires LegalRun(cfg, b) && Within(a, b) && Dead(Exec(a), j)
    ensures Dead(Exec(b), j) && Exec(b).issued[j] == Exec(a).issued[j]
  {
    if a != b {
      DeadStaysDead(cfg, a, b.before, j);
      RunKeepsInv(cfg, b.before);
      StepKeepsDead(cfg, Exec(b.before), b.cmd, j);
    }
  }

  lemma {:induction false} IssuedStays(cfg: Ttls, a: Run, b: Run, j: Jti)
    requires LegalRun(cfg, b) && Within(a, b) && j in Exec(a).issued
    ensures j in Exec(b).issued && Exec(b).issued[j] == Exec(a).issued[j]
  {
    if a != b {
      IssuedStays(cfg, a, b.before, j);
      StepKeepsIssued(cfg, Exec(b.before), b.cmd, j);
    }
  }

  // ---- Main results: safety over all runs ----

  /** At every moment of every run a token validates exactly when its session key holds it, so the
      blacklist never changes the verdict, and only for the user and role it was issued to. */
  lemma BlacklistIsRedundant(cfg: Ttls, r: Run, k: Key, j: Jti)
    requires LegalRun(cfg, r)
    ensures Validates(Exec(r), k, j) <==> Session(Exec(r), k) == Some(j)
    ensures Validates(Exec(r), k, j) ==> j in Exec(r).issued && Exec(r).issued[j].key == k
  {
    RunKeepsInv(cfg, r);
  }

  /** Once an issued token fails to validate under its own key, for whatever reason (replaced,
      logged out, revoked or expired), it never validates again under any key. */
  lemma NeverValidatesAgain(cfg: Ttls, a: Run, b: Run, j: Jti)
    requires LegalRun(cfg, b) && Within(a, b)
    requires j in Exec(a).issued && !Validates(Exec(a), Exec(a).issued[j].key, j)
    ensures forall k: Key :: !Validates(Exec(b), k, j)
  {
    PrefixLegal(cfg, a, b);
    BlacklistIsRedundant(cfg, a, Exec(a).issued[j].key, j);
    DeadStaysDead(cfg, a, b, j);
    RunKeepsInv(cfg, b);
  }

  /** At most one token per user and role validates at any moment, and along a run the accepted
      token only moves on: once it has given way to another token it never comes back. */
  lemma AcceptedTokenNeverReturns(cfg: Ttls, a: Run, b: Run, c: Run, k: Key, j: Jti, other: Jti)
    requires LegalRun(cfg, c) && Within(a, b) && Within(b, c)
    requires Validates(Exec(a), k, j) && Validates(Exec(b), k, other)
    ensures a == b ==> j == other
    ensures j != other ==> forall k': Key :: !Validates(Exec(c), k', j)
  {
    PrefixLegal(cfg, b, c);
    PrefixLegal(cfg, a, b);
    BlacklistIsRedundant(cfg, a, k, j);
    if j != other {
      IssuedStays(cfg, a, b, j);
      NeverValidatesAgain(cfg, b, c, j);
    }
  }

  /** After a revocation pipeline no token issued to that user up to that moment ever validates,
      including one installed after the MGET that filled the pipeline. */
  lemma RevokedForever(cfg: Ttls, a: Run, b: Run, j: Jti)
    requires LegalRun(cfg, b) && Within(a, b) && a.Then? && a.cmd.Pipeline?
    requires j in Exec(a).issued && Exec(a).issued[j].key.user == a.cmd.user
    ensures forall k: Key :: !Validates(Exec(b), k, j)
  {
    assert Dead(Exec(a), j);
    NeverValidatesAgain(cfg, a, b, j);
  }

  /** A login is never in vain: right after its swap the new token validates, and it is the only one
      under its key. */
  lemma LoginGrants(cfg: Ttls, r: Run, k: Key, j: Jti, ttl: nat, exp: nat)
    requires LegalRun(cfg, Then(r, Swap(k, j, ttl, exp)))
    ensures forall j': Jti :: Validates(Exec(Then(r, Swap(k, j, ttl, exp))), k, j') <==> j' == j
  {
    RunKeepsInv(cfg, r);
  }

  // Does this command leave the session of k in place?
  predicate Keeps(s: Store, c: Command, k: Key) {
    match c
    case Swap(k', _, _, _) => k' != k
    case Delete(k') => k' != k
    case Pipeline(u, _) => u != k.user
    case Tick(d) => k in s.sessions && s.now + d < s.sessions[k].until
    case Expire(k', ttl) => k' == k ==> ttl > 0
    case Blacklist(_, _) => true
  }

  // Every command between the moments a and b leaves the session of k in place.
  predicate KeptBetween(a: Run, b: Run, k: Key) {
    a == b || (b.Then? && KeptBetween(a, b.before, k) && Keeps(Exec(b.before), b.cmd, k))
  }

  lemma StepKeepsSession(cfg: Ttls, s: Store, c: Command, k: Key, j: Jti)
    requires Inv(s) && Legal(cfg, s, c) && Validates(s, k, j)
    ensures Session(Apply(s, c), k) == Some(j) <==> Keeps(s, c, k)
  {
  }

  /** The converse of the safety results: a token stays accepted exactly as long as no login, delete
      or revocation hits its key and no tick runs past its deadline. */
  lemma {:induction false} ValidUntilRemoved(cfg: Ttls, a: Run, b: Run, k: Key, j: Jti)
    requires LegalRun(cfg, b) && Within(a, b) && Validates(Exec(a), k, j)
    ensures Validates(Exec(b), k, j) <==> KeptBetween(a, b, k)
  {
    if a != b {
      ValidUntilRemoved(cfg, a, b.before, k, j);
      if Validates(Exec(b.before), k, j) {
        RunKeepsInv(cfg, b.before);
        StepKeepsSession(cfg, Exec(b.before), b.cmd, k, j);
        BlacklistIsRedundant(cfg, b, k, j);
      } else {
        PrefixLegal(cfg, a, b.before);
        BlacklistIsRedundant(cfg, a, k, j);
        IssuedStays(cfg, a, b.before, j);
        assert Within(b.before, b);
        NeverValidatesAgain(cfg, b.before, b, j);
      }
    }
  }

  // ---- Lifetimes ----

  /** Undisturbed, a login lasts exactly its time to live, a heartbeat starts that time anew, and a blacklist
      entry lasts exactly its own. */
  lemma LastsExactly(s: Store, k: Key, j: Jti, ttl: nat, exp: nat, seconds: nat)
    ensures Session(Apply(Apply(s, Swap(k, j, ttl, exp)), Tick(seconds)), k) == if seconds < ttl then Some(j) else None
    ensures Session(s, k) == Some(j) ==>
      Session(Apply(Apply(s, Expire(k, ttl)), Tick(seconds)), k) == if seconds < ttl then Some(j) else None
    ensures Blacklisted(Apply(Apply(s, Blacklist(j, ttl)), Tick(seconds)), j) <==> seconds < ttl
  {
  }

  // ---- The blacklist outlives the token ----

  // Every blacklist entry lasts at least as long as the token it names.
  ghost predicate Covered(s: Store) {
    forall j <- s.blacklist :: j in s.issued && s.issued[j].exp <= s.blacklist[j]
  }

  ghost predicate ExpWithinTtl(cfg: Ttls, s: Store) {
    forall j <- s.issued :: s.issued[j].exp <= s.now + cfg.Of(s.issued[j].key.role)
  }

  ghost predicate TwelveHoursSuffice(cfg: Ttls) {
    forall r: Role :: cfg.Of(r) <= 43200
  }

  lemma {:induction false} BlacklistCovers(cfg: Ttls, r: Run)
    requires TwelveHoursSuffice(cfg) && LegalRun(cfg, r)
    ensures Covered(Exec(r)) && ExpWithinTtl(cfg, Exec(r))
  {
    match r
    case Start =>
    case Then(before, c) =>
      BlacklistCovers(cfg, before);
      RunKeepsInv(cfg, before);
      StepKeepsCover(cfg, Exec(before), c);
  }

  lemma StepKeepsCover(cfg: Ttls, s: Store, c: Command)
    requires TwelveHoursSuffice(cfg) && Inv(s) && Covered(s) && ExpWithinTtl(cfg, s) && Legal(cfg, s, c)
    ensures Covered(Apply(s, c)) && ExpWithinTtl(cfg, Apply(s, c))
  {
  }

  /** The fixed 12 hours of the logout blacklist cover every token in every run exactly when no
      role's session lifetime exceeds 12 hours. */
  lemma LogoutBlacklistCoversIff(cfg: Ttls)
    requires cfg.Positive()
    ensures (forall r: Run :: LegalRun(cfg, r) ==> Covered(Exec(r))) <==> TwelveHoursSuffice(cfg)
  {
    if TwelveHoursSuffice(cfg) {
      forall r: Run | LegalRun(cfg, r)
        ensures Covered(Exec(r))
      {
        BlacklistCovers(cfg, r);
      }
    } else {
      var role: Role :| cfg.Of(role) > LOGOUT_BLACKLIST_TTL;
      var r := ShortBlacklistRun(cfg, role);
    }
  }

  // Login, logout (DELETE, then blacklist): the blacklist entry ends before the token does.
  lemma ShortBlacklistRun(cfg: Ttls, role: Role) returns (r: Run)
    requires cfg.Positive() && cfg.Of(role) > LOGOUT_BLACKLIST_TTL
    ensures LegalRun(cfg, r) && !Covered(Exec(r))
  {
    var k := Key("u", role);
    assert Exec(Start) == EMPTY && LegalRun(cfg, Start);
    var loggedIn := Then(Start, Swap(k, "j", cfg.Of(role), cfg.Of(role)));
    var deleted := Then(loggedIn, Delete(k));
    assert LegalRun(cfg, loggedIn) && Exec(loggedIn).issued == map["j" := Token(k, cfg.Of(role))];
    assert LegalRun(cfg, deleted) && Exec(deleted).issued == Exec(loggedIn).issued && Exec(deleted).sessions == map[];
    r := Then(deleted, Blacklist("j", LOGOUT_BLACKLIST_TTL));
    assert Exec(r).blacklist == map["j" := LOGOUT_BLACKLIST_TTL];
    assert "j" in Exec(r).blacklist;
  }

  // ---- Logout deletes by key, not by token ----

  // A login under this key since the moment `read` is still in place at r.
  ghost predicate LoginSince(read: Run, r: Run, k: Key) {
    exists login: Run :: LoggedIn(login, k) && Within(read, login.before) && Within(login, r) && KeptBetween(login, r, k)
  }

  // The moment right after a login under this key.
  predicate LoggedIn(login: Run, k: Key) {
    login.Then? && login.cmd.Swap? && login.cmd.key == k
  }

  lemma {:induction false} FindLogin(cfg: Ttls, read: Run, r: Run, k: Key, j: Jti)
    requires LegalRun(cfg, r) && Within(read, r)
    requires Session(Exec(r), k).Some? && Session(Exec(read), k) == Some(j) && Session(Exec(r), k) != Some(j)
    ensures LoginSince(read, r, k)
  {
    var stored := Session(Exec(r), k).value;
    if LoggedIn(r, k) {
      assert Within(r, r) && KeptBetween(r, r, k);
    } else {
      HeldBefore(cfg, r, k, stored);
      FindLogin(cfg, read, r.before, k, j);
      hide Exec, LegalRun, Session, Keeps;
      var login: Run :|
        LoggedIn(login, k) && Within(read, login.before) && Within(login, r.before) && KeptBetween(login, r.before, k);
      assert Within(login, r) && KeptBetween(login, r, k);
    }
  }

  // Whatever holds the key without having just logged in held it before.
  lemma HeldBefore(cfg: Ttls, r: Run, k: Key, stored: Jti)
    requires LegalRun(cfg, r) && r.Then? && !LoggedIn(r, k) && Session(Exec(r), k) == Some(stored)
    ensures Session(Exec(r.before), k) == Some(stored) && Keeps(Exec(r.before), r.cmd, k)
  {
    RunKeepsInv(cfg, r.before);
    BlacklistIsRedundant(cfg, r.before, k, stored);
    StepKeepsSession(cfg, Exec(r.before), r.cmd, k, stored);
  }

  // A login since `read` that is still in place holds the key with a token of its own.
  lemma LoginHolds(cfg: Ttls, read: Run, login: Run, r: Run, k: Key, j: Jti)
    requires LegalRun(cfg, r) && Session(Exec(read), k) == Some(j)
    requires LoggedIn(login, k) && Within(read, login.before) && Within(login, r) && KeptBetween(login, r, k)
    ensures login.cmd.jti != j && Validates(Exec(r), k, login.cmd.jti)
  {
    PrefixLegal(cfg, login, r);
    PrefixLegal(cfg, read, login.before);
    BlacklistIsRedundant(cfg, read, k, j);
    RunKeepsInv(cfg, read);
    IssuedStays(cfg, read, login.before, j);
    LoginGrants(cfg, login.before, k, login.cmd.jti, login.cmd.ttl, login.cmd.exp);
    ValidUntilRemoved(cfg, login, r, k, login.cmd.jti);
  }

  // Deleting k ends no session but that of j.
  ghost predicate SparesOthers(s: Store, k: Key, j: Jti) {
    forall k': Key, j': Jti :: j' != j && Validates(s, k', j') ==> Validates(Apply(s, Delete(k)), k', j')
  }

  lemma SparesByKey(s: Store, k: Key, j: Jti)
    requires Inv(s)
    ensures SparesOthers(s, k, j) <==> Session(s, k) in {None, Some(j)}
  {
    var stored := Session(s, k);
    if stored.Some? && stored.value != j {
      assert Validates(s, k, stored.value) && !Validates(Apply(s, Delete(k)), k, stored.value);
    }
  }

  /** A logout reads its token j under the key at the moment `read` and deletes the key at r. The DELETE
      ends no other session if and only if no login under that key since the read is still in place. */
  lemma LogoutDeleteIsPrecise(cfg: Ttls, read: Run, r: Run, k: Key, j: Jti)
    requires LegalRun(cfg, r) && Within(read, r) && Session(Exec(read), k) == Some(j)
    ensures SparesOthers(Exec(r), k, j) <==> !LoginSince(read, r, k)
  {
    RunKeepsInv(cfg, r);
    SparesByKey(Exec(r), k, j);
    hide SparesOthers, Exec, LegalRun, KeptBetween, Within;
    if LoginSince(read, r, k) {
      var login: Run :| LoggedIn(login, k) && Within(read, login.before) && Within(login, r) && KeptBetween(login, r, k);
      LoginHolds(cfg, read, login, r, k, j);
    } else if Session(Exec(r), k).Some? && Session(Exec(r), k) != Some(j) {
      FindLogin(cfg, read, r, k, j);
    }
  }

  /** That condition can fail: a login between the GET and the DELETE of a logout loses its fresh
      session although nobody logged it out. At the moment `read` the logout of "old" reads its own
      token; then "new" logs in; then the DELETE runs. */
  lemma LogoutCanDropFreshLogin(cfg: Ttls, k: Key) returns (read: Run, r: Run)
    requires cfg.Positive()
    ensures LegalRun(cfg, r) && r == Then(Then(read, Swap(k, "new", cfg.Of(k.role), 0)), Delete(k))
    ensures Session(Exec(read), k) == Some("old")
    ensures Validates(Exec(r.before), k, "new") && !Validates(Exec(r), k, "new")
  {
    assert Exec(Start) == EMPTY && LegalRun(cfg, Start);
    read := Then(Start, Swap(k, "old", cfg.Of(k.role), 0));
    assert LegalRun(cfg, read) && Exec(read).issued.Keys == {"old"};
    r := Then(Then(read, Swap(k, "new", cfg.Of(k.role), 0)), Delete(k));
    assert "old"[0] != "new"[0];
  }

  lemma StoredUnderSomeRole(s: Store, user: UserId)
    ensures forall j: Jti :: j in StoredTokens(s, user, ALL_ROLES) <==> exists r: Role :: Session(s, Key(user, r)) == Some(j)
  {
    EveryRoleListed();
  }

  lemma StoredNext(s: Store, user: UserId, n: nat)
    requires n < |ALL_ROLES|
    ensures var stored := Session(s, Key(user, ALL_ROLES[n]));
            StoredTokens(s, user, ALL_ROLES[..n + 1]) ==
              StoredTokens(s, user, ALL_ROLES[..n]) + if stored.Some? then {stored.value} else {}
  {
  }

  lemma StampNext(m: map<Jti, nat>, queued: seq<Jti>, n: nat, until: nat)
    requires n < |queued|
    ensures (m + Stamp(Members(queued[..n]), until))[queued[n] := until] == m + Stamp(Members(queued[..n + 1]), until)
  {
  }

  function WithoutRoles(m: map<Key, Entry>, user: UserId, roles: seq<Role>): map<Key, Entry> {
    map k | k in m && !(k.user == user && k.role in roles) :: m[k]
  }

  lemma DropNext(m: map<Key, Entry>, user: UserId, n: nat)
    requires n < |ALL_ROLES|
    ensures WithoutRoles(m, user, ALL_ROLES[..n]) - {Key(user, ALL_ROLES[n])} == WithoutRoles(m, user, ALL_ROLES[..n + 1])
  {
  }

  // The queued SETs of a pipeline, in order.
  method BlacklistAll(m: map<Jti, nat>, queued: seq<Jti>, until: nat) returns (r: map<Jti, nat>)
    ensures r == m + Stamp(Members(queued), until)
  {
    r := m;
    for n := 0 to |queued|
      invariant r == m + Stamp(Members(queued[..n]), until)
    {
      StampNext(m, queued, n, until);
      r := r[queued[n] := until];
    }
    assert queued[..|queued|] == queued;
  }

  // DEL of the user's key under every role.
  method DeleteAllRoles(m: map<Key, Entry>, user: UserId) returns (r: map<Key, Entry>)
    ensures r == map k | k in m && k.user != user :: m[k]
  {
    r := m;
    for n := 0 to |ALL_ROLES|
      invariant r == WithoutRoles(m, user, ALL_ROLES[..n])
    {
      DropNext(m, user, n);
      r := r - {Key(user, ALL_ROLES[n])};
    }
    EveryRoleListed();
  }

  datatype LogoutResult = Destroyed | Rejected

  /** What a logout of j does itself, given that its GET ran at the moment `read`. `steps` are the moments right
      after its own commands: none if the key held another token; the blacklist entry alone if the key was
      empty; the DELETE and then the entry if it held j. */
  ghost predicate LogoutSteps(start: Run, read: Run, end: Run, k: Key, j: Jti, steps: seq<Run>) {
    && Within(start, read) && Within(read, end)
    && match Session(Exec(read), k)
       case None => steps == [end] && Listed(read, end, j)
       case Some(stored) =>
         if stored != j then steps == [] && read == end
         else |steps| == 2 && steps[1] == end && Deleted(read, steps[0], k) && Listed(steps[0], end, j)
  }

  // The blacklist entry of a logout, some time after the moment.
  ghost predicate Listed(moment: Run, end: Run, j: Jti) {
    end.Then? && end.cmd == Blacklist(j, 43200) && Within(moment, end.before)
  }

  ghost predicate Deleted(moment: Run, end: Run, k: Key) {
    end.Then? && end.cmd == Delete(k) && Within(moment, end.before)
  }

  // The command that led to this moment ended no session, whatever its key and token.
  ghost predicate EndsNoSession(moment: Run) {
    moment.Then? && forall k: Key, j: Jti ::
      Session(Exec(moment.before), k) == Some(j) ==> Session(Exec(moment), k) == Some(j)
  }

  /** A logout that found its key empty ends no session by any command of its own, whoever logs in or out between
      its commands; one that found its own token ends at most the session of its key, by its DELETE. */
  lemma EmptyReadSparesAll(start: Run, read: Run, end: Run, k: Key, j: Jti, steps: seq<Run>)
    requires LogoutSteps(start, read, end, k, j, steps)
    ensures Session(Exec(read), k) == None ==> forall r <- steps :: EndsNoSession(r)
    ensures forall r <- steps, k': Key :: r.Then? && k' != k ==> Session(Exec(r), k') == Session(Exec(r.before), k')
  {
  }

  // The tokens stored for a user under some of the roles.
  function StoredTokens(s: Store, user: UserId, roles: seq<Role>): set<Jti> {
    set r | r in roles && Session(s, Key(user, r)).Some? :: Session(s, Key(user, r)).value
  }

  // The pipeline blacklists what was stored for the user at the moment `read`.
  ghost predicate BlacklistsRead(start: Run, read: Run, end: Run, user: UserId, jtis: set<Jti>) {
    && Within(start, read) && Within(read, end)
    && forall j: Jti :: j in jtis <==> exists r: Role :: Session(Exec(read), Key(user, r)) == Some(j)
  }

  /** The service functions of auth.py, each awaiting Redis one command at a time. */
  class SessionService {
    const cfg: Ttls
    var now: nat
    var sessions: map<Key, Entry>
    var blacklist: map<Jti, nat>
    ghost var issued: map<Jti, Token>
    ghost var log: Run
    ghost var own: seq<Run>  // the moments right after the commands sent by the methods of this object

    ghost function State(): Store
      reads this
    {
      Store(now, sessions, blacklist, issued)
    }

    ghost predicate Valid()
      reads this
    {
      cfg.Positive() && LegalRun(cfg, log) && State() == Exec(log)
    }

    constructor (cfg: Ttls)
      requires cfg.Positive()
      ensures Valid() && log == Start && this.cfg == cfg
    {
      this.cfg := cfg;
      now, sessions, blacklist := 0, map[], map[];
      issued, log, own := map[], Start, [];
    }

    // Other requests run here: callers know only that the log grew legally.
    method Interference()
      requires Valid()
      modifies this
      ensures Valid() && Within(old(log), log) && own == old(own)
    {
    }

    // A token dead at an earlier moment of the log is dead now.
    lemma DeadCarries(earlier: Run, jti: Jti)
      requires Valid() && Within(earlier, log) && Dead(Exec(earlier), jti)
      ensures Dead(State(), jti) && issued[jti] == Exec(earlier).issued[jti]
    {
      DeadStaysDead(cfg, earlier, log, jti);
    }

    // ---- Redis commands ----

    method SetGet(k: Key, jti: Jti, ttl: nat, ghost exp: nat) returns (previous: Option<Jti>)
      requires Valid() && Legal(cfg, State(), Swap(k, jti, ttl, exp))
      modifies this
      ensures Valid() && log == Then(old(log), Swap(k, jti, ttl, exp)) && own == old(own) + [log]
      ensures previous == Session(old(State()), k)
    {
      previous := if k in sessions && now < sessions[k].until then Some(sessions[k].jti) else None;
      sessions := sessions[k := Entry(jti, now + ttl)];
      issued := issued[jti := Token(k, exp)];
      log := Then(log, Swap(k, jti, ttl, exp));
      own := own + [log];
    }

    method Get(k: Key) returns (jti: Option<Jti>)
      ensures jti == Session(State(), k)
    {
      jti := if k in sessions && now < sessions[k].until then Some(sessions[k].jti) else None;
    }

    method Exists(jti: Jti) returns (found: bool)
      ensures found <==> Blacklisted(State(), jti)
    {
      found := jti in blacklist && now < blacklist[jti];
    }

    method Del(k: Key)
      requires Valid()
      modifies this
      ensures Valid() && log == Then(old(log), Delete(k)) && own == old(own) + [log]
    {
      sessions := sessions - {k};
      log := Then(log, Delete(k));
      own := own + [log];
    }

    method SetBlacklist(jti: Jti, ttl: nat)
      requires Valid() && Legal(cfg, State(), Blacklist(jti, ttl))
      modifies this
      ensures Valid() && log == Then(old(log), Blacklist(jti, ttl)) && own == old(own) + [log]
    {
      blacklist := blacklist[jti := now + ttl];
      log := Then(log, Blacklist(jti, ttl));
      own := own + [log];
    }

    // MULTI ... EXEC of a revocation: the queued blacklist writes, then one DEL of all role keys.
    method ExecPipeline(user: UserId, queued: seq<Jti>)
      requires Valid() && Legal(cfg, State(), Pipeline(user, Members(queued)))
      modifies this
      ensures Valid() && log == Then(old(log), Pipeline(user, Members(queued))) && own == old(own) + [log]
    {
      blacklist := BlacklistAll(blacklist, queued, now + LOGOUT_BLACKLIST_TTL);
      sessions := DeleteAllRoles(sessions, user);
      log := Then(log, Pipeline(user, Members(queued)));
      own := own + [log];
    }

    // ---- Service functions ----

    /** Login. `jti` is fresh; the token was signed at `signedAt`. The displaced session, if any, is
        dead from the swap on and blacklisted when the call returns. */
    method CreateSession(user: UserId, role: Role, jti: Jti, ghost signedAt: nat)
      returns (ttl: nat, displaced: Option<Jti>)
      requires Valid() && jti !in issued && signedAt <= now
      modifies this
      ensures Valid() && ttl == cfg.Of(role)
      ensures Within(Then(old(log), Swap(Key(user, role), jti, ttl, signedAt + ttl)), log)
      ensures displaced == Session(old(State()), Key(user, role))
      ensures displaced.Some? ==> Dead(State(), displaced.value) && Blacklisted(State(), displaced.value)
      ensures displaced.Some? ==> log == Then(log.before, Blacklist(displaced.value, Max(28800, ttl)))
      ensures displaced.None? ==> log == Then(old(log), Swap(Key(user, role), jti, ttl, signedAt + ttl))
      ensures own == old(own)
        + [Then(old(log), Swap(Key(user, role), jti, ttl, signedAt + ttl))] + if displaced.Some? then [log] else []
    {
      var k := Key(user, role);
      ttl := cfg.Of(role);
      RunKeepsInv(cfg, log);
      displaced := SetGet(k, jti, ttl, signedAt + ttl);
      ghost var swapped := log;
      if displaced.Some? {
        Interference();   // the FORCE_LOGOUT publish
        ghost var published := log;
        Interference();
        WithinTransitive(swapped, published, log);
        DeadCarries(swapped, displaced.value);
        SetBlacklist(displaced.value, Max(LOGIN_BLACKLIST_FLOOR, ttl));
      }
    }

    /** Logout of a verified token. Whatever happens in between, the token is dead on return. It is
        blacklisted as well, unless the key was seen to hold another token. */
    method DestroySession(user: UserId, role: Role, jti: Jti) returns (result: LogoutResult)
      requires Valid() && jti in issued && issued[jti].key == Key(user, role)
      modifies this
      ensures Valid() && Within(old(log), log)
      ensures Dead(State(), jti)
      ensures result == Destroyed ==>
        Blacklisted(State(), jti) && log == Then(log.before, Blacklist(jti, LOGOUT_BLACKLIST_TTL))
      ensures result == Rejected ==> Session(State(), Key(user, role)) !in {None, Some(jti)}
      ensures old(own) <= own
      ensures exists read: Run ::
        && LogoutSteps(old(log), read, log, Key(user, role), jti, own[|old(own)|..])
        && (result == Destroyed <==> Session(Exec(read), Key(user, role)) in {None, Some(jti)})
    {
      var k := Key(user, role);
      ghost var start := log;
      Interference();
      IssuedStays(cfg, start, log, jti);
      ghost var read := log;
      ghost var deletion := log;
      var stored := Get(k);
      if stored.Some? {
        if stored.value != jti {
          assert LogoutSteps(start, read, log, k, jti, own[|old(own)|..]);
          return Rejected;
        }
        Interference();
        WithinTransitive(start, read, log);
        IssuedStays(cfg, start, log, jti);
        Del(k);
        assert Within(read, log.before);
        deletion := log;
      }
      ghost var gone := log;
      Interference();
      WithinTransitive(start, gone, log);
      WithinTransitive(read, gone, log);
      DeadCarries(gone, jti);
      SetBlacklist(jti, LOGOUT_BLACKLIST_TTL);
      result := Destroyed;
      assert own[|old(own)|..] == if stored.None? then [log] else [deletion, log];
      assert LogoutSteps(start, read, log, k, jti, own[|old(own)|..]);
    }

    /** Heartbeat: one EXPIRE, so the answer and the extension belong to the same moment. */
    method RefreshSessionTtl(user: UserId, role: Role) returns (refreshed: bool)
      requires Valid()
      modifies this
      ensures Valid() && log == Then(old(log), Expire(Key(user, role), cfg.Of(role)))
      ensures refreshed <==> Session(old(State()), Key(user, role)).Some?
      ensures Session(State(), Key(user, role)) == Session(old(State()), Key(user, role))
      ensures refreshed ==> sessions[Key(user, role)].until == now + cfg.Of(role)
      ensures own == old(own) + [log]
    {
      var k := Key(user, role);
      refreshed := k in sessions && now < sessions[k].until;
      if refreshed {
        sessions := sessions[k := Entry(sessions[k].jti, now + cfg.Of(role))];
      }
      log := Then(log, Expire(k, cfg.Of(role)));
      own := own + [log];
    }

    /** Validation of a verified token: EXISTS, then GET. The answer is the one an instantaneous
        check would have given at some moment during the call. */
    method ValidateSession(user: UserId, role: Role, jti: Jti) returns (ok: bool)
      requires Valid()
      modifies this
      ensures Valid() && Within(old(log), log) && own == old(own)
      ensures exists moment: Run :: Within(old(log), moment) && Within(moment, log)
                                    && ok == Validates(Exec(moment), Key(user, role), jti)
    {
      ghost var start := log;
      Interference();
      ghost var asked := log;
      var listed := Exists(jti);
      if listed {
        assert Within(asked, log) && !Validates(Exec(asked), Key(user, role), jti);
        return false;
      }
      Interference();
      WithinTransitive(start, asked, log);
      var stored := Get(Key(user, role));
      ok := stored == Some(jti);
      BlacklistIsRedundant(cfg, log, Key(user, role), jti);
      assert Within(log, log);
    }

    // The reply to the MGET, without the keys that are not there.
    method StoredUnder(user: UserId) returns (queued: seq<Jti>)
      requires Valid()
      ensures forall j <- queued :: j in issued && issued[j].key.user == user
      ensures forall j: Jti :: j in queued <==> exists r: Role :: Session(State(), Key(user, r)) == Some(j)
    {
      RunKeepsInv(cfg, log);
      queued := [];
      for n := 0 to |ALL_ROLES|
        invariant forall j <- queued :: j in issued && issued[j].key.user == user
        invariant Members(queued) == StoredTokens(State(), user, ALL_ROLES[..n])
      {
        StoredNext(State(), user, n);
        var stored := Get(Key(user, ALL_ROLES[n]));
        if stored.Some? {
          queued := queued + [stored.value];
        }
      }
      EveryRoleListed();
      StoredUnderSomeRole(State(), user);
      assert forall j: Jti :: j in queued <==> j in Members(queued);
    }

    /** Revocation: MGET over all role keys, queue a blacklist write per stored token, execute.
        On return every token the user was ever issued is dead. */
    method RevokeUserSessions(user: UserId)
      requires Valid()
      modifies this
      ensures Valid() && log.Then? && Within(old(log), log.before) && own == old(own) + [log]
      ensures log.cmd.Pipeline? && log.cmd.user == user
      ensures exists read: Run :: BlacklistsRead(old(log), read, log.before, user, log.cmd.jtis)
      ensures forall j <- issued :: issued[j].key.user == user ==> Dead(State(), j)
      ensures forall j <- log.cmd.jtis :: Blacklisted(State(), j)
    {
      ghost var start := log;
      Interference();
      ghost var read := log;
      var queued := StoredUnder(user);
      Interference();
      WithinTransitive(start, read, log);
      assert BlacklistsRead(start, read, log, user, Members(queued));
      forall j <- queued
        ensures j in issued && issued[j].key.user == user
      {
        IssuedStays(cfg, read, log, j);
      }
      ExecPipeline(user, queued);
    }
  }
}

/** Bytes charged to each user (backend/app/services/album.py, backend/app/repositories/user_repo.py):
    uploads charge the quota, deletions refund it, a photo's refund comes after its deletion in a
    transaction of its own and may fail for good. */
module Quota {
  import opened Basics
  import opened Listings
  import opened PhotoBatches

  const MAX_USER_STORAGE_BYTES: nat := 1_073_741_824
  const DELETE_BATCH: nat := 500
  const REFUND_ATTEMPTS: nat := 3

  // used: users.storage_used_bytes. owed: photos deleted but not refunded yet. other: what is charged
  // for files outside albums. albums: creators of the live albums.
  datatype State = State(
    used: map<UserId, nat>, photos: seq<Photo>, owed: seq<Photo>, other: map<UserId, nat>, albums: map<AlbumId, UserId>)

  datatype Command =
    | Register(u: UserId)
    | CreateAlbum(album: AlbumId, creator: UserId)
    | Upload(photo: Photo)
    | DeletePhoto(i: nat)
    | Refund(i: nat)
    | DeleteAlbum(album: AlbumId, gathered: seq<Photo>)
    | UseElsewhere(u: UserId, size: nat)
    | FreeElsewhere(u: UserId, size: nat)

  function InAlbum(photos: seq<Photo>, album: AlbumId): (r: seq<Photo>)
    ensures forall p :: p in r <==> p in photos && p.album == album
  {
    if photos == [] then []
    else if photos[0].album == album then [photos[0]] + InAlbum(photos[1..], album)
    else InAlbum(photos[1..], album)
  }

  function Outside(photos: seq<Photo>, album: AlbumId): (r: seq<Photo>)
    ensures forall p :: p in r <==> p in photos && p.album != album
  {
    if photos == [] then []
    else if photos[0].album != album then [photos[0]] + Outside(photos[1..], album)
    else Outside(photos[1..], album)
  }

  function RefundAll(used: map<UserId, nat>, gathered: seq<Photo>): map<UserId, nat> {
    map u | u in used :: Deducted(used[u], Bytes(gathered, u))
  }

  // What the batches of a deletion may hold: every statement lists the album's photos in an order of its own.
  ghost predicate MayGather(rows: seq<Photo>, gathered: seq<Photo>) {
    exists orders: nat -> seq<Photo>, n: nat ::
      AllListings(BY_CREATION, orders, rows) && |rows| <= Cut(n, DELETE_BATCH) && gathered == Gathered(orders, DELETE_BATCH, n)
  }

  ghost predicate Legal(s: State, c: Command) {
    match c
    case Register(u) => u !in s.used
    case CreateAlbum(_, creator) => creator in s.used
    case Upload(p) =>
      && p.uploader in s.used && s.used[p.uploader] + p.size <= MAX_USER_STORAGE_BYTES
      && forall q <- s.photos :: q.id != p.id
    case DeletePhoto(i) => i < |s.photos|
    case Refund(i) => i < |s.owed| && s.owed[i].uploader in s.used
    case DeleteAlbum(album, gathered) => album in s.albums && MayGather(InAlbum(s.photos, album), gathered)
    case UseElsewhere(u, _) => u in s.used && u in s.other
    case FreeElsewhere(u, size) => u in s.used && u in s.other && size <= s.other[u]
  }

  // A command that is not legal does nothing.
  ghost function Apply(s: State, c: Command): State {
    if !Legal(s, c) then s else
    match c
    case Register(u) => s.(used := s.used[u := 0], other := s.other[u := 0])
    case CreateAlbum(album, creator) => s.(albums := s.albums[album := creator])
    case Upload(p) => s.(used := s.used[p.uploader := s.used[p.uploader] + p.size], photos := s.photos + [p])
    case DeletePhoto(i) =>
      s.(photos := s.photos[..i] + s.photos[i + 1..], owed := if s.photos[i].size > 0 then s.owed + [s.photos[i]] else s.owed)
    case Refund(i) =>
      var p := s.owed[i];
      s.(used := s.used[p.uploader := Deducted(s.used[p.uploader], p.size)], owed := s.owed[..i] + s.owed[i + 1..])
    case DeleteAlbum(album, gathered) =>
      s.(used := RefundAll(s.used, gathered), photos := Outside(s.photos, album), albums := s.albums - {album})
    case UseElsewhere(u, size) => s.(used := s.used[u := s.used[u] + size], other := s.other[u := s.other[u] + size])
    case FreeElsewhere(u, size) => s.(used := s.used[u := Deducted(s.used[u], size)], other := s.other[u := s.other[u] - size])
  }

  // ---- Conservation ----

  ghost predicate Balanced(s: State, u: UserId)
    requires u in s.used && u in s.other
  {
    s.used[u] == Bytes(s.photos, u) + Bytes(s.owed, u) + s.other[u]
  }

  ghost predicate IdsUnique(photos: seq<Photo>) {
    forall i, j :: 0 <= i < j < |photos| ==> photos[i].id != photos[j].id
  }

  ghost predicate Inv(s: State) {
    && s.used.Keys == s.other.Keys
    && (forall p <- s.photos + s.owed :: p.uploader in s.used)
    && IdsUnique(s.photos)
    && (forall u <- s.used :: Balanced(s, u))
  }

  // Wherever a batch boundary of the album falls on a tie, the tied photos are charged alike.
  ghost predicate FairAlbum(photos: seq<Photo>, album: AlbumId) {
    forall l: seq<Photo> :: IsListing(BY_CREATION, l, InAlbum(photos, album)) ==> CutsFair(l, DELETE_BATCH)
  }

  ghost predicate Fair(s: State, c: Command) {
    c.DeleteAlbum? && Legal(s, c) ==> FairAlbum(s.photos, c.album)
  }

  // A fair album is refunded in full, whatever orders its batches came in.
  lemma FairRefund(photos: seq<Photo>, album: AlbumId, gathered: seq<Photo>, u: UserId)
    requires MayGather(InAlbum(photos, album), gathered) && FairAlbum(photos, album)
    ensures Bytes(gathered, u) == Bytes(InAlbum(photos, album), u)
  {
    var rows := InAlbum(photos, album);
    var orders: nat -> seq<Photo>, n: nat :|
      AllListings(BY_CREATION, orders, rows) && |rows| <= Cut(n, DELETE_BATCH) && gathered == Gathered(orders, DELETE_BATCH, n);
    assert IsListing(BY_CREATION, orders(0), rows);
    FairCutsRefund(rows, orders(0), orders, DELETE_BATCH, n, u);
  }

  lemma {:induction false} BytesSplit(photos: seq<Photo>, album: AlbumId, u: UserId)
    ensures Bytes(photos, u) == Bytes(InAlbum(photos, album), u) + Bytes(Outside(photos, album), u)
  {
    if photos != [] {
      BytesSplit(photos[1..], album, u);
      var p := photos[0];
      assert ([p] + InAlbum(photos[1..], album))[1..] == InAlbum(photos[1..], album);
      assert ([p] + Outside(photos[1..], album))[1..] == Outside(photos[1..], album);
    }
  }

  lemma {:induction false} OutsideKeepsIds(photos: seq<Photo>, album: AlbumId)
    requires IdsUnique(photos)
    ensures IdsUnique(Outside(photos, album))
  {
    if photos != [] {
      OutsideKeepsIds(photos[1..], album);
      assert forall p <- photos[1..] :: p.id != photos[0].id;
    }
  }

  lemma PhotoDeletionBalances(s: State, i: nat, u: UserId)
    requires Inv(s) && i < |s.photos| && u in s.used
    ensures Balanced(Apply(s, DeletePhoto(i)), u)
  {
    assert Balanced(s, u);
    BytesWithout(s.photos, i, u);
    BytesConcat(s.owed, [s.photos[i]], u);
  }

  lemma RefundBalances(s: State, i: nat, u: UserId)
    requires Inv(s) && Legal(s, Refund(i)) && u in s.used
    ensures Balanced(Apply(s, Refund(i)), u)
  {
    assert Balanced(s, u);
    BytesWithout(s.owed, i, u);
  }

  lemma AlbumDeletionBalances(s: State, album: AlbumId, gathered: seq<Photo>, u: UserId)
    requires Inv(s) && Legal(s, DeleteAlbum(album, gathered)) && u in s.used
    ensures Balanced(Apply(s, DeleteAlbum(album, gathered)), u) <==>
      Deducted(s.used[u], Bytes(gathered, u)) == s.used[u] - Bytes(InAlbum(s.photos, album), u)
  {
    assert Balanced(s, u);
    BytesSplit(s.photos, album, u);
  }

  lemma StepBalances(s: State, c: Command, u: UserId)
    requires Inv(s) && Fair(s, c) && Legal(s, c) && u in s.used
    ensures Balanced(Apply(s, c), u)
  {
    assert Balanced(s, u);
    match c
    case Upload(p) => BytesConcat(s.photos, [p], u);
    case DeletePhoto(i) => PhotoDeletionBalances(s, i, u);
    case Refund(i) => RefundBalances(s, i, u);
    case DeleteAlbum(album, gathered) =>
      FairRefund(s.photos, album, gathered, u);
      BytesSplit(s.photos, album, u);
      AlbumDeletionBalances(s, album, gathered, u);
    case _ =>
  }

  lemma NewUserBalances(s: State, u: UserId)
    requires Inv(s) && Legal(s, Register(u))
    ensures Balanced(Apply(s, Register(u)), u)
  {
    NoBytes(s.photos, s.used.Keys, u);
    NoBytes(s.owed, s.used.Keys, u);
  }

  lemma {:induction false} NoBytes(photos: seq<Photo>, known: set<UserId>, u: UserId)
    requires u !in known && forall p <- photos :: p.uploader in known
    ensures Bytes(photos, u) == 0
  {
    if photos != [] {
      assert photos[0] in photos;
      NoBytes(photos[1..], known, u);
    }
  }

  lemma StepKeepsIds(s: State, c: Command)
    requires IdsUnique(s.photos)
    ensures IdsUnique(Apply(s, c).photos)
  {
    if Legal(s, c) && c.DeleteAlbum? {
      OutsideKeepsIds(s.photos, c.album);
    }
  }

  lemma StepKeepsUploaders(s: State, c: Command)
    requires Inv(s)
    ensures var r := Apply(s, c); r.used.Keys == r.other.Keys && forall p <- r.photos + r.owed :: p.uploader in r.used
  {
  }

  lemma StepKeepsInv(s: State, c: Command)
    requires Inv(s) && Fair(s, c)
    ensures Inv(Apply(s, c))
  {
    StepKeepsIds(s, c);
    StepKeepsUploaders(s, c);
    if Legal(s, c) {
      forall u <- Apply(s, c).used
        ensures Balanced(Apply(s, c), u)
      {
        if u in s.used {
          StepBalances(s, c, u);
        } else {
          NewUserBalances(s, u);
        }
      }
    }
  }

  // ---- Runs ----

  type Run = RunOf<Command>

  const EMPTY: State := State(map[], [], [], map[], map[])

  ghost function Exec(run: Run): State {
    match run
    case Start => EMPTY
    case Then(before, c) => Apply(Exec(before), c)
  }

  // Every album that is deleted is fair at that moment.
  ghost predicate AllFair(run: Run) {
    run.Then? ==> AllFair(run.before) && Fair(Exec(run.before), run.cmd)
  }

  lemma {:induction false} RunKeepsIds(run: Run)
    ensures IdsUnique(Exec(run).photos)
  {
    if run.Then? {
      RunKeepsIds(run.before);
      StepKeepsIds(Exec(run.before), run.cmd);
    }
  }

  /** In every run of uploads, deletions with late or lost refunds, and deletions of fair albums, the charge
      of every user is the size of their stored photos plus the refunds still owed plus other usage. */
  lemma {:induction false} BytesConserved(run: Run)
    requires AllFair(run)
    ensures Inv(Exec(run))
  {
    if run.Then? {
      BytesConserved(run.before);
      StepKeepsInv(Exec(run.before), run.cmd);
    }
  }

  /** The clamp at zero never changes a charge: what is deducted was charged before. */
  lemma ClampNeverBites(run: Run, c: Command, u: UserId)
    requires AllFair(Then(run, c)) && Legal(Exec(run), c) && u in Exec(run).used
    ensures c.Refund? ==> Bytes([Exec(run).owed[c.i]], u) <= Exec(run).used[u]
    ensures c.DeleteAlbum? ==> Bytes(c.gathered, u) <= Exec(run).used[u]
    ensures c.FreeElsewhere? && c.u == u ==> c.size <= Exec(run).used[u]
  {
    var s := Exec(run);
    BytesConserved(run);
    assert Balanced(s, u);
    match c
    case Refund(i) => BytesWithout(s.owed, i, u);
    case DeleteAlbum(album, gathered) =>
      BytesSplit(s.photos, album, u);
      FairRefund(s.photos, album, gathered, u);
    case _ =>
  }

  // ---- Albums that are not fair ----

  lemma {:induction false} CutsReach(n: nat, size: nat)
    requires size > 0
    ensures n <= Cut(n, size)
  {
    if n > 0 {
      CutsReach(n - 1, size);
    }
  }

  lemma ShortRefundUnbalances(s: State, album: AlbumId, gathered: seq<Photo>, u: UserId)
    requires Inv(s) && Legal(s, DeleteAlbum(album, gathered))
    requires Bytes(gathered, u) < Bytes(InAlbum(s.photos, album), u)
    ensures u in s.used && !Balanced(Apply(s, DeleteAlbum(album, gathered)), u)
  {
    if u !in s.used {
      NoBytes(InAlbum(s.photos, album), s.used.Keys, u);
    }
    assert Balanced(s, u);
    BytesSplit(s.photos, album, u);
    AlbumDeletionBalances(s, album, gathered, u);
  }

  // An unfair album may be gathered so that one uploader gets back too little, and stays charged for it.
  lemma UnfairUnbalances(s: State, album: AlbumId) returns (gathered: seq<Photo>, u: UserId)
    requires Inv(s) && album in s.albums && !FairAlbum(s.photos, album)
    ensures Legal(s, DeleteAlbum(album, gathered)) && u in s.used
    ensures !Balanced(Apply(s, DeleteAlbum(album, gathered)), u)
  {
    gathered, u := UnfairGather(InAlbum(s.photos, album));
    ShortRefundUnbalances(s, album, gathered, u);
  }

  lemma UnfairGather(rows: seq<Photo>) returns (gathered: seq<Photo>, u: UserId)
    requires !forall l: seq<Photo> :: IsListing(BY_CREATION, l, rows) ==> CutsFair(l, DELETE_BATCH)
    ensures MayGather(rows, gathered) && Bytes(gathered, u) < Bytes(rows, u)
  {
    var l :| IsListing(BY_CREATION, l, rows) && !CutsFair(l, DELETE_BATCH);
    CutsReach(|rows|, DELETE_BATCH);
    var orders;
    orders, u := UnfairCutShortens(rows, l, DELETE_BATCH, |rows|);
    gathered := Gathered(orders, DELETE_BATCH, |rows|);
  }

  /** Deleting an album keeps every account right for all orders the server may choose, if and only if the
      album is fair. */
  lemma DeletionConservesIff(run: Run, album: AlbumId)
    requires AllFair(run) && album in Exec(run).albums
    ensures (forall gathered :: Legal(Exec(run), DeleteAlbum(album, gathered)) ==>
        Inv(Exec(Then(run, DeleteAlbum(album, gathered)))))
      <==> FairAlbum(Exec(run).photos, album)
  {
    BytesConserved(run);
    var s := Exec(run);
    if FairAlbum(s.photos, album) {
      forall gathered | Legal(s, DeleteAlbum(album, gathered))
        ensures Inv(Exec(Then(run, DeleteAlbum(album, gathered))))
      {
        StepKeepsInv(s, DeleteAlbum(album, gathered));
      }
    } else {
      var gathered, u := UnfairUnbalances(s, album);
      assert !Inv(Exec(Then(run, DeleteAlbum(album, gathered))));
    }
  }

  // n uploads into album 0 at one moment, one byte each; the last of 501 is by user 2, the others by user 1.
  function TiedPhoto(i: nat): Photo {
    Photo(i, 0, if i == DELETE_BATCH then 2 else 1, 1, 0)
  }

  function TiedPhotos(n: nat): seq<Photo> {
    if n == 0 then [] else TiedPhotos(n - 1) + [TiedPhoto(n - 1)]
  }

  function Uploads(n: nat): Run {
    if n == 0 then Then(Then(Then(Start, Register(1)), Register(2)), CreateAlbum(0, 1))
    else Then(Uploads(n - 1), Upload(TiedPhoto(n - 1)))
  }

  lemma {:induction false} TiedPhotosAre(n: nat)
    ensures |TiedPhotos(n)| == n && forall i :: 0 <= i < n ==> TiedPhotos(n)[i] == TiedPhoto(i)
  {
    if n > 0 {
      TiedPhotosAre(n - 1);
    }
  }

  lemma {:induction false} AllInAlbum(photos: seq<Photo>, album: AlbumId)
    requires forall i :: 0 <= i < |photos| ==> photos[i].album == album
    ensures InAlbum(photos, album) == photos
  {
    if photos != [] {
      AllInAlbum(photos[1..], album);
    }
  }

  // After n of the uploads.
  ghost predicate Uploaded(s: State, n: nat) {
    && s.photos == TiedPhotos(n) && 0 in s.albums
    && 1 in s.used && 2 in s.used && s.used[1] <= n && s.used[2] <= n
  }

  lemma UploadNext(s: State, n: nat)
    requires Uploaded(s, n) && n <= DELETE_BATCH
    ensures Legal(s, Upload(TiedPhoto(n))) && Uploaded(Apply(s, Upload(TiedPhoto(n))), n + 1)
  {
    TiedPhotosAre(n);
  }

  lemma {:induction false} UploadsStore(n: nat)
    requires n <= DELETE_BATCH + 1
    ensures Uploaded(Exec(Uploads(n)), n) && AllFair(Uploads(n))
  {
    if n > 0 {
      UploadsStore(n - 1);
      UploadNext(Exec(Uploads(n - 1)), n - 1);
    } else {
      var one := Then(Start, Register(1));
      var two := Then(one, Register(2));
      assert Exec(one).used == map[1 := 0] && Exec(two).used == map[1 := 0, 2 := 0];
    }
  }

  lemma TiedListIsUnfair(l: seq<Photo>)
    requires |l| == DELETE_BATCH + 1 && forall i :: 0 <= i < |l| ==> l[i] == TiedPhoto(i)
    ensures IsListing(BY_CREATION, l, l) && !CutsFair(l, DELETE_BATCH)
  {
    var p, q := l[DELETE_BATCH - 1], l[DELETE_BATCH];
    assert Cut(1, DELETE_BATCH) == DELETE_BATCH;
    assert p in l && q in l && !SameCharge(p, q);
    assert !Alike(l, 0);
  }

  lemma TiedAlbumIsUnfair(n: nat)
    requires n == DELETE_BATCH + 1
    ensures !FairAlbum(TiedPhotos(n), 0)
  {
    TiedPhotosAre(n);
    AllInAlbum(TiedPhotos(n), 0);
    TiedListIsUnfair(TiedPhotos(n));
  }

  /** 501 photos uploaded at one moment, by user 1 except the last: a legal run of uploads and one album
      deletion after which a charge is wrong. */
  lemma TiedUploadsUnbalance() returns (run: Run, u: UserId)
    ensures run.Then? && run.before == Uploads(DELETE_BATCH + 1) && run.cmd.DeleteAlbum?
    ensures Legal(Exec(run.before), run.cmd)
    ensures u in Exec(run).used && u in Exec(run).other && !Balanced(Exec(run), u)
  {
    var before := Uploads(DELETE_BATCH + 1);
    UploadsStore(DELETE_BATCH + 1);
    BytesConserved(before);
    TiedAlbumIsUnfair(DELETE_BATCH + 1);
    var gathered;
    gathered, u := UnfairUnbalances(Exec(before), 0);
    run := Then(before, DeleteAlbum(0, gathered));
  }

  // Usage outside albums checks the quota as well.
  ghost predicate QuotaElsewhere(run: Run) {
    run.Then? ==>
      && QuotaElsewhere(run.before)
      && (run.cmd.UseElsewhere? && run.cmd.u in Exec(run.before).used ==>
            Exec(run.before).used[run.cmd.u] + run.cmd.size <= MAX_USER_STORAGE_BYTES)
  }

  /** No upload takes a user above the quota, whatever the batches gathered. */
  lemma {:induction false} QuotaHolds(run: Run, u: UserId)
    requires QuotaElsewhere(run) && u in Exec(run).used
    ensures Exec(run).used[u] <= MAX_USER_STORAGE_BYTES
  {
    if run.Then? {
      var s, c := Exec(run.before), run.cmd;
      if u in s.used {
        QuotaHolds(run.before, u);
      }
    }
  }

  // ---- The service functions ----

  datatype UploadResult = Stored | AlbumNotFound | QuotaExceeded | UnknownUser
  datatype DeleteResult = NotFound | Forbidden | Deleted

  ghost predicate HasPhoto(photos: seq<Photo>, id: nat, album: AlbumId) {
    exists p :: p in photos && p.id == id && p.album == album
  }

  /** Who may delete a photo: the one who uploaded it, the creator of its album as long as the album is there, and
      a site admin; nobody else. */
  lemma OnlyTheseDelete(p: Photo, user: UserId, isAdmin: bool, albums: map<AlbumId, UserId>)
    ensures MayDelete(p, p.uploader, isAdmin, albums) && MayDelete(p, user, true, albums)
    ensures p.album in albums ==> MayDelete(p, albums[p.album], isAdmin, albums)
    ensures !isAdmin && user != p.uploader && (p.album in albums ==> user != albums[p.album]) ==>
      !MayDelete(p, user, isAdmin, albums)
  {
  }

  predicate MayDelete(p: Photo, user: UserId, isAdmin: bool, albums: map<AlbumId, UserId>) {
    p.uploader == user || (p.album in albums && albums[p.album] == user) || isAdmin
  }

  predicate SomeSucceeds(succeeds: nat -> bool) {
    exists k :: 0 <= k < 3 && succeeds(k)
  }

  // The run ends with the refund of this photo.
  ghost predicate RefundedLast(run: Run, photo: Photo) {
    run.Then? && run.cmd.Refund? &&
    var owed := Exec(run.before).owed;
    run.cmd.i < |owed| && owed[run.cmd.i] == photo
  }

  // From start on: the row of the photo goes first; if it has a size, its refund is the last step of the
  // call when some attempt gets through, and stays owed when none does.
  ghost predicate PhotoDeleted(start: Run, i: nat, id: nat, succeeds: nat -> bool, end: Run) {
    var photos := Exec(start).photos;
    && i < |photos| && photos[i].id == id
    && (forall p :: p in Exec(Then(start, DeletePhoto(i))).photos <==> p in photos && p != photos[i])
    && Within(Then(start, DeletePhoto(i)), end)
    && (photos[i].size > 0 ==> if SomeSucceeds(succeeds) then RefundedLast(end, photos[i]) else photos[i] in Exec(end).owed)
  }

  // Everyone's charge drops by the bytes of their photos among these, down to zero at most.
  ghost predicate Refunded(before: map<UserId, nat>, rows: seq<Photo>, after: map<UserId, nat>) {
    after.Keys == before.Keys && forall u <- after :: after[u] == Max(0, before[u] - Bytes(rows, u))
  }

  lemma RefundAllRefunds(used: map<UserId, nat>, rows: seq<Photo>)
    ensures Refunded(used, rows, RefundAll(used, rows))
  {
  }

  // The photo is in and its uploader charged; all else is as before.
  ghost predicate Charged(before: State, p: Photo, after: State) {
    && p.uploader in before.used && after.photos == before.photos + [p]
    && after.used == before.used[p.uploader := before.used[p.uploader] + p.size]
    && after.albums == before.albums && after.owed == before.owed
  }

  class Storage {
    var used: map<UserId, nat>
    var photos: seq<Photo>
    ghost var owed: seq<Photo>
    ghost var other: map<UserId, nat>
    var albums: map<AlbumId, UserId>
    ghost var log: Run
    ghost var own: seq<Command>  // sent by the methods of this object

    ghost function Current(): State
      reads this
    {
      State(used, photos, owed, other, albums)
    }

    ghost predicate Valid()
      reads this
    {
      Current() == Exec(log)
    }

    constructor ()
      ensures Valid() && log == Start
    {
      used, photos, owed, other, albums, log, own := map[], [], [], map[], map[], Start, [];
    }

    // Transactions of others; the new photo id stays unused and a refund owed stays owed.
    method Interference(ghost id: nat, ghost mine: seq<Photo>)
      requires Valid()
      modifies this
      ensures Valid() && Within(old(log), log)
      ensures (AllFair(old(log)) ==> AllFair(log)) && (QuotaElsewhere(old(log)) ==> QuotaElsewhere(log))
      ensures (forall q <- old(photos) :: q.id != id) ==> forall q <- photos :: q.id != id
      ensures own == old(own) && forall p <- mine :: p in old(owed) ==> p in owed
    {
    }

    ghost method Record(c: Command)
      requires var next := Apply(Exec(log), c); used == next.used && photos == next.photos && albums == next.albums
      modifies this`owed, this`other, this`log, this`own
      ensures Valid() && log == Then(old(log), c) && own == old(own) + [c]
    {
      var next := Apply(Exec(log), c);
      owed, other := next.owed, next.other;
      log := Then(log, c);
      own := own + [c];
    }

    /** upload_photo and upload_file_zip: the album is looked up first, the file is stored, then one
        transaction checks the quota, charges the user and inserts the row. */
    method Upload(p: Photo) returns (result: UploadResult)
      requires Valid() && forall q <- photos :: q.id != p.id
      modifies this
      ensures Valid()
      ensures result == AlbumNotFound <==> p.album !in old(albums)
      ensures result == Stored ==> log.Then? && log.cmd == Command.Upload(p) && Within(old(log), log.before)
      ensures result == Stored ==> p in photos && p.uploader in used && used[p.uploader] <= MAX_USER_STORAGE_BYTES
      ensures result in {QuotaExceeded, UnknownUser} ==> Within(old(log), log) && forall q <- photos :: q.id != p.id
      ensures own == if result == Stored then old(own) + [Command.Upload(p)] else old(own)
      ensures result == Stored ==> Charged(Exec(log.before), p, Current())
      ensures result == QuotaExceeded ==>
        (if p.uploader in used then used[p.uploader] else 0) + p.size > MAX_USER_STORAGE_BYTES
    {
      if p.album !in albums {
        return AlbumNotFound;
      }
      Interference(p.id, []);
      result := ChargeAndInsert(p);
    }

    method ChargeAndInsert(p: Photo) returns (result: UploadResult)
      requires Valid() && forall q <- photos :: q.id != p.id
      modifies this
      ensures Valid() && result != AlbumNotFound
      ensures result == QuotaExceeded <==>
        (if p.uploader in old(used) then old(used)[p.uploader] else 0) + p.size > MAX_USER_STORAGE_BYTES
      ensures result == Stored <==> result != QuotaExceeded && p.uploader in old(used)
      ensures result == Stored ==> log == Then(old(log), Command.Upload(p)) && photos == old(photos) + [p]
      ensures result == Stored ==> used == old(used)[p.uploader := old(used)[p.uploader] + p.size]
      ensures result != Stored ==> Current() == old(Current()) && log == old(log)
      ensures own == if result == Stored then old(own) + [Command.Upload(p)] else old(own)
    {
      var storageUsed := if p.uploader in used then used[p.uploader] else 0;
      if storageUsed + p.size > MAX_USER_STORAGE_BYTES {
        return QuotaExceeded;
      }
      if p.uploader !in used {
        return UnknownUser;
      }
      used := used[p.uploader := used[p.uploader] + p.size];
      photos := photos + [p];
      Record(Command.Upload(p));
      return Stored;
    }

    method FindPhoto(id: nat) returns (i: nat)
      ensures i <= |photos|
      ensures i < |photos| ==> photos[i].id == id
      ensures i == |photos| ==> forall q <- photos :: q.id != id
    {
      i := 0;
      while i < |photos| && photos[i].id != id
        invariant i <= |photos| && forall k :: 0 <= k < i ==> photos[k].id != id
      {
        i := i + 1;
      }
    }

    /** delete_photo: one transaction removes the row, then the refund is tried up to three times;
        succeeds(k) says whether attempt k gets through. */
    method DeletePhoto(album: AlbumId, id: nat, user: UserId, isAdmin: bool,
        succeeds: nat -> bool) returns (result: DeleteResult)
      requires Valid()
      modifies this
      ensures Valid() && (AllFair(old(log)) ==> AllFair(log))
      ensures result == NotFound <==> !HasPhoto(old(photos), id, album)
      ensures forall p <- old(photos) :: p.id == id && p.album == album ==>
        (result == Forbidden <==>
          user != p.uploader && !isAdmin && (album in old(albums) ==> user != old(albums)[album]))
      ensures result == Deleted ==> forall q <- photos :: q.id != id
      ensures result == Deleted ==> exists i :: PhotoDeleted(old(log), i, id, succeeds, log)
      ensures result != Deleted ==> Current() == old(Current()) && own == old(own)
      ensures result == Deleted ==> DeleteSteps(own, old(own), SomeSucceeds(succeeds))
    {
      RunKeepsIds(log);
      var i := FindPhoto(id);
      if i == |photos| || photos[i].album != album {
        return NotFound;
      }
      var photo := photos[i];
      if !MayDelete(photo, user, isAdmin, albums) {
        return Forbidden;
      }
      ghost var start := log;
      photos := photos[..i] + photos[i + 1..];
      Record(Command.DeletePhoto(i));
      if photo.size > 0 {
        var done := RefundDeleted(photo, succeeds);
      }
      assert PhotoDeleted(start, i, id, succeeds, log);
      return Deleted;
    }

    // The commands of a deletion: the row, then at most one refund, and none if no attempt gets through.
    ghost predicate DeleteSteps(now: seq<Command>, before: seq<Command>, some: bool) {
      && |before| < |now| && now[..|before|] == before && now[|before|].DeletePhoto?
      && (|now| == |before| + 1 || (some && |now| == |before| + 2 && now[|before| + 1].Refund?))
    }

    method RefundDeleted(photo: Photo, succeeds: nat -> bool) returns (done: bool)
      requires Valid() && photo in owed && forall q <- photos :: q.id != photo.id
      modifies this
      ensures Valid() && Within(old(log), log) && (AllFair(old(log)) ==> AllFair(log))
      ensures if done then RefundedLast(log, photo) else photo in owed
      ensures forall q <- photos :: q.id != photo.id
      ensures done <==> SomeSucceeds(succeeds)
      ensures if done then |own| == |old(own)| + 1 && old(own) <= own && own[|old(own)|].Refund? else own == old(own)
    {
      done := false;
      var attempt := 0;
      while attempt < REFUND_ATTEMPTS && !done
        invariant attempt <= REFUND_ATTEMPTS
        invariant Valid() && (AllFair(old(log)) ==> AllFair(log))
        invariant forall q <- photos :: q.id != photo.id
        invariant !done ==> photo in owed && forall k :: 0 <= k < attempt ==> !succeeds(k)
        invariant done ==> SomeSucceeds(succeeds) && RefundedLast(log, photo)
        invariant Within(old(log), log)
        invariant if done then |own| == |old(own)| + 1 && old(own) <= own && own[|old(own)|].Refund? else own == old(own)
      {
        ghost var before := log;
        Interference(photo.id, [photo]);
        WithinTransitive(old(log), before, log);
        if succeeds(attempt) {
          DecrementStorageUsed(photo);
          done := true;
        }
        attempt := attempt + 1;
      }
    }

    method DecrementStorageUsed(photo: Photo)
      requires Valid() && photo in owed
      modifies this
      ensures Valid() && (AllFair(old(log)) ==> AllFair(log))
      ensures used.Keys == old(used.Keys)
      ensures forall u <- used ::
        used[u] == if u == photo.uploader then Max(0, old(used)[u] - photo.size) else old(used)[u]
      ensures photos == old(photos) && RefundedLast(log, photo) && log.before == old(log)
      ensures |own| == |old(own)| + 1 && old(own) <= own && own[|old(own)|].Refund?
    {
      ghost var i :| 0 <= i < |owed| && owed[i] == photo;
      if photo.uploader in used {
        used := used[photo.uploader := Deducted(used[photo.uploader], photo.size)];
      }
      Record(Refund(i));
    }

    // The photos of an album in any order the server lists them in, one order per statement.
    ghost predicate Listings(album: AlbumId, orders: nat -> seq<Photo>)
      reads this
    {
      AllListings(BY_CREATION, orders, InAlbum(photos, album))
    }

    /** delete_album: gather the photos in batches of 500, add up the refunds, deduct them, delete the
        rows. The album's photos cannot change meanwhile, because the album row is locked. */
    method DeleteAlbum(album: AlbumId, orders: nat -> seq<Photo>) returns (deleted: bool)
      requires Valid() && Listings(album, orders)
      modifies this
      ensures Valid() && deleted == (album in old(albums))
      ensures !deleted ==> Current() == old(Current())
      ensures deleted ==> albums == old(albums) - {album} && forall p :: p in photos <==> p in old(photos) && p.album != album
      ensures deleted ==> log.Then? && log.before == old(log) && log.cmd.DeleteAlbum? && own == old(own) + [log.cmd]
      ensures !deleted ==> own == old(own) && log == old(log)
      ensures deleted && FairAlbum(old(photos), album) && AllFair(old(log)) ==> AllFair(log)
      ensures deleted && FairAlbum(old(photos), album) ==> Refunded(old(used), InAlbum(old(photos), album), used)
    {
      if album !in albums {
        return false;
      }
      FairCuts(photos, album, orders);
      StillFair(log, album);
      RefundAllRefunds(used, InAlbum(photos, album));
      ghost var gathered := Remove(album, orders);
      return true;
    }

    // Refunds, then the rows, in one transaction.
    method Remove(album: AlbumId, orders: nat -> seq<Photo>) returns (ghost gathered: seq<Photo>)
      requires Valid() && Listings(album, orders) && album in albums
      modifies this
      ensures Valid() && albums == old(albums) - {album} && photos == Outside(old(photos), album)
      ensures log == Then(old(log), Command.DeleteAlbum(album, gathered)) && own == old(own) + [log.cmd]
      ensures CutsFair(orders(0), DELETE_BATCH) ==> used == RefundAll(old(used), InAlbum(old(photos), album))
    {
      hide RefundAll, Outside, InAlbum, Apply, Exec, MayGather;
      ghost var before := Current();
      used, gathered := RefundAlbum(used, orders, InAlbum(photos, album));
      DeletionIs(before, album, gathered);
      photos := RemovePhotos(photos, album);
      albums := albums - {album};
      Record(Command.DeleteAlbum(album, gathered));
    }
  }

  lemma DeletionIs(s: State, album: AlbumId, gathered: seq<Photo>)
    requires album in s.albums && MayGather(InAlbum(s.photos, album), gathered)
    ensures Apply(s, DeleteAlbum(album, gathered)) ==
      s.(used := RefundAll(s.used, gathered), photos := Outside(s.photos, album), albums := s.albums - {album})
  {
    hide RefundAll, Outside, InAlbum, MayGather;
  }

  lemma FairCuts(photos: seq<Photo>, album: AlbumId, orders: nat -> seq<Photo>)
    requires AllListings(BY_CREATION, orders, InAlbum(photos, album))
    ensures FairAlbum(photos, album) ==> CutsFair(orders(0), DELETE_BATCH)
  {
    assert IsListing(BY_CREATION, orders(0), InAlbum(photos, album));
  }

  lemma StillFair(run: Run, album: AlbumId)
    ensures AllFair(run) && FairAlbum(Exec(run).photos, album) ==>
      forall gathered :: AllFair(Then(run, DeleteAlbum(album, gathered)))
  {
  }

  /** Gather, fold, deduct: if every boundary on a tie falls among photos charged alike, every uploader
      gets back exactly the bytes of their photos in the album. */
  method RefundAlbum(used0: map<UserId, nat>, orders: nat -> seq<Photo>, ghost rows: seq<Photo>)
    returns (used: map<UserId, nat>, ghost gathered: seq<Photo>)
    requires AllListings(BY_CREATION, orders, rows)
    ensures MayGather(rows, gathered) && used == RefundAll(used0, gathered)
    ensures CutsFair(orders(0), DELETE_BATCH) ==> used == RefundAll(used0, rows)
  {
    ListingLengths(orders, rows);
    var batches := IterPhotosForAlbumBatched(orders, |rows|, DELETE_BATCH);
    gathered := Gathered(orders, DELETE_BATCH, |batches|);
    var keys, refunds := FoldRefunds(batches);
    used := ApplyRefunds(used0, keys, refunds);
    assert used == RefundAll(used0, gathered);
    FairRefundAll(used0, rows, orders, |batches|);
  }

  lemma ListingLengths(orders: nat -> seq<Photo>, rows: seq<Photo>)
    requires AllListings(BY_CREATION, orders, rows)
    ensures forall k :: |orders(k)| == |rows|
  {
    forall k {
      ListingAt(BY_CREATION, orders, rows, k);
    }
  }

  lemma FairRefundAll(used: map<UserId, nat>, rows: seq<Photo>, orders: nat -> seq<Photo>, n: nat)
    requires AllListings(BY_CREATION, orders, rows) && |rows| <= Cut(n, DELETE_BATCH)
    ensures CutsFair(orders(0), DELETE_BATCH) ==>
      RefundAll(used, Gathered(orders, DELETE_BATCH, n)) == RefundAll(used, rows)
  {
    assert IsListing(BY_CREATION, orders(0), rows);
    if CutsFair(orders(0), DELETE_BATCH) {
      forall u {
        FairCutsRefund(rows, orders(0), orders, DELETE_BATCH, n, u);
      }
    }
  }

  // DELETE FROM album_photos WHERE album_id = $1
  method RemovePhotos(photos: seq<Photo>, album: AlbumId) returns (kept: seq<Photo>)
    ensures kept == Outside(photos, album)
  {
    kept := Outside(photos, album);
  }
}

/** Collecting the photos of an album in OFFSET batches and adding up the refund of each uploader
    (backend/app/repositories/album_repo.py, iter_photos_for_album_batched, and the refund loops of
    delete_album in backend/app/services/album.py).

    Every batch is a SELECT of its own, ORDER BY created_at with no tie-breaker: two statements may
    list photos of equal created_at in different orders. */
module PhotoBatches {
  import opened Basics
  import opened Listings

  type UserId = nat
  type AlbumId = nat

  datatype Photo = Photo(id: nat, album: AlbumId, uploader: UserId, size: nat, createdAt: int)

  // ORDER BY created_at
  predicate NotLaterThan(p: Photo, q: Photo) {
    p.createdAt <= q.createdAt
  }

  const BY_CREATION: (Photo, Photo) -> bool := NotLaterThan

  // ---- Bytes per uploader ----

  function Charge(p: Photo, u: UserId): nat {
    if p.uploader == u then p.size else 0
  }

  function Bytes(photos: seq<Photo>, u: UserId): nat {
    if photos == [] then 0 else Charge(photos[0], u) + Bytes(photos[1..], u)
  }

  lemma {:induction false} BytesConcat(a: seq<Photo>, b: seq<Photo>, u: UserId)
    ensures Bytes(a + b, u) == Bytes(a, u) + Bytes(b, u)
  {
    if a == [] {
      assert a + b == b;
    } else {
      BytesConcat(a[1..], b, u);
      assert (a + b)[1..] == a[1..] + b;
    }
  }

  lemma BytesWithout(a: seq<Photo>, i: nat, u: UserId)
    requires i < |a|
    ensures Bytes(a, u) == Bytes(a[..i] + a[i + 1..], u) + Bytes([a[i]], u)
  {
    BytesConcat(a[..i], a[i + 1..], u);
    BytesConcat([a[i]], a[i + 1..], u);
    BytesConcat(a[..i], [a[i]] + a[i + 1..], u);
    assert a == a[..i] + ([a[i]] + a[i + 1..]);
  }

  lemma BytesSlices(a: seq<Photo>, lo: nat, hi: nat, u: UserId)
    requires lo <= hi <= |a|
    ensures Bytes(a[..hi], u) == Bytes(a[..lo], u) + Bytes(a[lo..hi], u)
  {
    BytesConcat(a[..lo], a[lo..hi], u);
    assert a[..hi] == a[..lo] + a[lo..hi];
  }

  lemma MultisetWithout(a: seq<Photo>, i: nat)
    requires i < |a|
    ensures multiset(a[..i] + a[i + 1..]) == multiset(a) - multiset{a[i]}
  {
    assert a == a[..i] + [a[i]] + a[i + 1..];
  }

  // The first photo of a listing, found in another listing of the same photos.
  lemma TakeOut(a: seq<Photo>, b: seq<Photo>) returns (i: nat)
    requires a != [] && multiset(a) == multiset(b)
    ensures i < |b| && b[i] == a[0]
    ensures multiset(a[1..]) == multiset(b[..i] + b[i + 1..])
  {
    i := Find(b, a[0]);
    MultisetWithout(b, i);
    assert a == [a[0]] + a[1..];
    assert multiset(a[1..]) == multiset(a) - multiset{a[0]};
  }

  lemma Find(a: seq<Photo>, p: Photo) returns (i: nat)
    requires p in multiset(a)
    ensures i < |a| && a[i] == p
  {
    assert p in a;
    i :| 0 <= i < |a| && a[i] == p;
  }

  lemma {:induction false} BytesOfPermutation(a: seq<Photo>, b: seq<Photo>, u: UserId)
    requires multiset(a) == multiset(b)
    ensures Bytes(a, u) == Bytes(b, u)
  {
    if a == [] {
      assert |b| == |multiset(b)| == 0;
    } else {
      var i := TakeOut(a, b);
      BytesOfPermutation(a[1..], b[..i] + b[i + 1..], u);
      BytesWithout(b, i, u);
    }
  }

  // ---- The loop ----

  function Flatten(batches: seq<seq<Photo>>): seq<Photo> {
    if batches == [] then [] else Flatten(batches[..|batches| - 1]) + batches[|batches| - 1]
  }

  /** The batches are consecutive slices, each of the order its own statement chose, and cover all rows. */
  method IterPhotosForAlbumBatched(orders: nat -> seq<Photo>, ghost count: nat,
      size: nat) returns (batches: seq<seq<Photo>>)
    requires size >= 1
    requires forall k :: |orders(k)| == count
    ensures Flatten(batches) == Gathered(orders, size, |batches|)
    ensures count <= Cut(|batches|, size)
  {
    batches := [];
    var offset := 0;
    while true
      invariant offset == Cut(|batches|, size)
      invariant Flatten(batches) == Gathered(orders, size, |batches|)
      decreases count + size - offset
    {
      var listing := orders(|batches|);
      var rows := listing[Min(offset, |listing|)..Min(offset + size, |listing|)];
      if |rows| == 0 {
        break;
      }
      assert (batches + [rows])[..|batches|] == batches;
      batches := batches + [rows];
      offset := offset + size;
      if |rows| < size {
        break;
      }
    }
  }

  // ---- When the batches gather every photo exactly once ----

  // Whatever orders the statements choose, n batches hold each row exactly once.
  ghost predicate AlwaysExact(rows: seq<Photo>, size: nat, n: nat) {
    forall orders: nat -> seq<Photo> :: AllListings(BY_CREATION, orders, rows) ==>
      multiset(Gathered(orders, size, n)) == multiset(rows)
  }

  ghost predicate Distinct(l: seq<Photo>) {
    forall i, j :: 0 <= i < j < |l| ==> l[i] != l[j]
  }

  // Statement k lists the rows as `other`, the rest as l.
  function OneOther(l: seq<Photo>, other: seq<Photo>, k: nat): nat -> seq<Photo> {
    (j: nat) => if j == k then other else l
  }

  // Every statement lists the rows as l.
  function AlwaysAs(l: seq<Photo>): nat -> seq<Photo> {
    (j: nat) => l
  }

  // The bytes of u in batch k.
  function BatchBytes(orders: nat -> seq<Photo>, size: nat, k: nat, u: UserId): nat {
    Bytes(Batch(orders(k), k, size), u)
  }

  function GatheredBytes(orders: nat -> seq<Photo>, size: nat, n: nat, u: UserId): nat {
    if n == 0 then 0 else GatheredBytes(orders, size, n - 1, u) + BatchBytes(orders, size, n - 1, u)
  }

  lemma {:induction false} BytesGathered(orders: nat -> seq<Photo>, size: nat, n: nat, u: UserId)
    ensures Bytes(Gathered(orders, size, n), u) == GatheredBytes(orders, size, n, u)
  {
    if n > 0 {
      BytesGathered(orders, size, n - 1, u);
      BytesConcat(Gathered(orders, size, n - 1), Batch(orders(n - 1), n - 1, size), u);
    }
  }

  lemma {:induction false} OneOtherGathers(l: seq<Photo>, other: seq<Photo>, k: nat, size: nat, n: nat, u: UserId)
    ensures GatheredBytes(OneOther(l, other, k), size, n, u) == GatheredBytes(AlwaysAs(l), size, n, u) +
      if k < n then BatchBytes(AlwaysAs(other), size, k, u) - BatchBytes(AlwaysAs(l), size, k, u) else 0
  {
    hide OneOther, AlwaysAs, BatchBytes;
    if n > 0 {
      OneOtherGathers(l, other, k, size, n - 1, u);
      OneOtherBatch(l, other, k, size, n - 1, u);
    }
  }

  lemma OneOtherBatch(l: seq<Photo>, other: seq<Photo>, k: nat, size: nat, j: nat, u: UserId)
    ensures BatchBytes(OneOther(l, other, k), size, j, u) ==
      if j == k then BatchBytes(AlwaysAs(other), size, k, u) else BatchBytes(AlwaysAs(l), size, j, u)
  {
  }

  lemma AlwaysAsGathersAll(l: seq<Photo>, rows: seq<Photo>, size: nat, n: nat, u: UserId)
    requires multiset(l) == multiset(rows) && |rows| <= Cut(n, size)
    ensures GatheredBytes(AlwaysAs(l), size, n, u) == Bytes(rows, u)
  {
    GatheredConstant(l, AlwaysAs(l), size, n);
    WholePrefix(l, rows, size, n);
    BytesGathered(AlwaysAs(l), size, n, u);
    BytesOfPermutation(l, rows, u);
  }

  // The photos before boundary k.
  function Prefix(l: seq<Photo>, size: nat, k: nat): seq<Photo> {
    l[..Min(Cut(k, size), |l|)]
  }

  lemma WholePrefix(l: seq<Photo>, rows: seq<Photo>, size: nat, n: nat)
    requires multiset(l) == multiset(rows) && |rows| <= Cut(n, size)
    ensures Prefix(l, size, n) == l
  {
    SameLength(l, rows);
  }

  lemma OneOtherListings(l: seq<Photo>, other: seq<Photo>, k: nat, rows: seq<Photo>)
    requires IsListing(BY_CREATION, l, rows) && IsListing(BY_CREATION, other, rows)
    ensures AllListings(BY_CREATION, OneOther(l, other, k), rows)
  {
  }

  lemma CreationOrders()
    ensures Preorder(BY_CREATION)
  {
  }

  lemma NotInSlice(l: seq<Photo>, at: nat, lo: nat, hi: nat)
    requires lo <= hi <= |l| && at < |l| && !(lo <= at < hi)
    requires forall i :: 0 <= i < |l| && i != at ==> l[i] != l[at]
    ensures l[at] !in l[lo..hi]
  {
  }

  // The photo behind boundary k, listed before it by statement k, is in none of the batches.
  lemma {:induction false} SwappedNeverGathers(l: seq<Photo>, k: nat, size: nat, n: nat)
    requires Distinct(l) && 0 < Cut(k, size) < |l|
    ensures l[Cut(k, size)] !in Gathered(OneOther(l, Swap(l, Cut(k, size) - 1, Cut(k, size)), k), size, n)
  {
    hide OneOther, Swap, Batch, Distinct;
    if n > 0 {
      SwappedNeverGathers(l, k, size, n - 1);
      SwappedBatch(l, k, size, n - 1);
    }
  }

  lemma SwappedBatch(l: seq<Photo>, k: nat, size: nat, j: nat)
    requires Distinct(l) && 0 < Cut(k, size) < |l|
    ensures l[Cut(k, size)] !in Batch(OneOther(l, Swap(l, Cut(k, size) - 1, Cut(k, size)), k)(j), j, size)
  {
    var cut := Cut(k, size);
    var list := OneOther(l, Swap(l, cut - 1, cut), k)(j);
    if j < k {
      CutsApart(j, k, size);
    } else if k < j {
      CutsApart(k, j, size);
      assert Cut(k + 1, size) == cut + size;
    }
    if size > 0 || j < k {
      NotInSlice(list, if j == k then cut - 1 else cut, Min(Cut(j, size), |l|), Min(Cut(j + 1, size), |l|));
    }
  }

  // With a tie across boundary k the server may list the photos so that one is never gathered.
  lemma MissesPhoto(rows: seq<Photo>, l: seq<Photo>, size: nat, n: nat, k: nat) returns (orders: nat -> seq<Photo>)
    requires IsListing(BY_CREATION, l, rows) && Distinct(l)
    requires 0 < Cut(k, size) < |l| && BY_CREATION(l[Cut(k, size)], l[Cut(k, size) - 1])
    ensures AllListings(BY_CREATION, orders, rows)
    ensures multiset(Gathered(orders, size, n)) != multiset(rows)
  {
    var cut := Cut(k, size);
    CreationOrders();
    SwapIsListing(BY_CREATION, l, cut - 1, cut);
    orders := OneOther(l, Swap(l, cut - 1, cut), k);
    OneOtherListings(l, Swap(l, cut - 1, cut), k, rows);
    SwappedNeverGathers(l, k, size, n);
    assert l[cut] in multiset(l);
  }

  lemma DirtyCutMisses(rows: seq<Photo>, l: seq<Photo>, size: nat, n: nat) returns (orders: nat -> seq<Photo>)
    requires IsListing(BY_CREATION, l, rows) && Distinct(l) && !CutsClean(BY_CREATION, l, size)
    ensures AllListings(BY_CREATION, orders, rows)
    ensures multiset(Gathered(orders, size, n)) != multiset(rows)
  {
    var k :| 0 < Cut(k, size) < |l| && BY_CREATION(l[Cut(k, size)], l[Cut(k, size) - 1]);
    orders := MissesPhoto(rows, l, size, n, k);
  }

  lemma CleanCutsExact(rows: seq<Photo>, l: seq<Photo>, orders: nat -> seq<Photo>, size: nat, n: nat)
    requires IsListing(BY_CREATION, l, rows) && CutsClean(BY_CREATION, l, size)
    requires AllListings(BY_CREATION, orders, rows)
    requires |rows| <= Cut(n, size)
    ensures multiset(Gathered(orders, size, n)) == multiset(rows)
  {
    CreationOrders();
    CleanCutsGather(BY_CREATION, rows, l, orders, size, n);
    WholePrefix(l, rows, size, n);
  }

  /** The batches gather each photo exactly once, for every order the server may choose, if and only
      if no batch boundary separates two photos of equal created_at. */
  lemma BatchesExactIff(rows: seq<Photo>, l: seq<Photo>, size: nat, n: nat)
    requires IsListing(BY_CREATION, l, rows) && Distinct(l) && |rows| <= Cut(n, size)
    ensures AlwaysExact(rows, size, n) <==> CutsClean(BY_CREATION, l, size)
  {
    if CutsClean(BY_CREATION, l, size) {
      forall orders: nat -> seq<Photo> | AllListings(BY_CREATION, orders, rows)
        ensures multiset(Gathered(orders, size, n)) == multiset(rows)
      {
        CleanCutsExact(rows, l, orders, size, n);
      }
    } else {
      var orders := DirtyCutMisses(rows, l, size, n);
      assert multiset(Gathered(orders, size, n)) != multiset(rows);
    }
  }

  // ---- When the refunds are right ----

  // For the accounts it makes no difference which of the two is counted.
  predicate SameCharge(p: Photo, q: Photo) {
    (p.size == 0 && q.size == 0) || (p.uploader == q.uploader && p.size == q.size)
  }

  // Where a boundary falls on a tie, all photos of that created_at are charged alike.
  ghost predicate CutsFair(l: seq<Photo>, size: nat) {
    forall k :: 0 < Cut(k, size) < |l| && l[Cut(k, size) - 1].createdAt == l[Cut(k, size)].createdAt ==>
      Alike(l, l[Cut(k, size)].createdAt)
  }

  ghost predicate Alike(l: seq<Photo>, t: int) {
    forall p <- l, q <- l :: p.createdAt == t && q.createdAt == t ==> SameCharge(p, q)
  }

  // Whatever orders the statements choose, n batches add up to every uploader's bytes.
  ghost predicate AlwaysFair(rows: seq<Photo>, size: nat, n: nat) {
    forall orders: nat -> seq<Photo>, u: UserId :: AllListings(BY_CREATION, orders, rows) ==>
      Bytes(Gathered(orders, size, n), u) == Bytes(rows, u)
  }

  lemma {:induction false} BytesAlike(a: seq<Photo>, b: seq<Photo>, u: UserId)
    requires |a| == |b| && forall i :: 0 <= i < |a| ==> SameCharge(a[i], b[i])
    ensures Bytes(a, u) == Bytes(b, u)
  {
    if a != [] {
      BytesAlike(a[1..], b[1..], u);
    }
  }

  // The first position of the tie that position i belongs to.
  lemma TieStart(l: seq<Photo>, i: nat) returns (start: nat)
    requires Sorted(BY_CREATION, l) && i < |l|
    ensures start <= i && (forall j :: start <= j <= i ==> l[j].createdAt == l[i].createdAt)
    ensures start > 0 ==> !BY_CREATION(l[start], l[start - 1])
  {
    start := i;
    while start > 0 && l[start - 1].createdAt == l[i].createdAt
      invariant start <= i && forall j :: start <= j <= i ==> l[j].createdAt == l[i].createdAt
    {
      start := start - 1;
    }
    assert start > 0 ==> BY_CREATION(l[start - 1], l[start]);
  }

  lemma InPermutation(a: seq<Photo>, b: seq<Photo>, i: nat)
    requires multiset(a) == multiset(b) && i < |b|
    ensures b[i] in a
  {
    assert b[i] in multiset(b);
  }

  // Before a position inside a tie of photos charged alike, two listings hold the same bytes.
  lemma TiedPrefixBytes(a: seq<Photo>, b: seq<Photo>, cut: nat, u: UserId)
    requires Sorted(BY_CREATION, a) && Sorted(BY_CREATION, b) && multiset(a) == multiset(b)
    requires 0 < cut < |a| && a[cut - 1].createdAt == a[cut].createdAt && Alike(a, a[cut].createdAt)
    ensures cut < |b| && Bytes(a[..cut], u) == Bytes(b[..cut], u)
  {
    SameLength(a, b);
    CreationOrders();
    var start := TieStart(a, cut);
    if start > 0 {
      PrefixesAgree(BY_CREATION, a, b, start);
    }
    BytesOfPermutation(a[..start], b[..start], u);
    if start < cut {
      forall i | start <= i < cut
        ensures SameCharge(a[i], b[i])
      {
        PositionsTied(BY_CREATION, a, b, i);
        InPermutation(a, b, i);
      }
      BytesAlike(a[start..cut], b[start..cut], u);
    }
    BytesSlices(a, start, cut, u);
    BytesSlices(b, start, cut, u);
  }

  lemma PrefixBytes(a: seq<Photo>, b: seq<Photo>, size: nat, k: nat, u: UserId)
    requires Sorted(BY_CREATION, a) && Sorted(BY_CREATION, b) && multiset(a) == multiset(b) && CutsFair(a, size)
    ensures |a| == |b|
    ensures Bytes(a[..Min(Cut(k, size), |a|)], u) == Bytes(b[..Min(Cut(k, size), |b|)], u)
  {
    SameLength(a, b);
    CreationOrders();
    var cut := Cut(k, size);
    if 0 < cut < |a| {
      if a[cut - 1].createdAt == a[cut].createdAt {
        TiedPrefixBytes(a, b, cut, u);
      } else {
        assert BY_CREATION(a[cut - 1], a[cut]);
        PrefixesAgree(BY_CREATION, a, b, cut);
        BytesOfPermutation(a[..cut], b[..cut], u);
      }
    } else if cut >= |a| {
      assert a[..|a|] == a && b[..|b|] == b;
      BytesOfPermutation(a, b, u);
    }
  }

  lemma SameBatchBytes(a: seq<Photo>, b: seq<Photo>, size: nat, k: nat, u: UserId)
    requires Sorted(BY_CREATION, a) && Sorted(BY_CREATION, b) && multiset(a) == multiset(b) && CutsFair(a, size)
    ensures BatchBytes(AlwaysAs(a), size, k, u) == BatchBytes(AlwaysAs(b), size, k, u)
  {
    PrefixBytes(a, b, size, k, u);
    PrefixBytes(a, b, size, k + 1, u);
    BytesSlices(a, Min(Cut(k, size), |a|), Min(Cut(k + 1, size), |a|), u);
    BytesSlices(b, Min(Cut(k, size), |b|), Min(Cut(k + 1, size), |b|), u);
  }

  lemma {:induction false} FairGather(l: seq<Photo>, orders: nat -> seq<Photo>, size: nat, n: nat, u: UserId)
    requires forall k: nat :: BatchBytes(orders, size, k, u) == BatchBytes(AlwaysAs(l), size, k, u)
    ensures GatheredBytes(orders, size, n, u) == GatheredBytes(AlwaysAs(l), size, n, u)
  {
    if n > 0 {
      FairGather(l, orders, size, n - 1, u);
    }
  }

  /** Fair boundaries: every uploader is refunded their bytes, whatever orders the statements choose. */
  lemma FairCutsRefund(rows: seq<Photo>, l: seq<Photo>, orders: nat -> seq<Photo>, size: nat, n: nat, u: UserId)
    requires IsListing(BY_CREATION, l, rows) && CutsFair(l, size) && AllListings(BY_CREATION, orders, rows)
    requires |rows| <= Cut(n, size)
    ensures Bytes(Gathered(orders, size, n), u) == Bytes(rows, u)
  {
    forall k: nat
      ensures BatchBytes(orders, size, k, u) == BatchBytes(AlwaysAs(l), size, k, u)
    {
      ListingAt(BY_CREATION, orders, rows, k);
      SameBatchBytes(l, orders(k), size, k, u);
    }
    FairGather(l, orders, size, n, u);
    AlwaysAsGathersAll(l, rows, size, n, u);
    BytesGathered(orders, size, n, u);
  }

  // ---- ... and when they are not ----

  // The same photos with p, tied with the photo at `at`, moved there; i is where it was.
  lemma Place(l: seq<Photo>, at: nat, p: Photo) returns (r: seq<Photo>, i: nat)
    requires Sorted(BY_CREATION, l) && at < |l| && p in l && p.createdAt == l[at].createdAt
    ensures i < |l| && l[i] == p && r == Swap(l, i, at) && IsListing(BY_CREATION, r, l)
  {
    CreationOrders();
    i :| 0 <= i < |l| && l[i] == p;
    SwapIsListing(BY_CREATION, l, i, at);
    r := Swap(l, i, at);
  }

  // A listing with p behind the boundary and q before it.
  lemma Across(l: seq<Photo>, cut: nat, p: Photo, q: Photo) returns (r: seq<Photo>)
    requires Sorted(BY_CREATION, l) && 0 < cut < |l| && l[cut - 1].createdAt == l[cut].createdAt
    requires p in l && q in l && p != q && p.createdAt == q.createdAt == l[cut].createdAt
    ensures IsListing(BY_CREATION, r, l) && |r| == |l| && r[cut] == p && r[cut - 1] == q
  {
    var once, i := Place(l, cut, p);
    assert q in multiset(once);
    assert once[cut - 1].createdAt == q.createdAt;
    var j;
    r, j := Place(once, cut - 1, q);
  }

  lemma UnlikePairShortens(rows: seq<Photo>, l: seq<Photo>, size: nat, n: nat, k: nat, p: Photo, q: Photo)
    returns (orders: nat -> seq<Photo>, u: UserId)
    requires size > 0 && IsListing(BY_CREATION, l, rows) && |rows| <= Cut(n, size)
    requires 0 < Cut(k, size) < |l| && l[Cut(k, size) - 1].createdAt == l[Cut(k, size)].createdAt
    requires p in l && q in l && p.createdAt == q.createdAt == l[Cut(k, size)].createdAt && !SameCharge(p, q)
    ensures AllListings(BY_CREATION, orders, rows)
    ensures Bytes(Gathered(orders, size, n), u) < Bytes(rows, u)
  {
    var cut := Cut(k, size);
    u := if p.size > 0 && (q.uploader != p.uploader || q.size < p.size) then p.uploader else q.uploader;
    var more, less := if Charge(p, u) > Charge(q, u) then p else q, if Charge(p, u) > Charge(q, u) then q else p;
    assert Charge(more, u) > Charge(less, u);
    CreationOrders();
    var base := Across(l, cut, more, less);
    SwapIsListing(BY_CREATION, base, cut - 1, cut);
    var other := Swap(base, cut - 1, cut);
    orders := OneOther(base, other, k);
    OneOtherListings(base, other, k, rows);
    OneOtherGathers(base, other, k, size, n, u);
    AlwaysAsGathersAll(base, rows, size, n, u);
    BytesGathered(orders, size, n, u);
    SwappedFirst(base, k, size, u);
    SameLength(base, rows);
    if n <= k {
      CutsMonotone(n, k, size);
    }
  }

  /** A tie across a boundary among photos that are not all charged alike: the statements may choose
      orders under which one uploader gets back less than their bytes. */
  lemma UnfairCutShortens(rows: seq<Photo>, l: seq<Photo>, size: nat, n: nat)
    returns (orders: nat -> seq<Photo>, u: UserId)
    requires size > 0 && IsListing(BY_CREATION, l, rows) && |rows| <= Cut(n, size) && !CutsFair(l, size)
    ensures AllListings(BY_CREATION, orders, rows)
    ensures Bytes(Gathered(orders, size, n), u) < Bytes(rows, u)
  {
    var k :| 0 < Cut(k, size) < |l| && l[Cut(k, size) - 1].createdAt == l[Cut(k, size)].createdAt
             && !Alike(l, l[Cut(k, size)].createdAt);
    var p, q :| p in l && q in l && p.createdAt == q.createdAt == l[Cut(k, size)].createdAt && !SameCharge(p, q);
    orders, u := UnlikePairShortens(rows, l, size, n, k, p, q);
  }

  lemma {:induction false} CutsMonotone(j: nat, k: nat, size: nat)
    requires j <= k
    ensures Cut(j, size) <= Cut(k, size)
  {
    if j < k {
      CutsMonotone(j, k - 1, size);
    }
  }

  lemma SwappedFirst(l: seq<Photo>, k: nat, size: nat, u: UserId)
    requires size > 0 && 0 < Cut(k, size) < |l|
    ensures var cut := Cut(k, size);
      Bytes(Batch(Swap(l, cut - 1, cut), k, size), u) + Charge(l[cut], u) == Bytes(Batch(l, k, size), u) + Charge(l[cut - 1], u)
  {
    var cut := Cut(k, size);
    var a, b := Batch(l, k, size), Batch(Swap(l, cut - 1, cut), k, size);
    assert a[0] == l[cut] && b[0] == l[cut - 1] && a[1..] == b[1..];
  }

  /** The refunds are right for every order the server may choose, if and only if every boundary that
      falls on a tie falls among photos that are charged alike. */
  lemma RefundsFairIff(rows: seq<Photo>, l: seq<Photo>, size: nat, n: nat)
    requires size > 0 && IsListing(BY_CREATION, l, rows) && |rows| <= Cut(n, size)
    ensures AlwaysFair(rows, size, n) <==> CutsFair(l, size)
  {
    if CutsFair(l, size) {
      forall orders: nat -> seq<Photo>, u: UserId | AllListings(BY_CREATION, orders, rows)
        ensures Bytes(Gathered(orders, size, n), u) == Bytes(rows, u)
      {
        FairCutsRefund(rows, l, orders, size, n, u);
      }
    } else {
      var orders, u := UnfairCutShortens(rows, l, size, n);
      assert Bytes(Gathered(orders, size, n), u) != Bytes(rows, u);
    }
  }

  // ---- Folding the batches into refunds ----

  function Get(refunds: map<UserId, nat>, u: UserId): nat {
    if u in refunds then refunds[u] else 0
  }

  // The keys of a dict in insertion order.
  ghost predicate KeysOf(keys: seq<UserId>, refunds: map<UserId, nat>) {
    && (forall u :: u in keys <==> u in refunds)
    && (forall i, j :: 0 <= i < j < |keys| ==> keys[i] != keys[j])
  }

  lemma BytesOfNext(batch: seq<Photo>, i: nat, u: UserId)
    requires i < |batch|
    ensures Bytes(batch[..i + 1], u) == Bytes(batch[..i], u) + if batch[i].uploader == u then batch[i].size else 0
  {
    BytesConcat(batch[..i], [batch[i]], u);
    assert batch[..i + 1] == batch[..i] + [batch[i]];
  }

  method FoldBatch(batch: seq<Photo>, keys0: seq<UserId>, refunds0: map<UserId, nat>) returns (keys: seq<UserId>,
      refunds: map<UserId, nat>)
    requires KeysOf(keys0, refunds0)
    ensures KeysOf(keys, refunds)
    ensures forall u :: Get(refunds, u) == Get(refunds0, u) + Bytes(batch, u)
    ensures (forall u <- refunds0 :: refunds0[u] > 0) ==> forall u <- refunds :: refunds[u] > 0
  {
    keys, refunds := keys0, refunds0;
    for i := 0 to |batch|
      invariant KeysOf(keys, refunds)
      invariant forall u :: Get(refunds, u) == Get(refunds0, u) + Bytes(batch[..i], u)
      invariant (forall u <- refunds0 :: refunds0[u] > 0) ==> forall u <- refunds :: refunds[u] > 0
    {
      var photo := batch[i];
      forall u {
        BytesOfNext(batch, i, u);
      }
      if photo.size > 0 {
        if photo.uploader !in refunds {
          keys := keys + [photo.uploader];
        }
        refunds := refunds[photo.uploader := Get(refunds, photo.uploader) + photo.size];
      }
    }
    assert batch[..|batch|] == batch;
  }

  /** The nested refund loops compute, for every uploader, the bytes of their gathered photos. */
  method FoldRefunds(batches: seq<seq<Photo>>) returns (keys: seq<UserId>, refunds: map<UserId, nat>)
    ensures KeysOf(keys, refunds)
    ensures forall u :: Get(refunds, u) == Bytes(Flatten(batches), u)
    ensures forall u <- refunds :: refunds[u] > 0
  {
    keys, refunds := [], map[];
    for i := 0 to |batches|
      invariant KeysOf(keys, refunds)
      invariant forall u :: Get(refunds, u) == Bytes(Flatten(batches[..i]), u)
      invariant forall u <- refunds :: refunds[u] > 0
    {
      ghost var before := refunds;
      keys, refunds := FoldBatch(batches[i], keys, refunds);
      assert batches[..i + 1][..i] == batches[..i];
      forall u
        ensures Get(refunds, u) == Bytes(Flatten(batches[..i + 1]), u)
      {
        BytesConcat(Flatten(batches[..i]), batches[i], u);
      }
    }
    assert batches[..|batches|] == batches;
  }

  // UPDATE users SET storage_used_bytes = GREATEST(storage_used_bytes - $1, 0)
  function Deducted(used: nat, size: nat): nat {
    if used >= size then used - size else 0
  }

  method ApplyRefunds(used0: map<UserId, nat>, keys: seq<UserId>, refunds: map<UserId, nat>)
    returns (used: map<UserId, nat>)
    requires KeysOf(keys, refunds)
    ensures used.Keys == used0.Keys
    ensures forall u <- used :: used[u] == Max(0, used0[u] - Get(refunds, u))
  {
    used := used0;
    for i := 0 to |keys|
      invariant used.Keys == used0.Keys
      invariant forall u <- used :: u in keys[..i] ==> used[u] == Deducted(used0[u], Get(refunds, u))
      invariant forall u <- used :: u !in keys[..i] ==> used[u] == used0[u]
    {
      var u := keys[i];
      assert u !in keys[..i] && keys[..i + 1] == keys[..i] + [u];
      if u in used {
        used := used[u := Deducted(used[u], refunds[u])];
      }
    }
    assert keys[..|keys|] == keys;
  }
}

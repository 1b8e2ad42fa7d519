/** Paging through posts: an OFFSET first page, then keyset pages that follow a cursor
    (backend/app/repositories/post_repo.py, find_many).

    Every page is a statement of its own. ORDER BY has no tie-breaker, so each statement may arrange
    posts that compare equal in its own way: `orders(k)` is the arrangement of all matching posts that
    statement k works with, and the results hold for every choice of arrangements. */
module PostPages {
  import opened Basics
  import opened Listings

  type PostId = nat

  datatype Post = Post(
    id: PostId, pinned: bool, createdAt: int, likes: int, comments: int, answers: int)

  // `Other` stands for a sort name that _SORT_MAP does not know; it falls back to newest first.
  datatype Sort = Newest | Oldest | MostComments | Popular | MostAnswers | Unanswered | Other

  datatype Cursor = Cursor(sort: Sort, primary: int, id: PostId)

  datatype Page = Page(posts: seq<Post>, next: Option<Cursor>, hasMore: bool)

  // ---- ORDER BY ----

  function Primary(sort: Sort, p: Post): int {
    match sort
    case MostComments => p.comments
    case Popular => p.likes
    case MostAnswers => p.answers
    case _ => p.createdAt
  }

  predicate KeyLess(sort: Sort, a: int, b: int) {
    if sort.Oldest? then a < b else a > b
  }

  // p.is_pinned DESC, <primary> DESC or ASC, p.created_at DESC
  predicate Leq(sort: Sort, a: Post, b: Post) {
    if a.pinned != b.pinned then a.pinned
    else if Primary(sort, a) != Primary(sort, b) then KeyLess(sort, Primary(sort, a), Primary(sort, b))
    else a.createdAt >= b.createdAt
  }

  function By(sort: Sort): (Post, Post) -> bool {
    (a, b) => Leq(sort, a, b)
  }

  lemma SortOrders(sort: Sort)
    ensures Preorder(By(sort))
  {
  }

  // ---- WHERE ----

  // The row comparison (key, id) > or < (cursor key, cursor id).
  predicate Beyond(c: Cursor, p: Post) {
    if Primary(c.sort, p) != c.primary then KeyLess(c.sort, c.primary, Primary(c.sort, p))
    else IdBeyond(c, p.id)
  }

  predicate IdBeyond(c: Cursor, id: PostId) {
    if c.sort.Oldest? then id > c.id else id < c.id
  }

  // Cursor pages leave pinned posts out.
  predicate InTail(c: Cursor, p: Post) {
    !p.pinned && Beyond(c, p)
  }

  // The filters common to all pages of one listing.
  function Matching(table: seq<Post>, sort: Sort, filter: Post -> bool): seq<Post> {
    if table == [] then []
    else
      var rest := Matching(table[1..], sort, filter);
      if filter(table[0]) && (sort.Unanswered? ==> table[0].answers == 0) then [table[0]] + rest else rest
  }

  function Tail(rows: seq<Post>, c: Cursor): seq<Post> {
    if rows == [] then []
    else if InTail(c, rows[0]) then [rows[0]] + Tail(rows[1..], c)
    else Tail(rows[1..], c)
  }

  function Take(rows: seq<Post>, limit: nat): seq<Post> {
    if |rows| <= limit then rows else rows[..limit]
  }

  function CursorAt(sort: Sort, p: Post): Cursor {
    Cursor(sort, Primary(sort, p), p.id)
  }

  // ---- The two modes of find_many, on the arrangement of the matching posts ----

  function CursorPage(list: seq<Post>, size: nat, c: Cursor): Page
    requires size > 0
  {
    var rows := Take(Tail(list, c), size + 1);
    if |rows| > size then Page(rows[..size], Some(CursorAt(c.sort, rows[size - 1])), true)
    else Page(rows, None, false)
  }

  function TotalPages(total: nat, size: nat): nat
    requires size > 0
  {
    Max(1, (total + size - 1) / size)
  }

  function OffsetPage(list: seq<Post>, sort: Sort, size: nat, page: nat): Page
    requires size > 0 && page > 0
  {
    var offset := (page - 1) * size;
    var posts := if offset >= |list| then [] else Take(list[offset..], size);
    var more := page < TotalPages(|list|, size);
    Page(posts, if more && posts != [] then Some(CursorAt(sort, posts[|posts| - 1])) else None, more)
  }

  // ---- Following the cursors ----

  // The posts seen from a cursor on, page after page until has_more is false: statement k is next. rows
  // are the matching posts in any order. Following always ends.
  function Follow(rows: seq<Post>, orders: nat -> seq<Post>, k: nat, size: nat, c: Cursor): seq<Post>
    requires size > 0 && AllListings(By(c.sort), orders, rows)
    decreases |Tail(rows, c)|
  {
    var page := CursorPage(orders(k), size, c);
    if page.hasMore then
      NextTailShorter(rows, orders, k, size, c);
      page.posts + Follow(rows, orders, k + 1, size, page.next.value)
    else page.posts
  }

  function Visited(rows: seq<Post>, orders: nat -> seq<Post>, sort: Sort, size: nat): seq<Post>
    requires size > 0 && AllListings(By(sort), orders, rows)
  {
    var first := OffsetPage(orders(0), sort, size, 1);
    if first.hasMore && first.next.Some? then first.posts + Follow(rows, orders, 1, size, first.next.value)
    else first.posts
  }

  // ---- Tails ----

  lemma {:induction false} TailMembers(rows: seq<Post>, c: Cursor)
    ensures forall p :: p in Tail(rows, c) <==> p in rows && InTail(c, p)
    ensures |Tail(rows, c)| <= |rows|
  {
    if rows != [] {
      TailMembers(rows[1..], c);
      assert rows == [rows[0]] + rows[1..];
    }
  }

  lemma {:induction false} TailAppend(a: seq<Post>, b: seq<Post>, c: Cursor)
    ensures Tail(a + b, c) == Tail(a, c) + Tail(b, c)
  {
    if a == [] {
      assert a + b == b;
    } else {
      TailAppend(a[1..], b, c);
      assert a + b == [a[0]] + (a[1..] + b);
    }
  }

  lemma {:induction false} TailAll(rows: seq<Post>, c: Cursor)
    ensures (forall p <- rows :: InTail(c, p)) ==> Tail(rows, c) == rows
    ensures (forall p <- rows :: !InTail(c, p)) ==> Tail(rows, c) == []
  {
    if rows != [] {
      TailAll(rows[1..], c);
      assert rows == [rows[0]] + rows[1..];
    }
  }

  lemma BeyondTransitive(c: Cursor, a: Post, b: Post)
    requires Beyond(c, a) && Beyond(CursorAt(c.sort, a), b)
    ensures Beyond(c, b) && a != b
  {
  }

  lemma {:induction false} TailOfLaterIsShorter(rows: seq<Post>, c: Cursor, y: Post)
    requires InTail(c, y)
    ensures |Tail(rows, CursorAt(c.sort, y))| <= |Tail(rows, c)|
    ensures y in rows ==> |Tail(rows, CursorAt(c.sort, y))| < |Tail(rows, c)|
  {
    if rows != [] {
      TailOfLaterIsShorter(rows[1..], c, y);
      if InTail(CursorAt(c.sort, y), rows[0]) {
        BeyondTransitive(c, y, rows[0]);
      }
    }
  }

  lemma SameMembers(a: seq<Post>, b: seq<Post>, p: Post)
    requires multiset(a) == multiset(b)
    ensures p in a <==> p in b
  {
    assert p in a <==> p in multiset(a);
    assert p in b <==> p in multiset(b);
  }

  lemma NextTailShorter(rows: seq<Post>, orders: nat -> seq<Post>, k: nat, size: nat, c: Cursor)
    requires size > 0 && AllListings(By(c.sort), orders, rows) && |Tail(orders(k), c)| > size
    ensures |Tail(rows, CursorAt(c.sort, Tail(orders(k), c)[size - 1]))| < |Tail(rows, c)|
  {
    var y := Tail(orders(k), c)[size - 1];
    ListingAt(By(c.sort), orders, rows, k);
    TailMembers(orders(k), c);
    SameMembers(orders(k), rows, y);
    TailOfLaterIsShorter(rows, c, y);
  }

  // ---- Arrangements ----

  function Insert(sort: Sort, p: Post, rows: seq<Post>): seq<Post> {
    if rows == [] || Leq(sort, p, rows[0]) then [p] + rows
    else [rows[0]] + Insert(sort, p, rows[1..])
  }

  // One arrangement.
  function OrderBy(sort: Sort, rows: seq<Post>): seq<Post> {
    if rows == [] then [] else Insert(sort, rows[0], OrderBy(sort, rows[1..]))
  }

  lemma {:induction false} InsertMembers(sort: Sort, p: Post, rows: seq<Post>)
    ensures multiset(Insert(sort, p, rows)) == multiset(rows) + multiset{p}
  {
    if !(rows == [] || Leq(sort, p, rows[0])) {
      InsertMembers(sort, p, rows[1..]);
      assert rows == [rows[0]] + rows[1..];
    }
  }

  lemma SortedCons(sort: Sort, p: Post, rows: seq<Post>)
    requires Sorted(By(sort), rows) && forall q <- rows :: Leq(sort, p, q)
    ensures Sorted(By(sort), [p] + rows)
  {
    var l := [p] + rows;
    forall i, j | 0 <= i < j < |l|
      ensures By(sort)(l[i], l[j])
    {
      assert l[j] == rows[j - 1];
    }
  }

  lemma {:induction false} InsertSorted(sort: Sort, p: Post, rows: seq<Post>)
    requires Sorted(By(sort), rows)
    ensures Sorted(By(sort), Insert(sort, p, rows))
  {
    if rows == [] || Leq(sort, p, rows[0]) {
      FrontFirst(sort, p, rows);
      SortedCons(sort, p, rows);
    } else {
      SortedTail(sort, rows);
      InsertSorted(sort, p, rows[1..]);
      InsertMembers(sort, p, rows[1..]);
      forall q <- Insert(sort, p, rows[1..])
        ensures Leq(sort, rows[0], q)
      {
        assert q in multiset(Insert(sort, p, rows[1..]));
      }
      SortedCons(sort, rows[0], Insert(sort, p, rows[1..]));
    }
  }

  lemma SortedTail(sort: Sort, rows: seq<Post>)
    requires Sorted(By(sort), rows) && rows != []
    ensures Sorted(By(sort), rows[1..]) && forall q <- rows[1..] :: Leq(sort, rows[0], q)
  {
    forall q <- rows[1..]
      ensures Leq(sort, rows[0], q)
    {
      var i :| 0 <= i < |rows[1..]| && rows[1..][i] == q;
      assert By(sort)(rows[0], rows[i + 1]);
    }
  }

  lemma FrontFirst(sort: Sort, p: Post, rows: seq<Post>)
    requires Sorted(By(sort), rows) && (rows != [] ==> Leq(sort, p, rows[0]))
    ensures forall q <- rows :: Leq(sort, p, q)
  {
    forall q <- rows
      ensures Leq(sort, p, q)
    {
      var i :| 0 <= i < |rows| && rows[i] == q;
      assert i > 0 ==> By(sort)(rows[0], rows[i]);
    }
  }

  /** OrderBy is an arrangement the server may choose. */
  lemma {:induction false} OrderBySorts(sort: Sort, rows: seq<Post>)
    ensures IsListing(By(sort), OrderBy(sort, rows), rows)
  {
    if rows != [] {
      OrderBySorts(sort, rows[1..]);
      InsertSorted(sort, rows[0], OrderBy(sort, rows[1..]));
      InsertMembers(sort, rows[0], OrderBy(sort, rows[1..]));
      assert rows == [rows[0]] + rows[1..];
    }
  }

  lemma {:induction false} TailInsert(sort: Sort, p: Post, rows: seq<Post>, c: Cursor)
    requires !InTail(c, p)
    ensures Tail(Insert(sort, p, rows), c) == Tail(rows, c)
  {
    if !(rows == [] || Leq(sort, p, rows[0])) {
      TailInsert(sort, p, rows[1..], c);
    }
  }

  // The posts the cursor leaves out, put into an arrangement of the others.
  function Merged(sort: Sort, rows: seq<Post>, c: Cursor, tail: seq<Post>): seq<Post> {
    if rows == [] then tail
    else if InTail(c, rows[0]) then Merged(sort, rows[1..], c, tail)
    else Insert(sort, rows[0], Merged(sort, rows[1..], c, tail))
  }

  lemma {:induction false} MergedArranges(sort: Sort, rows: seq<Post>, c: Cursor, tail: seq<Post>)
    requires Sorted(By(sort), tail) && forall p <- tail :: InTail(c, p)
    ensures Sorted(By(sort), Merged(sort, rows, c, tail)) && Tail(Merged(sort, rows, c, tail), c) == tail
  {
    if rows == [] {
      TailAll(tail, c);
    } else {
      MergedArranges(sort, rows[1..], c, tail);
      if !InTail(c, rows[0]) {
        InsertSorted(sort, rows[0], Merged(sort, rows[1..], c, tail));
        TailInsert(sort, rows[0], Merged(sort, rows[1..], c, tail), c);
      }
    }
  }

  lemma {:induction false} MergedMembers(sort: Sort, rows: seq<Post>, c: Cursor, tail: seq<Post>)
    requires multiset(tail) == multiset(Tail(rows, c))
    ensures multiset(Merged(sort, rows, c, tail)) == multiset(rows)
  {
    forall q
      ensures multiset(Merged(sort, rows, c, tail))[q] == multiset(rows)[q]
    {
      MergedCounts(sort, rows, c, tail, q);
    }
  }

  lemma {:induction false} MergedCounts(sort: Sort, rows: seq<Post>, c: Cursor, tail: seq<Post>, q: Post)
    ensures multiset(Merged(sort, rows, c, tail))[q] + multiset(Tail(rows, c))[q] == multiset(rows)[q] + multiset(tail)[q]
  {
    if rows != [] {
      MergedCounts(sort, rows[1..], c, tail, q);
      assert rows == [rows[0]] + rows[1..];
      if !InTail(c, rows[0]) {
        InsertMembers(sort, rows[0], Merged(sort, rows[1..], c, tail));
      }
    }
  }

  /** A statement that first filters by the cursor and then sorts returns what some arrangement of all
      matching posts leaves behind the cursor: working with arrangements of all posts loses none. */
  lemma FilterThenSortArises(sort: Sort, rows: seq<Post>, c: Cursor, tail: seq<Post>) returns (list: seq<Post>)
    requires IsListing(By(sort), tail, Tail(rows, c))
    ensures IsListing(By(sort), list, rows) && Tail(list, c) == tail
  {
    list := Merged(sort, rows, c, tail);
    TailMembers(rows, c);
    forall p <- tail
      ensures InTail(c, p)
    {
      SameMembers(tail, Tail(rows, c), p);
    }
    MergedArranges(sort, rows, c, tail);
    MergedMembers(sort, rows, c, tail);
  }

  // ---- Boundaries ----

  ghost predicate UniqueIds(rows: seq<Post>) {
    forall i, j :: 0 <= i < j < |rows| ==> rows[i].id != rows[j].id
  }

  predicate Tied(sort: Sort, p: Post, q: Post) {
    p.pinned == q.pinned && Primary(sort, p) == Primary(sort, q) && p.createdAt == q.createdAt
  }

  /** What the data must look like around the boundary behind the first k posts of an arrangement, y being
      the post before it and x the one behind: x is not pinned and not tied with y. If y is not pinned, the
      other unpinned posts with y's primary value have another created_at, and their ids are on the side of
      y's on which they are listed. If y is pinned, the cursor of every pinned post tied with y admits all
      posts behind the boundary. */
  ghost predicate ClearBoundary(sort: Sort, list: seq<Post>, k: nat)
    requires 0 < k < |list|
  {
    var y, x := list[k - 1], list[k];
    && !x.pinned && !Tied(sort, x, y)
    && if y.pinned then
         forall i, j :: 0 <= i < k <= j < |list| && Tied(sort, list[i], y) ==> Beyond(CursorAt(sort, list[i]), list[j])
       else
         forall i :: 0 <= i < |list| && i != k - 1 && !list[i].pinned && Primary(sort, list[i]) == Primary(sort, y) ==>
           list[i].createdAt != y.createdAt && (IdBeyond(CursorAt(sort, y), list[i].id) <==> i >= k)
  }

  ghost predicate BoundariesClear(sort: Sort, list: seq<Post>, size: nat) {
    forall j :: 0 < Cut(j, size) < |list| ==> ClearBoundary(sort, list, Cut(j, size))
  }

  // The cursor of y finds exactly the posts of the list from position k on.
  ghost predicate Finds(sort: Sort, y: Post, list: seq<Post>, k: nat) {
    forall i :: 0 <= i < |list| ==> (InTail(CursorAt(sort, y), list[i]) <==> i >= k)
  }

  lemma FindsRest(sort: Sort, y: Post, list: seq<Post>, k: nat)
    requires k <= |list| && Finds(sort, y, list, k)
    ensures Tail(list, CursorAt(sort, y)) == list[k..]
  {
    var c := CursorAt(sort, y);
    TailAppend(list[..k], list[k..], c);
    TailAll(list[..k], c);
    TailAll(list[k..], c);
    assert list == list[..k] + list[k..];
  }

  lemma InPart(a: seq<Post>, b: seq<Post>, lo: nat, hi: nat, p: Post) returns (i: nat)
    requires lo <= hi <= |a| && multiset(a[lo..hi]) == multiset(b) && p in b
    ensures lo <= i < hi && a[i] == p
  {
    SameMembers(a[lo..hi], b, p);
    i :| lo <= i < hi && a[i] == p;
  }

  lemma ClearIsClean(sort: Sort, list: seq<Post>, k: nat)
    requires Sorted(By(sort), list) && 0 < k < |list| && ClearBoundary(sort, list, k)
    ensures !By(sort)(list[k], list[k - 1])
  {
    assert By(sort)(list[k - 1], list[k]);
  }

  // Where a post of one arrangement stands in another, seen from a clear boundary.
  lemma SameSide(sort: Sort, list: seq<Post>, other: seq<Post>, k: nat, i: nat) returns (j: nat)
    requires Sorted(By(sort), list) && Sorted(By(sort), other) && multiset(list) == multiset(other)
    requires 0 < k < |list| && ClearBoundary(sort, list, k) && i < |other|
    ensures j < |list| && list[j] == other[i] && (j < k <==> i < k)
  {
    SortOrders(sort);
    ClearIsClean(sort, list, k);
    PrefixesAgree(By(sort), list, other, k);
    SameLength(list, other);
    if i < k {
      assert other[i] in other[..k];
      assert list[0..k] == list[..k];
      j := InPart(list, other[..k], 0, k, other[i]);
    } else {
      assert list[..|list|] == list && other[..|list|] == other;
      SlicesAgree(list, other, k, |list|);
      assert other[i] == other[k..|list|][i - k];
      j := InPart(list, other[k..|list|], k, |list|, other[i]);
    }
  }

  // At a clear boundary the post before it admits what stands behind, and nothing else.
  lemma ClearFindsAt(sort: Sort, list: seq<Post>, k: nat, i: nat, j: nat)
    requires Sorted(By(sort), list) && 0 < k < |list| && ClearBoundary(sort, list, k)
    requires i < k && Tied(sort, list[i], list[k - 1]) && j < |list|
    ensures InTail(CursorAt(sort, list[i]), list[j]) <==> j >= k
  {
    var y := list[k - 1];
    assert j < k - 1 ==> By(sort)(list[j], y);
    assert j > k ==> By(sort)(list[k], list[j]);
    assert j >= k ==> By(sort)(y, list[j]);
  }

  /** At a clear boundary the last post of any arrangement is a cursor that finds exactly the rest of any
      other arrangement. */
  lemma ClearFinds(sort: Sort, list: seq<Post>, a: seq<Post>, b: seq<Post>, k: nat)
    requires Sorted(By(sort), list) && Sorted(By(sort), a) && Sorted(By(sort), b)
    requires multiset(list) == multiset(a) == multiset(b)
    requires 0 < k < |list| && ClearBoundary(sort, list, k)
    ensures k < |a| && k < |b| && Finds(sort, a[k - 1], b, k)
  {
    SortOrders(sort);
    SameLength(list, a);
    SameLength(list, b);
    var at := SameSide(sort, list, a, k, k - 1);
    PositionsTied(By(sort), list, a, k - 1);
    forall i | 0 <= i < |b|
      ensures InTail(CursorAt(sort, a[k - 1]), b[i]) <==> i >= k
    {
      var j := SameSide(sort, list, b, k, i);
      ClearFindsAt(sort, list, k, at, j);
    }
  }

  // ---- Clear boundaries suffice ----

  lemma MorePages(total: nat, size: nat)
    requires size > 0
    ensures 1 < TotalPages(total, size) <==> size < total
  {
    var q, r := (total + size - 1) / size, (total + size - 1) % size;
    assert total + size - 1 == q * size + r && 0 <= r < size;
    if q >= 2 {
      assert q * size >= 2 * size;
    } else {
      assert q * size <= size;
    }
  }

  lemma FirstPage(list: seq<Post>, sort: Sort, size: nat)
    requires size > 0
    ensures OffsetPage(list, sort, size, 1) ==
      if |list| > size then Page(list[..size], Some(CursorAt(sort, list[size - 1])), true) else Page(list, None, false)
  {
    MorePages(|list|, size);
    assert (1 - 1) * size == 0 && list[0..] == list;
  }

  // What stands behind boundary j in the arrangement of statement j is what its cursor finds.
  lemma TailAtBoundary(rows: seq<Post>, list: seq<Post>, orders: nat -> seq<Post>, sort: Sort, size: nat, j: nat)
    requires j > 0 && AllListings(By(sort), orders, rows)
    requires IsListing(By(sort), list, rows) && BoundariesClear(sort, list, size) && 0 < Cut(j, size) < |list|
    ensures |orders(j - 1)| == |orders(j)| == |list| == |rows|
    ensures Tail(orders(j), CursorAt(sort, orders(j - 1)[Cut(j, size) - 1])) == orders(j)[Cut(j, size)..]
  {
    ListingAt(By(sort), orders, rows, j - 1);
    ListingAt(By(sort), orders, rows, j);
    SameLength(list, rows);
    ClearFinds(sort, list, orders(j - 1), orders(j), Cut(j, size));
    FindsRest(sort, orders(j - 1)[Cut(j, size) - 1], orders(j), Cut(j, size));
  }

  // The cursor from which statement j goes on.
  function CursorOf(orders: nat -> seq<Post>, sort: Sort, size: nat, j: nat): Cursor
    requires j > 0 && 0 < Cut(j, size) <= |orders(j - 1)|
  {
    CursorAt(sort, orders(j - 1)[Cut(j, size) - 1])
  }

  lemma FollowAtBoundary(rows: seq<Post>, list: seq<Post>, orders: nat -> seq<Post>, sort: Sort, size: nat, j: nat)
    requires size > 0 && j > 0 && AllListings(By(sort), orders, rows)
    requires IsListing(By(sort), list, rows) && BoundariesClear(sort, list, size) && 0 < Cut(j, size) < |list|
    ensures |orders(j - 1)| == |orders(j)| == |list| == |rows|
    ensures FollowFrom(rows, orders, sort, size, j) == Batch(orders(j), j, size) +
      if Cut(j + 1, size) < |list| then FollowFrom(rows, orders, sort, size, j + 1) else []
  {
    hide BoundariesClear, Follow, Sorted;
    var k := Cut(j, size);
    TailAtBoundary(rows, list, orders, sort, size, j);
    FollowStep(rows, orders, j, size, CursorOf(orders, sort, size, j));
    assert Cut(j + 1, size) == k + size;
    var tail := orders(j)[k..];
    if |list| > k + size {
      assert Batch(orders(j), j, size) == tail[..size] && tail[size - 1] == orders(j)[k + size - 1];
    } else {
      assert Batch(orders(j), j, size) == tail;
    }
  }

  lemma GatheredNext(orders: nat -> seq<Post>, size: nat, j: nat)
    ensures Gathered(orders, size, j + 1) == Gathered(orders, size, j) + Batch(orders(j), j, size)
    ensures Cut(j + 1, size) == Cut(j, size) + size
  {
  }

  // Slices put together from boundary j on: f(j) is what comes from there.
  lemma {:induction false} SlicesGather(orders: nat -> seq<Post>, f: nat -> seq<Post>, size: nat, total: nat, j: nat,
      n: nat)
    requires forall i: nat :: |orders(i)| == total
    requires forall i: nat :: i > 0 && 0 < Cut(i, size) < total ==>
      f(i) == Batch(orders(i), i, size) + if Cut(i + 1, size) < total then f(i + 1) else []
    requires size > 0 && j > 0 && 0 < Cut(j, size) < total <= Cut(n, size)
    ensures Gathered(orders, size, j) + f(j) == Gathered(orders, size, n)
    decreases total - Cut(j, size)
  {
    hide *;
    GatheredNext(orders, size, j);
    assert f(j) == Batch(orders(j), j, size) + if Cut(j + 1, size) < total then f(j + 1) else [];
    if Cut(j + 1, size) < total {
      SlicesGather(orders, f, size, total, j + 1, n);
    } else {
      CutsDone(orders, size, total, j, n);
    }
  }

  // The posts shown from boundary j on.
  ghost function FollowFrom(rows: seq<Post>, orders: nat -> seq<Post>, sort: Sort, size: nat, j: nat): seq<Post> {
    if size > 0 && j > 0 && AllListings(By(sort), orders, rows) && 0 < Cut(j, size) <= |orders(j - 1)|
    then Follow(rows, orders, j, size, CursorOf(orders, sort, size, j))
    else []
  }

  // From boundary j on, following the cursors yields the remaining slices, each of its own statement.
  lemma FollowGathers(rows: seq<Post>, list: seq<Post>, orders: nat -> seq<Post>, sort: Sort, size: nat, n: nat)
    requires size > 0 && AllListings(By(sort), orders, rows)
    requires IsListing(By(sort), list, rows) && BoundariesClear(sort, list, size)
    requires 0 < Cut(1, size) < |list| <= Cut(n, size)
    ensures Gathered(orders, size, 1) + FollowFrom(rows, orders, sort, size, 1) == Gathered(orders, size, n)
  {
    hide *;
    var f := (j: nat) => FollowFrom(rows, orders, sort, size, j);
    forall i: nat
      ensures |orders(i)| == |list|
    {
      ListingAt(By(sort), orders, rows, i);
      ListingLength(By(sort), list, rows);
    }
    forall i: nat | i > 0 && 0 < Cut(i, size) < |list|
      ensures f(i) == Batch(orders(i), i, size) + if Cut(i + 1, size) < |list| then f(i + 1) else []
    {
      FollowAtBoundary(rows, list, orders, sort, size, i);
    }
    SlicesGather(orders, f, size, |list|, 1, n);
  }

  lemma FollowStep(rows: seq<Post>, orders: nat -> seq<Post>, k: nat, size: nat, c: Cursor)
    requires size > 0 && AllListings(By(c.sort), orders, rows)
    ensures var tail := Tail(orders(k), c);
      Follow(rows, orders, k, size, c) ==
        if |tail| > size then tail[..size] + Follow(rows, orders, k + 1, size, CursorAt(c.sort, tail[size - 1])) else tail
  {
  }

  lemma CutsDone(orders: nat -> seq<Post>, size: nat, total: nat, j: nat, n: nat)
    requires forall i: nat :: |orders(i)| == total
    requires Cut(j, size) < total <= Cut(j + 1, size) && total <= Cut(n, size)
    ensures Gathered(orders, size, n) == Gathered(orders, size, j + 1)
  {
    if n <= j {
      CutsGrow(n, j, size);
    }
    EmptySlices(orders, size, total, j + 1, n);
  }

  lemma {:induction false} CutsGrow(j: nat, k: nat, size: nat)
    requires j <= k
    ensures Cut(j, size) <= Cut(k, size)
  {
    if j < k {
      CutsGrow(j, k - 1, size);
    }
  }

  lemma {:induction false} EmptySlices(orders: nat -> seq<Post>, size: nat, total: nat, m: nat, n: nat)
    requires forall i: nat :: |orders(i)| == total
    requires m <= n && total <= Cut(m, size)
    ensures Gathered(orders, size, n) == Gathered(orders, size, m)
  {
    if m < n {
      EmptySlices(orders, size, total, m, n - 1);
      CutsGrow(m, n - 1, size);
      assert Batch(orders(n - 1), n - 1, size) == [];
    }
  }

  lemma VisitedSteps(rows: seq<Post>, orders: nat -> seq<Post>, sort: Sort, size: nat)
    requires size > 0 && AllListings(By(sort), orders, rows)
    ensures Visited(rows, orders, sort, size) ==
      if |rows| > size then Gathered(orders, size, 1) + FollowFrom(rows, orders, sort, size, 1) else orders(0)
  {
    ListingAt(By(sort), orders, rows, 0);
    FirstPage(orders(0), sort, size);
    FirstSlice(orders, size);
  }

  lemma FirstSlice(orders: nat -> seq<Post>, size: nat)
    ensures Cut(1, size) == size && Gathered(orders, size, 1) == Batch(orders(0), 0, size) == Take(orders(0), size)
  {
    assert Gathered(orders, size, 0) == [] && Cut(0, size) == 0;
  }

  lemma OnePage(orders: nat -> seq<Post>, size: nat, total: nat, n: nat)
    requires (forall i: nat :: |orders(i)| == total) && total <= size && total <= Cut(n, size)
    ensures Gathered(orders, size, n) == orders(0)
  {
    FirstSlice(orders, size);
    if total > 0 {
      CutsDone(orders, size, total, 0, n);
    } else {
      EmptySlices(orders, size, total, 0, n);
    }
  }

  lemma VisitedGathers(rows: seq<Post>, list: seq<Post>, orders: nat -> seq<Post>, sort: Sort, size: nat, n: nat)
    requires size > 0 && AllListings(By(sort), orders, rows)
    requires IsListing(By(sort), list, rows) && BoundariesClear(sort, list, size) && |rows| <= Cut(n, size)
    ensures Visited(rows, orders, sort, size) == Gathered(orders, size, n)
  {
    VisitedSteps(rows, orders, sort, size);
    SameLength(list, rows);
    if |rows| > size {
      assert Cut(1, size) == size;
      FollowGathers(rows, list, orders, sort, size, n);
    } else {
      forall i: nat
        ensures |orders(i)| == |rows|
      {
        ListingAt(By(sort), orders, rows, i);
      }
      OnePage(orders, size, |rows|, n);
    }
  }

  // Every matching post exactly once.
  ghost predicate ShownOnce(rows: seq<Post>, orders: nat -> seq<Post>, sort: Sort, size: nat)
    requires size > 0 && AllListings(By(sort), orders, rows)
  {
    multiset(Visited(rows, orders, sort, size)) == multiset(rows)
  }

  lemma {:induction false} CutsReach(n: nat, size: nat)
    requires size > 0
    ensures n <= Cut(n, size)
  {
    if n > 0 {
      CutsReach(n - 1, size);
    }
  }

  lemma ClearIsCutsClean(sort: Sort, list: seq<Post>, size: nat)
    requires Sorted(By(sort), list) && BoundariesClear(sort, list, size)
    ensures CutsClean(By(sort), list, size)
  {
    forall j | 0 < Cut(j, size) < |list|
      ensures !By(sort)(list[Cut(j, size)], list[Cut(j, size) - 1])
    {
      ClearIsClean(sort, list, Cut(j, size));
    }
  }

  lemma ClearShowsOnce(rows: seq<Post>, list: seq<Post>, orders: nat -> seq<Post>, sort: Sort, size: nat)
    requires size > 0 && AllListings(By(sort), orders, rows)
    requires IsListing(By(sort), list, rows) && BoundariesClear(sort, list, size)
    ensures ShownOnce(rows, orders, sort, size)
  {
    CutsReach(|rows|, size);
    VisitedGathers(rows, list, orders, sort, size, |rows|);
    SortOrders(sort);
    ClearIsCutsClean(sort, list, size);
    CleanCutsGather(By(sort), rows, list, orders, size, |rows|);
    SameLength(list, rows);
    assert list[..|list|] == list;
  }

  // ---- ... and are necessary ----

  // All statements work with one arrangement.
  function Always(list: seq<Post>): nat -> seq<Post> {
    (k: nat) => list
  }

  lemma AlwaysListings(list: seq<Post>, rows: seq<Post>, sort: Sort)
    requires IsListing(By(sort), list, rows)
    ensures AllListings(By(sort), Always(list), rows)
  {
  }

  // What following shows lies beyond the cursor, and starts with the first post beyond it.
  lemma {:induction false} FollowStaysInTail(rows: seq<Post>, list: seq<Post>, k: nat, size: nat, c: Cursor)
    requires size > 0 && AllListings(By(c.sort), Always(list), rows)
    ensures forall p <- Follow(rows, Always(list), k, size, c) :: InTail(c, p)
    ensures Tail(list, c) != [] ==>
      Follow(rows, Always(list), k, size, c) != [] && Follow(rows, Always(list), k, size, c)[0] == Tail(list, c)[0]
    decreases |Tail(rows, c)|
  {
    var tail := Tail(list, c);
    FollowStep(rows, Always(list), k, size, c);
    TailMembers(list, c);
    if |tail| > size {
      NextTailShorter(rows, Always(list), k, size, c);
      var y := tail[size - 1];
      assert y in tail;
      var next := CursorAt(c.sort, y);
      FollowStaysInTail(rows, list, k + 1, size, next);
      forall p <- Follow(rows, Always(list), k + 1, size, next)
        ensures InTail(c, p)
      {
        BeyondTransitive(c, y, p);
      }
    }
  }

  lemma NotInFront(list: seq<Post>, k: nat, p: Post)
    requires UniqueIds(list) && k <= |list| && p in list[..k]
    ensures p !in list[k..]
  {
  }

  // If following shows the right posts, the cursor finds exactly the rest: its first post cannot be an old one.
  lemma RightFollowFinds(rows: seq<Post>, sort: Sort, list: seq<Post>, j: nat, size: nat, k: nat)
    requires size > 0 && UniqueIds(list) && AllListings(By(sort), Always(list), rows) && 0 < k < |list|
    requires multiset(Follow(rows, Always(list), j, size, CursorAt(sort, list[k - 1]))) == multiset(list[k..])
    ensures Finds(sort, list[k - 1], list, k)
  {
    var c := CursorAt(sort, list[k - 1]);
    var shown := Follow(rows, Always(list), j, size, c);
    FollowStaysInTail(rows, list, j, size, c);
    forall i | k <= i < |list|
      ensures InTail(c, list[i])
    {
      assert list[i] == list[k..][i - k];
      SameMembers(shown, list[k..], list[i]);
    }
    TailAppend(list[..k], list[k..], c);
    assert list == list[..k] + list[k..];
    if Tail(list[..k], c) != [] {
      TailMembers(list[..k], c);
      var first := Tail(list[..k], c)[0];
      assert first in Tail(list[..k], c) && Tail(list, c)[0] == first && shown[0] == first;
      NotInFront(list, k, first);
      SameMembers(shown, list[k..], first);
    }
    TailMembers(list[..k], c);
    forall i | 0 <= i < k
      ensures !InTail(c, list[i])
    {
      assert list[i] in list[..k];
    }
  }

  lemma RightFollowNext(rows: seq<Post>, sort: Sort, list: seq<Post>, size: nat, j: nat)
    requires size > 0 && UniqueIds(list) && AllListings(By(sort), Always(list), rows)
    requires 0 < Cut(j, size) && Cut(j + 1, size) < |list|
    requires RightFrom(rows, sort, list, size, j)
    ensures RightFrom(rows, sort, list, size, j + 1)
  {
    hide *;
    var k := Cut(j, size);
    NextCut(j, size);
    var shown, rest := PageOfRest(rows, sort, list, size, j, k);
    CancelFront(list[k..][..size], shown, rest);
    RightFromAt(rows, sort, list, size, j + 1, k + size);
  }

  lemma NextCut(j: nat, size: nat)
    ensures Cut(j + 1, size) == Cut(j, size) + size
  {
  }

  // What following shows from boundary j on, as a page and the rest.
  lemma PageOfRest(rows: seq<Post>, sort: Sort, list: seq<Post>, size: nat, j: nat, k: nat) returns (shown: seq<Post>,
      rest: seq<Post>)
    requires size > 0 && UniqueIds(list) && AllListings(By(sort), Always(list), rows)
    requires 0 < k == Cut(j, size) && k + size < |list| && RightFrom(rows, sort, list, size, j)
    ensures shown == Follow(rows, Always(list), j + 1, size, CursorAt(sort, list[k + size - 1]))
    ensures rest == list[k + size..]
    ensures multiset(list[k..][..size] + shown) == multiset(list[k..][..size] + rest)
  {
    RightFromAt(rows, sort, list, size, j, k);
    RightFollowFinds(rows, sort, list, j, size, k);
    FindsRest(sort, list[k - 1], list, k);
    FollowStep(rows, Always(list), j, size, CursorAt(sort, list[k - 1]));
    SliceOfRest(list, k, size);
    hide *;
    shown, rest := Follow(rows, Always(list), j + 1, size, CursorAt(sort, list[k + size - 1])), list[k + size..];
  }

  lemma RightFromAt(rows: seq<Post>, sort: Sort, list: seq<Post>, size: nat, j: nat, k: nat)
    requires size > 0 && AllListings(By(sort), Always(list), rows) && 0 < k == Cut(j, size) < |list|
    ensures RightFrom(rows, sort, list, size, j) <==>
      multiset(Follow(rows, Always(list), j, size, CursorAt(sort, list[k - 1]))) == multiset(list[k..])
  {
    hide Follow, Sorted;
  }

  lemma SliceOfRest(list: seq<Post>, k: nat, size: nat)
    requires 0 < size && k + size < |list|
    ensures var rest := list[k..];
      rest[size - 1] == list[k + size - 1] && rest[size..] == list[k + size..] && rest == rest[..size] + rest[size..]
  {
  }

  // Following from boundary j shows the posts behind it.
  ghost predicate RightFrom(rows: seq<Post>, sort: Sort, list: seq<Post>, size: nat, j: nat)
    requires size > 0 && AllListings(By(sort), Always(list), rows) && 0 < Cut(j, size) < |list|
  {
    multiset(Follow(rows, Always(list), j, size, CursorAt(sort, list[Cut(j, size) - 1]))) == multiset(list[Cut(j, size)..])
  }

  lemma {:induction false} Propagates(r: nat -> bool, j: nat, m: nat)
    requires j <= m && r(j) && forall i: nat :: j <= i < m && r(i) ==> r(i + 1)
    ensures r(m)
  {
    if j < m {
      Propagates(r, j, m - 1);
    }
  }

  ghost predicate RightIfAny(rows: seq<Post>, sort: Sort, list: seq<Post>, size: nat, j: nat)
    requires size > 0 && AllListings(By(sort), Always(list), rows)
  {
    0 < Cut(j, size) < |list| && RightFrom(rows, sort, list, size, j)
  }

  // If following shows the right posts from boundary 1 on, all later cursors find exactly their rest.
  lemma RightFollowFindsAll(rows: seq<Post>, sort: Sort, list: seq<Post>, size: nat, m: nat)
    requires size > 0 && UniqueIds(list) && AllListings(By(sort), Always(list), rows)
    requires 0 < Cut(1, size) <= Cut(m, size) < |list| && 1 <= m
    requires RightFrom(rows, sort, list, size, 1)
    ensures Finds(sort, list[Cut(m, size) - 1], list, Cut(m, size))
  {
    hide *;
    var r := (j: nat) => RightIfAny(rows, sort, list, size, j);
    forall i: nat | 1 <= i < m && r(i)
      ensures r(i + 1)
    {
      CutsApart(i, m, size);
      RightIfNext(rows, sort, list, size, i);
    }
    RightIsRight(rows, sort, list, size, 1);
    Propagates(r, 1, m);
    RightIsRight(rows, sort, list, size, m);
  }

  lemma RightIfNext(rows: seq<Post>, sort: Sort, list: seq<Post>, size: nat, i: nat)
    requires size > 0 && UniqueIds(list) && AllListings(By(sort), Always(list), rows)
    requires RightIfAny(rows, sort, list, size, i) && Cut(i + 1, size) < |list|
    ensures RightIfAny(rows, sort, list, size, i + 1)
  {
    hide Sorted, Follow, UniqueIds;
    RightFollowNext(rows, sort, list, size, i);
  }

  lemma RightIsRight(rows: seq<Post>, sort: Sort, list: seq<Post>, size: nat, i: nat)
    requires size > 0 && UniqueIds(list) && AllListings(By(sort), Always(list), rows) && 0 < Cut(i, size) < |list|
    ensures RightFrom(rows, sort, list, size, i) <==> RightIfAny(rows, sort, list, size, i)
    ensures RightFrom(rows, sort, list, size, i) ==> Finds(sort, list[Cut(i, size) - 1], list, Cut(i, size))
  {
    hide Sorted, Follow, UniqueIds, Finds;
    if RightFrom(rows, sort, list, size, i) {
      RightFollowFinds(rows, sort, list, i, size, Cut(i, size));
    }
  }

  lemma CancelFront(front: seq<Post>, a: seq<Post>, b: seq<Post>)
    requires multiset(front + a) == multiset(front + b)
    ensures multiset(a) == multiset(b)
  {
    assert multiset(a) == multiset(front + a) - multiset(front);
    assert multiset(b) == multiset(front + b) - multiset(front);
  }

  lemma OnceFinds(rows: seq<Post>, sort: Sort, list: seq<Post>, size: nat, m: nat)
    requires size > 0 && UniqueIds(list) && IsListing(By(sort), list, rows) && AllListings(By(sort), Always(list), rows)
    requires ShownOnce(rows, Always(list), sort, size) && 0 < Cut(m, size) < |list|
    ensures Finds(sort, list[Cut(m, size) - 1], list, Cut(m, size))
  {
    hide Finds, Sorted, Follow, OffsetPage;
    assert Cut(1, size) == size;
    CutsGrow(1, m, size);
    FirstPage(list, sort, size);
    assert list == list[..size] + list[size..];
    CancelFront(list[..size], Follow(rows, Always(list), 1, size, CursorAt(sort, list[size - 1])), list[size..]);
    RightFollowFindsAll(rows, sort, list, size, m);
  }

  // In every arrangement the cursor before position k finds exactly the rest.
  ghost predicate AlwaysFinds(rows: seq<Post>, sort: Sort, k: nat)
  {
    forall l: seq<Post> :: IsListing(By(sort), l, rows) && 0 < k < |l| ==> Finds(sort, l[k - 1], l, k)
  }

  lemma SwappedFinds(rows: seq<Post>, sort: Sort, list: seq<Post>, k: nat, i: nat, j: nat)
    requires IsListing(By(sort), list, rows) && 0 < k < |list| && AlwaysFinds(rows, sort, k)
    requires i < |list| && j < |list|
    ensures var other := Swap(list, i, j);
      |other| == |list| && (Tied(sort, list[i], list[j]) ==> Finds(sort, other[k - 1], other, k))
  {
    if Tied(sort, list[i], list[j]) {
      SortOrders(sort);
      SwapIsListing(By(sort), list, i, j);
      assert IsListing(By(sort), Swap(list, i, j), rows);
    }
  }

  // Of two posts with one primary value at most one lies beyond the other.
  lemma BeyondOneWay(sort: Sort, a: Post, b: Post)
    requires Primary(sort, a) == Primary(sort, b)
    ensures !(Beyond(CursorAt(sort, a), b) && Beyond(CursorAt(sort, b), a))
    ensures a.id != b.id ==> Beyond(CursorAt(sort, a), b) || Beyond(CursorAt(sort, b), a)
  {
  }

  // A tie across the boundary: whichever of the two comes first, its cursor would have to admit the other.
  lemma FindsSeparates(rows: seq<Post>, sort: Sort, list: seq<Post>, k: nat)
    requires IsListing(By(sort), list, rows) && 0 < k < |list| && AlwaysFinds(rows, sort, k)
    ensures !list[k].pinned && !Tied(sort, list[k], list[k - 1])
  {
    assert Finds(sort, list[k - 1], list, k);
    SwappedFinds(rows, sort, list, k, k - 1, k);
    var other := Swap(list, k - 1, k);
    assert other[k] == list[k - 1] && other[k - 1] == list[k];
    assert InTail(CursorAt(sort, list[k - 1]), list[k]);
    assert Tied(sort, list[k], list[k - 1]) ==> InTail(CursorAt(sort, list[k]), list[k - 1]);
  }

  lemma FindsPinned(rows: seq<Post>, sort: Sort, list: seq<Post>, k: nat, i: nat, j: nat)
    requires IsListing(By(sort), list, rows) && 0 < k < |list| && AlwaysFinds(rows, sort, k)
    requires i < k <= j < |list| && Tied(sort, list[i], list[k - 1])
    ensures Beyond(CursorAt(sort, list[i]), list[j])
  {
    SwappedFinds(rows, sort, list, k, i, k - 1);
    var other := Swap(list, i, k - 1);
    assert other[k - 1] == list[i] && other[j] == list[j];
  }

  lemma FindsAt(rows: seq<Post>, sort: Sort, list: seq<Post>, k: nat, i: nat)
    requires IsListing(By(sort), list, rows) && 0 < k < |list| && AlwaysFinds(rows, sort, k) && i < |list|
    ensures InTail(CursorAt(sort, list[k - 1]), list[i]) <==> i >= k
  {
    hide Sorted;
    assert Finds(sort, list[k - 1], list, k);
  }

  lemma FindsSwapped(rows: seq<Post>, sort: Sort, list: seq<Post>, k: nat, i: nat)
    requires IsListing(By(sort), list, rows) && 0 < k < |list| && AlwaysFinds(rows, sort, k)
    requires i < |list| && Tied(sort, list[i], list[k - 1])
    ensures i != k - 1 ==> (InTail(CursorAt(sort, list[i]), list[k - 1]) <==> i >= k)
  {
    hide AlwaysFinds, Sorted;
    SwappedFinds(rows, sort, list, k, i, k - 1);
    var other := Swap(list, i, k - 1);
    assert other[k - 1] == list[i] && other[i] == list[k - 1];
  }

  lemma FindsUnpinned(rows: seq<Post>, sort: Sort, list: seq<Post>, k: nat, i: nat)
    requires UniqueIds(list) && IsListing(By(sort), list, rows) && 0 < k < |list| && AlwaysFinds(rows, sort, k)
    requires i < |list| && i != k - 1 && !list[i].pinned && !list[k - 1].pinned
    requires Primary(sort, list[i]) == Primary(sort, list[k - 1])
    ensures list[i].createdAt != list[k - 1].createdAt
    ensures (IdBeyond(CursorAt(sort, list[k - 1]), list[i].id) <==> i >= k)
  {
    hide AlwaysFinds, Sorted, IsListing;
    FindsAt(rows, sort, list, k, i);
    if Tied(sort, list[i], list[k - 1]) {
      FindsSwapped(rows, sort, list, k, i);
      BeyondOneWay(sort, list[i], list[k - 1]);
    }
  }

  /** If every arrangement's cursor finds exactly the rest, the boundary is clear. */
  lemma FindsIsClear(rows: seq<Post>, sort: Sort, list: seq<Post>, k: nat)
    requires UniqueIds(list) && IsListing(By(sort), list, rows) && 0 < k < |list| && AlwaysFinds(rows, sort, k)
    ensures ClearBoundary(sort, list, k)
  {
    FindsSeparates(rows, sort, list, k);
    if list[k - 1].pinned {
      forall i, j | 0 <= i < k <= j < |list| && Tied(sort, list[i], list[k - 1])
        ensures Beyond(CursorAt(sort, list[i]), list[j])
      {
        FindsPinned(rows, sort, list, k, i, j);
      }
    } else {
      forall i | 0 <= i < |list| && i != k - 1 && !list[i].pinned && Primary(sort, list[i]) == Primary(sort, list[k - 1])
        ensures list[i].createdAt != list[k - 1].createdAt
        ensures (IdBeyond(CursorAt(sort, list[k - 1]), list[i].id) <==> i >= k)
      {
        FindsUnpinned(rows, sort, list, k, i);
      }
    }
  }

  lemma {:induction false} UniqueIdsPermuted(a: seq<Post>, b: seq<Post>)
    requires multiset(a) == multiset(b) && UniqueIds(a)
    ensures UniqueIds(b)
  {
    SameLength(a, b);
    forall i, j | 0 <= i < j < |b|
      ensures b[i].id != b[j].id
    {
      SameMembers(a, b, b[i]);
      SameMembers(a, b, b[j]);
      if b[i] == b[j] {
        TwiceIn(b, i, j);
        OnceIn(a, b[i]);
      }
    }
  }

  lemma TwiceIn(l: seq<Post>, i: nat, j: nat)
    requires i < j < |l| && l[i] == l[j]
    ensures multiset(l)[l[i]] >= 2
  {
    assert l == l[..i] + [l[i]] + l[i + 1..j] + [l[j]] + l[j + 1..];
  }

  lemma {:induction false} OnceIn(l: seq<Post>, p: Post)
    requires UniqueIds(l)
    ensures multiset(l)[p] <= 1
  {
    if l != [] {
      OnceIn(l[1..], p);
      assert l == [l[0]] + l[1..];
      assert l[0] == p ==> p !in l[1..];
    }
  }

  // Whatever arrangements the statements work with, every matching post is shown exactly once.
  ghost predicate AlwaysShownOnce(rows: seq<Post>, sort: Sort, size: nat)
    requires size > 0
  {
    forall orders: nat -> seq<Post> :: AllListings(By(sort), orders, rows) ==> ShownOnce(rows, orders, sort, size)
  }

  lemma OnceIsClear(rows: seq<Post>, list: seq<Post>, sort: Sort, size: nat, m: nat)
    requires size > 0 && UniqueIds(rows) && IsListing(By(sort), list, rows)
    requires AlwaysShownOnce(rows, sort, size) && 0 < Cut(m, size) < |list|
    ensures ClearBoundary(sort, list, Cut(m, size))
  {
    forall l: seq<Post> | IsListing(By(sort), l, rows) && 0 < Cut(m, size) < |l|
      ensures Finds(sort, l[Cut(m, size) - 1], l, Cut(m, size))
    {
      UniqueIdsPermuted(rows, l);
      AlwaysListings(l, rows, sort);
      OnceFinds(rows, sort, l, size, m);
    }
    UniqueIdsPermuted(rows, list);
    FindsIsClear(rows, sort, list, Cut(m, size));
  }

  /** Main result: the OFFSET first page followed by cursor pages shows each matching post exactly once, for
      every way the statements may arrange equal posts, if and only if all page boundaries are clear. Any
      arrangement may be used to look at the boundaries. */
  lemma PagesShowOnceIff(table: seq<Post>, list: seq<Post>, sort: Sort, filter: Post -> bool, size: nat)
    requires size > 0 && UniqueIds(table) && IsListing(By(sort), list, Matching(table, sort, filter))
    ensures AlwaysShownOnce(Matching(table, sort, filter), sort, size) <==> BoundariesClear(sort, list, size)
  {
    var rows := Matching(table, sort, filter);
    MatchingUnique(table, sort, filter);
    if BoundariesClear(sort, list, size) {
      forall orders: nat -> seq<Post> | AllListings(By(sort), orders, rows)
        ensures ShownOnce(rows, orders, sort, size)
      {
        ClearShowsOnce(rows, list, orders, sort, size);
      }
    }
    if AlwaysShownOnce(rows, sort, size) {
      forall m | 0 < Cut(m, size) < |list|
        ensures ClearBoundary(sort, list, Cut(m, size))
      {
        OnceIsClear(rows, list, sort, size, m);
      }
    }
  }

  lemma {:induction false} MatchingUnique(table: seq<Post>, sort: Sort, filter: Post -> bool)
    requires UniqueIds(table)
    ensures UniqueIds(Matching(table, sort, filter))
    ensures forall p <- Matching(table, sort, filter) :: p in table
  {
    if table != [] {
      MatchingUnique(table[1..], sort, filter);
      forall p <- Matching(table[1..], sort, filter)
        ensures p.id != table[0].id
      {
        assert p in table[1..];
      }
    }
  }

  // ---- In order ----

  // Position by position two lists are tied, as far as the first goes.
  ghost predicate TiedAlong(sort: Sort, a: seq<Post>, list: seq<Post>) {
    |a| <= |list| && forall i :: 0 <= i < |a| ==> Tied(sort, a[i], list[i])
  }

  lemma ArrangementsTied(sort: Sort, a: seq<Post>, list: seq<Post>)
    requires Sorted(By(sort), a) && Sorted(By(sort), list) && multiset(a) == multiset(list)
    ensures |a| == |list| && TiedAlong(sort, a, list)
  {
    SameLength(a, list);
    SortOrders(sort);
    forall i | 0 <= i < |list|
      ensures Tied(sort, a[i], list[i])
    {
      PositionsTied(By(sort), list, a, i);
    }
  }

  lemma TiedGrows(sort: Sort, a: seq<Post>, b: seq<Post>, list: seq<Post>, lo: nat, hi: nat)
    requires lo <= hi <= |list| == |b| && |a| == lo && TiedAlong(sort, a, list) && TiedAlong(sort, b, list)
    ensures TiedAlong(sort, a + b[lo..hi], list)
  {
  }

  lemma {:induction false} GatheredTied(rows: seq<Post>, list: seq<Post>, orders: nat -> seq<Post>, sort: Sort,
      size: nat, n: nat)
    requires IsListing(By(sort), list, rows) && AllListings(By(sort), orders, rows)
    ensures |Gathered(orders, size, n)| == Min(Cut(n, size), |list|) && TiedAlong(sort, Gathered(orders, size, n), list)
  {
    if n > 0 {
      GatheredTied(rows, list, orders, sort, size, n - 1);
      ListingAt(By(sort), orders, rows, n - 1);
      ArrangementsTied(sort, orders(n - 1), list);
      TiedGrows(sort, Gathered(orders, size, n - 1), orders(n - 1), list,
        Min(Cut(n - 1, size), |list|), Min(Cut(n, size), |list|));
    }
  }

  lemma TiedIsSorted(sort: Sort, a: seq<Post>, list: seq<Post>)
    requires TiedAlong(sort, a, list) && Sorted(By(sort), list)
    ensures Sorted(By(sort), a)
  {
    forall i, j | 0 <= i < j < |a|
      ensures By(sort)(a[i], a[j])
    {
      assert By(sort)(list[i], list[j]);
    }
  }

  /** With clear boundaries the posts come in ORDER BY order too. */
  lemma ClearPagesInOrder(rows: seq<Post>, list: seq<Post>, orders: nat -> seq<Post>, sort: Sort, size: nat)
    requires size > 0 && AllListings(By(sort), orders, rows)
    requires IsListing(By(sort), list, rows) && BoundariesClear(sort, list, size)
    ensures IsListing(By(sort), Visited(rows, orders, sort, size), rows)
  {
    ClearShowsOnce(rows, list, orders, sort, size);
    CutsReach(|rows|, size);
    VisitedGathers(rows, list, orders, sort, size, |rows|);
    GatheredTied(rows, list, orders, sort, size, |rows|);
    TiedIsSorted(sort, Gathered(orders, size, |rows|), list);
  }

  // ---- Distinct keys ----

  ghost predicate DistinctKeys(sort: Sort, rows: seq<Post>) {
    forall i, j :: 0 <= i < j < |rows| ==> Primary(sort, rows[i]) != Primary(sort, rows[j])
  }

  // Without ties there is one arrangement only.
  lemma OneArrangement(sort: Sort, a: seq<Post>, b: seq<Post>)
    requires Sorted(By(sort), a) && Sorted(By(sort), b) && multiset(a) == multiset(b) && DistinctKeys(sort, a)
    ensures a == b
  {
    SortOrders(sort);
    SameLength(a, b);
    forall i | 0 <= i < |a|
      ensures a[i] == b[i]
    {
      PositionsTied(By(sort), a, b, i);
      SameMembers(a, b, b[i]);
    }
  }

  lemma DistinctKeysClear(sort: Sort, list: seq<Post>, size: nat)
    requires size > 0 && DistinctKeys(sort, list) && forall i :: size - 1 <= i < |list| ==> !list[i].pinned
    ensures BoundariesClear(sort, list, size)
  {
    forall m | 0 < Cut(m, size) < |list|
      ensures ClearBoundary(sort, list, Cut(m, size))
    {
      assert Cut(1, size) == size;
      CutsGrow(1, m, size);
    }
  }

  /** With distinct primary sort values and fewer pinned posts than the page size, every sort shows
      exactly its sorted list. */
  lemma DistinctKeysShowListing(table: seq<Post>, orders: nat -> seq<Post>, sort: Sort, filter: Post -> bool, size: nat)
    requires size > 0 && UniqueIds(table)
    requires AllListings(By(sort), orders, Matching(table, sort, filter))
    requires var list := OrderBy(sort, Matching(table, sort, filter));
             DistinctKeys(sort, list) && forall i :: size - 1 <= i < |list| ==> !list[i].pinned
    ensures Visited(Matching(table, sort, filter), orders, sort, size) == OrderBy(sort, Matching(table, sort, filter))
  {
    var rows := Matching(table, sort, filter);
    var list := OrderBy(sort, rows);
    OrderBySorts(sort, rows);
    DistinctKeysClear(sort, list, size);
    ClearPagesInOrder(rows, list, orders, sort, size);
    OneArrangement(sort, list, Visited(rows, orders, sort, size));
  }

  // ---- Where posts are lost ----

  /** Equal like counts on a page boundary lose a post under every arrangement: the list is ordered by
      (like_count, created_at), the cursor compares (like_count, id). */
  lemma TiedLikesLosePost(newer: Post, older: Post, orders: nat -> seq<Post>)
    requires newer.likes == older.likes && newer.createdAt > older.createdAt && newer.id < older.id && !newer.pinned
    requires !older.pinned
    requires AllListings(By(Popular), orders, [newer, older])
    ensures Visited([newer, older], orders, Popular, 1) == [newer]
  {
    var rows := [newer, older];
    TwoArranged(rows, orders, 0);
    TwoArranged(rows, orders, 1);
    FirstPage(rows, Popular, 1);
    TailAll(rows, CursorAt(Popular, newer));
    FollowStep(rows, orders, 1, 1, CursorAt(Popular, newer));
  }

  lemma TwoArranged(rows: seq<Post>, orders: nat -> seq<Post>, k: nat)
    requires |rows| == 2 && By(Popular)(rows[0], rows[1]) && !Tied(Popular, rows[0], rows[1])
    requires AllListings(By(Popular), orders, rows)
    ensures orders(k) == rows
  {
    ListingAt(By(Popular), orders, rows, k);
    ArrangementsTied(Popular, orders(k), rows);
    SameMembers(orders(k), rows, orders(k)[0]);
    SameMembers(orders(k), rows, orders(k)[1]);
  }

  /** Two posts of equal created_at across a boundary of a newest-first list: with pages of one, one of
      the two arrangements shows one of them only. */
  lemma TiedTimesLosePost(a: Post, b: Post)
    requires a.createdAt == b.createdAt && !a.pinned && !b.pinned && a.id < b.id
    ensures Finds(Newest, b, [b, a], 1) && !Finds(Newest, a, [a, b], 1) && !AlwaysShownOnce([a, b], Newest, 1)
  {
    var list := [a, b];
    assert IsListing(By(Newest), list, list);
    assert Cut(1, 1) == 1 && Tied(Newest, list[1], list[0]) && !ClearBoundary(Newest, list, 1);
    assert !InTail(CursorAt(Newest, a), list[1]);
    if AlwaysShownOnce(list, Newest, 1) {
      OnceIsClear(list, list, Newest, 1, 1);
    }
  }

  // ---- What readers see, in terms of the posts' fields ----

  /** The promise of each sort: pinned posts first; then by date, newest first or oldest first, or by the number of
      likes, comments or answers, largest first and newest first among equal numbers. */
  predicate InFieldOrder(sort: Sort, p: Post, q: Post) {
    if p.pinned || q.pinned then p.pinned && (q.pinned ==> SameKindOrder(sort, p, q)) else SameKindOrder(sort, p, q)
  }

  // For two pinned or two unpinned posts.
  predicate SameKindOrder(sort: Sort, p: Post, q: Post) {
    match sort
    case Newest => p.createdAt >= q.createdAt
    case Other => p.createdAt >= q.createdAt
    case Unanswered => p.createdAt >= q.createdAt
    case Oldest => p.createdAt <= q.createdAt
    case Popular => p.likes > q.likes || (p.likes == q.likes && p.createdAt >= q.createdAt)
    case MostComments => p.comments > q.comments || (p.comments == q.comments && p.createdAt >= q.createdAt)
    case MostAnswers => p.answers > q.answers || (p.answers == q.answers && p.createdAt >= q.createdAt)
  }

  ghost predicate InOrder(sort: Sort, posts: seq<Post>) {
    forall i, j :: 0 <= i < j < |posts| ==> InFieldOrder(sort, posts[i], posts[j])
  }

  /** ORDER BY means that order and nothing else. */
  lemma ListingInOrder(sort: Sort, list: seq<Post>)
    ensures Sorted(By(sort), list) <==> InOrder(sort, list)
  {
    forall i, j | 0 <= i < j < |list|
      ensures By(sort)(list[i], list[j]) <==> InFieldOrder(sort, list[i], list[j])
    {
    }
  }

  /** With clear boundaries the whole visit is in the order of its sort. */
  lemma VisitInOrder(rows: seq<Post>, list: seq<Post>, orders: nat -> seq<Post>, sort: Sort, size: nat)
    requires size > 0 && AllListings(By(sort), orders, rows)
    requires IsListing(By(sort), list, rows) && BoundariesClear(sort, list, size)
    ensures InOrder(sort, Visited(rows, orders, sort, size))
  {
    ClearPagesInOrder(rows, list, orders, sort, size);
    ListingInOrder(sort, Visited(rows, orders, sort, size));
  }

  lemma {:induction false} TailInOrder(sort: Sort, list: seq<Post>, c: Cursor)
    requires InOrder(sort, list)
    ensures InOrder(sort, Tail(list, c))
  {
    if list != [] {
      var rest := list[1..];
      assert forall i :: 0 <= i < |rest| ==> rest[i] == list[i + 1];
      TailInOrder(sort, rest, c);
      TailMembers(rest, c);
      forall q <- Tail(rest, c)
        ensures InFieldOrder(sort, list[0], q)
      {
        var j :| 0 <= j < |rest| && rest[j] == q;
        assert list[j + 1] == q;
      }
    }
  }

  /** Every single page is in the order of its sort, whatever its boundary; an offset page holds posts of the
      listing, and a cursor page holds, up to its size, the unpinned posts behind the cursor in order and says
      whether there are more. */
  lemma PagesInOrder(sort: Sort, list: seq<Post>, size: nat, page: nat, c: Cursor)
    requires size > 0 && page > 0 && c.sort == sort && Sorted(By(sort), list)
    ensures InOrder(sort, OffsetPage(list, sort, size, page).posts) && |OffsetPage(list, sort, size, page).posts| <= size
    ensures InOrder(sort, CursorPage(list, size, c).posts) && |CursorPage(list, size, c).posts| <= size
    ensures CursorPage(list, size, c).posts <= Tail(list, c)
    ensures CursorPage(list, size, c).hasMore <==> |Tail(list, c)| > size
    ensures !CursorPage(list, size, c).hasMore ==> CursorPage(list, size, c).posts == Tail(list, c)
  {
    ListingInOrder(sort, list);
    TailInOrder(sort, list, c);
    OffsetSlice(sort, list, size, page);
    CursorSlice(list, size, c);
    hide InFieldOrder, OffsetPage, CursorPage, Tail;
  }

  /** An offset page holds the posts from (page - 1) * size on. */
  lemma PageContents(sort: Sort, list: seq<Post>, size: nat, page: nat, from: nat)
    requires size > 0 && page > 0 && from == (page - 1) * size
    ensures |OffsetPage(list, sort, size, page).posts| == if from >= |list| then 0 else Min(size, |list| - from)
    ensures forall i :: 0 <= i < |OffsetPage(list, sort, size, page).posts| ==>
      OffsetPage(list, sort, size, page).posts[i] == list[from + i]
  {
    assert OffsetPage(list, sort, size, page).posts == if from >= |list| then [] else Take(list[from..], size);
    hide OffsetPage;
  }

  /** A page leads on exactly if there is more, and its cursor is made of its last post's id and of the field its sort
      goes by. */
  lemma PagesLeadOn(sort: Sort, list: seq<Post>, size: nat, page: nat, c: Cursor)
    requires size > 0 && page > 0 && c.sort == sort
    ensures var p := OffsetPage(list, sort, size, page);
      (p.next.Some? <==> p.hasMore && p.posts != []) && (p.next.Some? ==> LeadsOn(p.next.value, sort, p.posts))
    ensures var p := CursorPage(list, size, c);
      (p.next.Some? <==> p.hasMore) && (p.next.Some? ==> LeadsOn(p.next.value, sort, p.posts))
  {
    hide Tail, TotalPages, Take;
    TakeKeeps(Tail(list, c), size + 1);
  }

  lemma TakeKeeps(rows: seq<Post>, limit: nat)
    ensures |Take(rows, limit)| == Min(|rows|, limit) && Take(rows, limit) <= rows
  {
  }

  predicate LeadsOn(c: Cursor, sort: Sort, posts: seq<Post>) {
    posts != [] &&
    var last := posts[|posts| - 1];
    c == match sort
      case Popular => Cursor(sort, last.likes, last.id)
      case MostComments => Cursor(sort, last.comments, last.id)
      case MostAnswers => Cursor(sort, last.answers, last.id)
      case _ => Cursor(sort, last.createdAt, last.id)
  }

  lemma OffsetSlice(sort: Sort, list: seq<Post>, size: nat, page: nat)
    requires size > 0 && page > 0 && InOrder(sort, list)
    ensures InOrder(sort, OffsetPage(list, sort, size, page).posts) && |OffsetPage(list, sort, size, page).posts| <= size
  {
    var offset := (page - 1) * size;
    if offset < |list| {
      var posts := OffsetPage(list, sort, size, page).posts;
      assert posts == list[offset..Min(offset + size, |list|)];
      hide InFieldOrder, OffsetPage;
      assert forall i :: 0 <= i < |posts| ==> posts[i] == list[offset + i];
    }
  }

  lemma CursorSlice(list: seq<Post>, size: nat, c: Cursor)
    requires size > 0
    ensures CursorPage(list, size, c).posts <= Tail(list, c) && |CursorPage(list, size, c).posts| <= size
    ensures CursorPage(list, size, c).hasMore <==> |Tail(list, c)| > size
    ensures !CursorPage(list, size, c).hasMore ==> CursorPage(list, size, c).posts == Tail(list, c)
  {
    hide Tail;
  }

  /** Which posts lie behind a cursor: unpinned ones with a later (date, id) for Oldest, an earlier one for the other
      date sorts, and a smaller (number, id) for the sorts by likes, comments and answers. */
  lemma TailInFields(list: seq<Post>, c: Cursor, p: Post)
    ensures p in Tail(list, c) <==> p in list && !p.pinned && BehindInFields(c, p)
  {
    TailMembers(list, c);
  }

  predicate BehindInFields(c: Cursor, p: Post) {
    match c.sort
    case Oldest => p.createdAt > c.primary || (p.createdAt == c.primary && p.id > c.id)
    case Popular => p.likes < c.primary || (p.likes == c.primary && p.id < c.id)
    case MostComments => p.comments < c.primary || (p.comments == c.primary && p.id < c.id)
    case MostAnswers => p.answers < c.primary || (p.answers == c.primary && p.id < c.id)
    case _ => p.createdAt < c.primary || (p.createdAt == c.primary && p.id < c.id)
  }

  lemma {:induction false} MatchingMembers(table: seq<Post>, sort: Sort, filter: Post -> bool, p: Post)
    ensures p in Matching(table, sort, filter) <==> p in table && filter(p) && (sort.Unanswered? ==> p.answers == 0)
  {
    if table != [] {
      MatchingMembers(table[1..], sort, filter, p);
      assert table == [table[0]] + table[1..];
    }
  }

  lemma {:induction false} FollowMatches(rows: seq<Post>, orders: nat -> seq<Post>, k: nat, size: nat, c: Cursor)
    requires size > 0 && AllListings(By(c.sort), orders, rows)
    ensures forall p <- Follow(rows, orders, k, size, c) :: p in rows && !p.pinned
    decreases |Tail(rows, c)|
  {
    FollowStep(rows, orders, k, size, c);
    var tail := Tail(orders(k), c);
    ListingAt(By(c.sort), orders, rows, k);
    TailMembers(orders(k), c);
    forall p <- tail
      ensures p in rows && !p.pinned
    {
      SameMembers(orders(k), rows, p);
    }
    if |tail| > size {
      NextTailShorter(rows, orders, k, size, c);
      FollowMatches(rows, orders, k + 1, size, CursorAt(c.sort, tail[size - 1]));
    }
  }

  /** Whatever the boundaries, only posts of the table that pass the filters are shown, and for Unanswered only posts
      without an answer. */
  lemma VisitMatches(table: seq<Post>, orders: nat -> seq<Post>, sort: Sort, filter: Post -> bool, size: nat)
    requires size > 0 && AllListings(By(sort), orders, Matching(table, sort, filter))
    ensures forall p <- Visited(Matching(table, sort, filter), orders, sort, size) ::
      p in table && filter(p) && (sort.Unanswered? ==> p.answers == 0)
  {
    var rows := Matching(table, sort, filter);
    var first := OffsetPage(orders(0), sort, size, 1);
    ListingAt(By(sort), orders, rows, 0);
    if first.hasMore && first.next.Some? {
      FollowMatches(rows, orders, 1, size, first.next.value);
    }
    forall p <- Visited(rows, orders, sort, size)
      ensures p in table && filter(p) && (sort.Unanswered? ==> p.answers == 0)
    {
      SameMembers(orders(0), rows, p);
      MatchingMembers(table, sort, filter, p);
    }
  }

  /** The number of offset pages: every page up to it but none beyond it shows posts, an empty listing has one page,
      and has_more says whether a page is left. */
  lemma TotalPagesExact(list: seq<Post>, sort: Sort, size: nat, page: nat)
    requires size > 0 && page > 0
    ensures OffsetPage(list, sort, size, page).posts != [] <==> list != [] && page <= TotalPages(|list|, size)
    ensures OffsetPage(list, sort, size, page).hasMore <==> OffsetPage(list, sort, size, page + 1).posts != []
    ensures list == [] ==> TotalPages(|list|, size) == 1
  {
    PagesNeeded(|list|, size, page);
    PagesNeeded(|list|, size, page + 1);
  }

  lemma PagesNeeded(total: nat, size: nat, page: nat)
    requires size > 0 && page > 0
    ensures (page - 1) * size < total <==> total > 0 && page <= TotalPages(total, size)
    ensures total == 0 ==> TotalPages(total, size) == 1
  {
    var n := total + size - 1;
    var q := n / size;
    Quotient(n, size, q);
    if page <= q {
      Times(page - 1, q - 1, size);
      assert (q - 1) * size == q * size - size;
    } else {
      Times(q, page - 1, size);
    }
    if total == 0 {
      Times(1, q, size);
    } else {
      Times(q, 0, size);
    }
  }

  lemma Quotient(n: nat, size: nat, q: nat)
    requires size > 0 && q == n / size
    ensures q * size <= n < q * size + size
  {
  }

  lemma Times(a: nat, b: nat, size: nat)
    ensures a <= b ==> a * size <= b * size
  {
  }
}

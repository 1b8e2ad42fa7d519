/** Lists a server returns for ORDER BY without a full tie-breaker: any sorted arrangement of the rows,
    and possibly another one for every statement.

    leq is the order of the ORDER BY clause; rows with leq both ways are tied. */
module Listings {
  import opened Basics

  ghost predicate Preorder<T(!new)>(leq: (T, T) -> bool) {
    && (forall a, b :: leq(a, b) || leq(b, a))
    && (forall a, b, c :: leq(a, b) && leq(b, c) ==> leq(a, c))
  }

  ghost predicate Sorted<T>(leq: (T, T) -> bool, l: seq<T>) {
    forall i, j :: 0 <= i < j < |l| ==> leq(l[i], l[j])
  }

  // Any order the server may choose for the rows.
  ghost predicate IsListing<T>(leq: (T, T) -> bool, l: seq<T>, rows: seq<T>) {
    Sorted(leq, l) && multiset(l) == multiset(rows)
  }

  // Every statement lists the rows in an order of its own.
  ghost predicate AllListings<T>(leq: (T, T) -> bool, orders: nat -> seq<T>, rows: seq<T>) {
    forall k :: IsListing(leq, orders(k), rows)
  }

  lemma ListingAt<T>(leq: (T, T) -> bool, orders: nat -> seq<T>, rows: seq<T>, k: nat)
    requires AllListings(leq, orders, rows)
    ensures Sorted(leq, orders(k)) && multiset(orders(k)) == multiset(rows) && |orders(k)| == |rows|
  {
    assert IsListing(leq, orders(k), rows);
    SameLength(orders(k), rows);
  }

  lemma ListingLength<T>(leq: (T, T) -> bool, l: seq<T>, rows: seq<T>)
    requires IsListing(leq, l, rows)
    ensures |l| == |rows|
  {
    SameLength(l, rows);
  }

  lemma SameLength<T>(a: seq<T>, b: seq<T>)
    requires multiset(a) == multiset(b)
    ensures |a| == |b|
  {
    assert |multiset(a)| == |a| && |multiset(b)| == |b|;
  }

  // ---- Two listings of the same rows ----

  function UpTo<T>(leq: (T, T) -> bool, l: seq<T>, y: T): seq<T> {
    if l == [] then []
    else if leq(l[0], y) then [l[0]] + UpTo(leq, l[1..], y)
    else UpTo(leq, l[1..], y)
  }

  lemma {:induction false} UpToCounts<T>(leq: (T, T) -> bool, l: seq<T>, y: T, p: T)
    ensures multiset(UpTo(leq, l, y))[p] == if leq(p, y) then multiset(l)[p] else 0
  {
    if l != [] {
      UpToCounts(leq, l[1..], y, p);
      assert l == [l[0]] + l[1..];
    }
  }

  lemma {:induction false} UpToIsPrefix<T(!new)>(leq: (T, T) -> bool, l: seq<T>, y: T, n: nat)
    requires n <= |l|
    requires forall i :: 0 <= i < n ==> leq(l[i], y)
    requires forall i :: n <= i < |l| ==> !leq(l[i], y)
    ensures UpTo(leq, l, y) == l[..n]
  {
    if l != [] {
      if n > 0 {
        UpToIsPrefix(leq, l[1..], y, n - 1);
        assert l[..n] == [l[0]] + l[1..][..n - 1];
      } else {
        UpToIsPrefix(leq, l[1..], y, 0);
      }
    }
  }

  // How many elements of a sorted list come no later than y.
  lemma FirstLater<T(!new)>(leq: (T, T) -> bool, l: seq<T>, y: T) returns (n: nat)
    requires Preorder(leq) && Sorted(leq, l)
    ensures n <= |l|
    ensures forall i :: 0 <= i < n ==> leq(l[i], y)
    ensures forall i :: n <= i < |l| ==> !leq(l[i], y)
  {
    n := 0;
    while n < |l| && leq(l[n], y)
      invariant n <= |l|
      invariant forall i :: 0 <= i < n ==> leq(l[i], y)
    {
      n := n + 1;
    }
    forall i | n <= i < |l|
      ensures !leq(l[i], y)
    {
      assert i > n ==> leq(l[n], l[i]);
    }
  }

  lemma UpToAgrees<T(!new)>(leq: (T, T) -> bool, a: seq<T>, b: seq<T>, y: T)
    requires multiset(a) == multiset(b)
    ensures multiset(UpTo(leq, a, y)) == multiset(UpTo(leq, b, y))
  {
    forall p
      ensures multiset(UpTo(leq, a, y))[p] == multiset(UpTo(leq, b, y))[p]
    {
      UpToCounts(leq, a, y, p);
      UpToCounts(leq, b, y, p);
    }
  }

  /** Two listings hold the same rows before a position where the first is not tied. */
  lemma PrefixesAgree<T(!new)>(leq: (T, T) -> bool, a: seq<T>, b: seq<T>, cut: nat)
    requires Preorder(leq) && Sorted(leq, a) && Sorted(leq, b) && multiset(a) == multiset(b)
    requires 0 < cut < |a| && !leq(a[cut], a[cut - 1])
    ensures cut < |b| && multiset(a[..cut]) == multiset(b[..cut]) && !leq(b[cut], a[cut - 1])
  {
    var y := a[cut - 1];
    forall i | 0 <= i < |a|
      ensures leq(a[i], y) <==> i < cut
    {
      assert leq(y, y);
      assert i > cut ==> leq(a[cut], a[i]);
    }
    UpToIsPrefix(leq, a, y, cut);
    var n := FirstLater(leq, b, y);
    UpToIsPrefix(leq, b, y, n);
    UpToAgrees(leq, a, b, y);
    SameLength(a[..cut], b[..n]);
    SameLength(a, b);
  }

  /** Two listings are tied position by position. */
  lemma PositionsTied<T(!new)>(leq: (T, T) -> bool, a: seq<T>, b: seq<T>, i: nat)
    requires Preorder(leq) && Sorted(leq, a) && Sorted(leq, b) && multiset(a) == multiset(b) && i < |a|
    ensures i < |b| && leq(b[i], a[i]) && leq(a[i], b[i])
  {
    SameLength(a, b);
    NotLater(leq, a, b, i);
    NotLater(leq, b, a, i);
  }

  lemma NotLater<T(!new)>(leq: (T, T) -> bool, a: seq<T>, b: seq<T>, i: nat)
    requires Preorder(leq) && Sorted(leq, a) && Sorted(leq, b) && multiset(a) == multiset(b) && i < |a| == |b|
    ensures leq(b[i], a[i])
  {
    var n := FirstLater(leq, a, a[i]);
    var m := FirstLater(leq, b, a[i]);
    assert leq(a[i], a[i]);
    UpToIsPrefix(leq, a, a[i], n);
    UpToIsPrefix(leq, b, a[i], m);
    UpToAgrees(leq, a, b, a[i]);
    SameLength(a[..n], b[..m]);
  }

  // ---- Exchanging tied elements ----

  function Swap<T>(l: seq<T>, i: nat, j: nat): seq<T>
    requires i < |l| && j < |l|
  {
    l[i := l[j]][j := l[i]]
  }

  lemma SwapSameRows<T(!new)>(l: seq<T>, i: nat, j: nat)
    requires i < |l| && j < |l|
    ensures multiset(Swap(l, i, j)) == multiset(l) && |Swap(l, i, j)| == |l|
  {
    assert multiset(Swap(l, i, j)) == multiset(l) - multiset{l[i]} + multiset{l[j]} - multiset{l[j]} + multiset{l[i]};
  }

  lemma SwapIsListing<T(!new)>(leq: (T, T) -> bool, l: seq<T>, i: nat, j: nat)
    requires Preorder(leq) && Sorted(leq, l) && i < |l| && j < |l| && leq(l[i], l[j]) && leq(l[j], l[i])
    ensures IsListing(leq, Swap(l, i, j), l)
  {
    var s := Swap(l, i, j);
    SwapSameRows(l, i, j);
    forall x | 0 <= x < |l|
      ensures leq(s[x], l[x]) && leq(l[x], s[x])
    {
      assert leq(l[x], l[x]);
    }
    forall x, y | 0 <= x < y < |l|
      ensures leq(s[x], s[y])
    {
      assert leq(s[x], l[x]) && leq(l[x], l[y]) && leq(l[y], s[y]);
      assert leq(s[x], l[y]);
    }
  }

  // ---- Consecutive slices, each of its own statement's listing ----

  // k * size
  function Cut(k: nat, size: nat): nat {
    if k == 0 then 0 else Cut(k - 1, size) + size
  }

  // LIMIT size OFFSET k * size
  function Batch<T>(l: seq<T>, k: nat, size: nat): seq<T> {
    l[Min(Cut(k, size), |l|)..Min(Cut(k + 1, size), |l|)]
  }

  // The first n slices, one after the other; statement k lists the rows as orders(k).
  function Gathered<T>(orders: nat -> seq<T>, size: nat, n: nat): seq<T> {
    if n == 0 then [] else Gathered(orders, size, n - 1) + Batch(orders(n - 1), n - 1, size)
  }

  lemma {:induction false} CutsApart(j: nat, k: nat, size: nat)
    requires j < k
    ensures Cut(j + 1, size) <= Cut(k, size)
  {
    if j < k - 1 {
      CutsApart(j, k - 1, size);
    }
  }

  // The slices of one and the same list add up to it.
  lemma {:induction false} GatheredConstant<T>(l: seq<T>, orders: nat -> seq<T>, size: nat, n: nat)
    requires forall k: nat :: k < n ==> orders(k) == l
    ensures Gathered(orders, size, n) == l[..Min(Cut(n, size), |l|)]
  {
    if n > 0 {
      GatheredConstant(l, orders, size, n - 1);
    }
  }

  // No two rows on either side of a slice boundary are tied.
  ghost predicate CutsClean<T>(leq: (T, T) -> bool, l: seq<T>, size: nat) {
    forall k :: 0 < Cut(k, size) < |l| ==> !leq(l[Cut(k, size)], l[Cut(k, size) - 1])
  }

  lemma PrefixesAgreeAt<T(!new)>(leq: (T, T) -> bool, a: seq<T>, b: seq<T>, k: nat, size: nat)
    requires Preorder(leq) && Sorted(leq, a) && Sorted(leq, b) && multiset(a) == multiset(b) && CutsClean(leq, a, size)
    ensures |a| == |b|
    ensures multiset(a[..Min(Cut(k, size), |a|)]) == multiset(b[..Min(Cut(k, size), |b|)])
  {
    SameLength(a, b);
    if 0 < Cut(k, size) < |a| {
      PrefixesAgree(leq, a, b, Cut(k, size));
    } else if Cut(k, size) >= |a| {
      assert a[..|a|] == a && b[..|b|] == b;
    }
  }

  lemma SlicesAgree<T>(a: seq<T>, b: seq<T>, lo: nat, hi: nat)
    requires lo <= hi <= |a| && hi <= |b|
    requires multiset(a[..lo]) == multiset(b[..lo]) && multiset(a[..hi]) == multiset(b[..hi])
    ensures multiset(a[lo..hi]) == multiset(b[lo..hi])
  {
    assert a[..hi] == a[..lo] + a[lo..hi] && b[..hi] == b[..lo] + b[lo..hi];
    assert multiset(a[lo..hi]) == multiset(a[..hi]) - multiset(a[..lo]);
    assert multiset(b[lo..hi]) == multiset(b[..hi]) - multiset(b[..lo]);
  }

  /** Between clean boundaries every statement's slice holds the same rows. */
  lemma BatchesAgree<T(!new)>(leq: (T, T) -> bool, a: seq<T>, b: seq<T>, k: nat, size: nat)
    requires Preorder(leq) && Sorted(leq, a) && Sorted(leq, b) && multiset(a) == multiset(b) && CutsClean(leq, a, size)
    ensures multiset(Batch(a, k, size)) == multiset(Batch(b, k, size))
  {
    PrefixesAgreeAt(leq, a, b, k, size);
    PrefixesAgreeAt(leq, a, b, k + 1, size);
    SlicesAgree(a, b, Min(Cut(k, size), |a|), Min(Cut(k + 1, size), |a|));
  }

  ghost predicate CleanListings<T>(leq: (T, T) -> bool, rows: seq<T>, l: seq<T>, orders: nat -> seq<T>, size: nat) {
    IsListing(leq, l, rows) && CutsClean(leq, l, size) && AllListings(leq, orders, rows)
  }

  ghost predicate BatchAgrees<T>(l: seq<T>, orders: nat -> seq<T>, size: nat, k: nat) {
    multiset(Batch(orders(k), k, size)) == multiset(Batch(l, k, size))
  }

  lemma CleanBatch<T(!new)>(leq: (T, T) -> bool, rows: seq<T>, l: seq<T>, orders: nat -> seq<T>, size: nat, k: nat)
    requires Preorder(leq) && CleanListings(leq, rows, l, orders, size)
    ensures BatchAgrees(l, orders, size, k)
  {
    ListingAt(leq, orders, rows, k);
    BatchesAgree(leq, l, orders(k), k, size);
  }

  // The first k slices hold the rows of the first k slices of l.
  ghost predicate GathersPrefix<T>(l: seq<T>, orders: nat -> seq<T>, size: nat, k: nat) {
    multiset(Gathered(orders, size, k)) == multiset(l[..Min(Cut(k, size), |l|)])
  }

  lemma {:induction false} AgreeingGather<T>(l: seq<T>, orders: nat -> seq<T>, size: nat, n: nat)
    requires forall k: nat :: BatchAgrees(l, orders, size, k)
    ensures GathersPrefix(l, orders, size, n)
  {
    if n > 0 {
      AgreeingGather(l, orders, size, n - 1);
      assert BatchAgrees(l, orders, size, n - 1);
      assert l[..Min(Cut(n, size), |l|)] == l[..Min(Cut(n - 1, size), |l|)] + Batch(l, n - 1, size);
    }
  }

  /** With clean boundaries the slices hold each row once, whatever orders the statements choose. */
  lemma CleanCutsGather<T(!new)>(leq: (T, T) -> bool, rows: seq<T>, l: seq<T>, orders: nat -> seq<T>, size: nat, n: nat)
    requires Preorder(leq) && CleanListings(leq, rows, l, orders, size)
    ensures GathersPrefix(l, orders, size, n)
  {
    forall k: nat
      ensures BatchAgrees(l, orders, size, k)
    {
      CleanBatch(leq, rows, l, orders, size, k);
    }
    AgreeingGather(l, orders, size, n);
  }
}
